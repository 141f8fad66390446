/** shutdown.c: the decoders as loops over the byte code, and the port writes that power the machine off. */
module AcpiShutdown {
  import opened Words
  import opened Aml

  const SIZEOF_ACPI_HEADER := 36

  lemma AppendByte(b: Bytes, at: nat, i: nat)
    requires at + i < |b|
    ensures FromLE(b[at..at + i + 1]) == FromLE(b[at..at + i]) + b[at + i] * Pow256(i)
  {
    assert b[at..at + i + 1] == b[at..at + i] + [b[at + i]];
    FromLESnoc(b[at..at + i], b[at + i]);
  }

  lemma Scale(x: int, p: int)
    ensures x * (16 * p) == 16 * (x * p)
  {
  }

  /** aml_read_package_length; the bytes it ORs together do not overlap, so their sum is the same. */
  method ReadPackageLength(aml: Bytes, offset: nat) returns (r: Option<(nat, nat)>)
    ensures r == ReadPkg(aml, offset)
  {
    if offset >= |aml| {
      return None;
    }
    var lead := aml[offset];
    var follow := lead / 64;
    var length := if follow == 0 then lead % 64 else lead % 16;
    var i := 0;
    var scale := 16;
    while i < follow
      invariant 0 <= i <= follow && offset + 1 + i <= |aml|
      invariant scale == 16 * Pow256(i)
      invariant length == (if follow == 0 then lead % 64 else lead % 16) + 16 * FromLE(aml[offset + 1..offset + 1 + i])
    {
      if offset + 1 + i >= |aml| {
        return None;
      }
      var byte := aml[offset + 1 + i];
      AppendByte(aml, offset + 1, i);
      Scale(byte, Pow256(i));
      length := length + byte * scale;
      scale := scale * 256;
      i := i + 1;
    }
    if length < 1 + follow || length > |aml| - offset {
      return None;
    }
    return Some((offset + 1 + follow, offset + length));
  }

  /** The loop of aml_read_integer: the operand bytes, least significant first. */
  method SumBytes(aml: Bytes, at: nat, n: nat) returns (v: nat)
    requires at + n <= |aml|
    ensures v == FromLE(aml[at..at + n])
  {
    v := 0;
    var i, scale := 0, 1;
    while i < n
      invariant 0 <= i <= n && scale == Pow256(i)
      invariant v == FromLE(aml[at..at + i])
    {
      AppendByte(aml, at, i);
      v := v + (aml[at + i] as int) * scale;
      scale := scale * 256;
      i := i + 1;
    }
  }

  /** aml_read_integer. */
  method ReadInteger(aml: Bytes, end: nat, offset: nat) returns (r: Option<(nat, nat)>)
    requires end <= |aml|
    ensures r == ReadInt(aml, end, offset)
  {
    if offset >= end {
      return None;
    }
    var opcode := aml[offset];
    var size := Operands(opcode);
    if size.None? || size.value > end - offset - 1 {
      return None;
    }
    var n := size.value;
    var integer := if opcode == 0xFF then TWO_64 - 1 else if opcode == 1 then 1 else 0;
    if n > 0 {
      integer := SumBytes(aml, offset + 1, n);
    }
    if integer > 7 {
      return None;
    }
    return Some((offset + 1 + n, integer));
  }

  method Candidate(aml: Bytes, i: nat) returns (r: Option<(nat, nat)>)
    requires i + 5 <= |aml|
    ensures r == ReadS5(aml, i)
  {
    hide ReadPkg;
    hide ReadInt;
    if aml[i..i + 5] != S5_HEAD {
      return None;
    }
    var package := ReadPackageLength(aml, i + 5);
    if package.None? || package.value.0 >= package.value.1 {
      return None;
    }
    var (offset, end) := package.value;
    if aml[offset] < 2 {
      return None;
    }
    var first := ReadInteger(aml, end, offset + 1);
    if first.None? {
      return None;
    }
    var second := ReadInteger(aml, end, first.value.0);
    if second.None? {
      return None;
    }
    return Some((first.value.1, second.value.1));
  }

  /** aml_find_s5. */
  method FindS5(aml: Bytes) returns (r: Option<(nat, nat)>)
    ensures r == SleepTypes(aml)
  {
    hide ReadPkg;
    hide ReadInt;
    var i := 0;
    while i <= |aml| && |aml| - i >= 5
      invariant 0 <= i
      invariant FindFrom(aml, 0) == FindFrom(aml, i)
      decreases |aml| - i
    {
      r := Candidate(aml, i);
      if r.Some? {
        return;
      }
      i := i + 1;
    }
    return None;
  }

  /** A 16-bit word written to an I/O port. */
  datatype PortWrite = PortWrite(port: nat, word: nat)

  lemma TypesSmall(aml: Bytes)
    ensures SleepTypes(aml).Some? ==> SleepTypes(aml).value.0 <= 7 && SleepTypes(aml).value.1 <= 7
  {
    FindMeans(aml);
  }

  /** acpi_shutdown; length is the table's own length field, and a null table is None. */
  method Shutdown(pm1a: Word, pm1b: Word, hasTables: bool, length: Word, aml: Bytes) returns (writes: seq<PortWrite>)
    requires length >= 36 ==> |aml| == length - 36
    ensures writes != [] <==>
      hasTables && length >= 36 && pm1a <= 0xFFFF && pm1b <= 0xFFFF && SleepTypes(aml).Some?
    ensures writes != [] ==>
      var (a, b) := SleepTypes(aml).value;
      && a <= 7 && b <= 7
      && writes == [PortWrite(pm1a, ControlWord(a))] + if pm1b != 0 then [PortWrite(pm1b, ControlWord(b))] else []
  {
    hide SleepTypes;
    if !hasTables || length < SIZEOF_ACPI_HEADER {
      return [];
    }
    if pm1a > 0xFFFF || pm1b > 0xFFFF {
      return [];
    }
    var values := FindS5(aml);
    TypesSmall(aml);
    if values.None? {
      return [];
    }
    writes := [PortWrite(pm1a, values.value.0 * 0x400 + SLP_EN)];
    if pm1b != 0 {
      writes := writes + [PortWrite(pm1b, values.value.1 * 0x400 + SLP_EN)];
    }
  }
}
