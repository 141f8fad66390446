/** init.c's editor on its buffers: text is shifted in place, and a ring of 32 slots keeps the history. */
module LineEditor {
  import opened Editor
  import Keyboard

  const NUL := '\0'

  /** The slot holds line, NUL-terminated. */
  ghost predicate Holds(slots: array2<char>, s: nat, line: string)
    reads slots
    requires slots.Length0 == HISTORY_MAX && slots.Length1 == BUFFER_SIZE && s < HISTORY_MAX && |line| < BUFFER_SIZE
  {
    (forall j :: 0 <= j < |line| ==> slots[s, j] == line[j]) && slots[s, |line|] == NUL
  }

  lemma SlotsApart(i: nat, count: nat)
    requires i < count < i + HISTORY_MAX
    ensures i % HISTORY_MAX != count % HISTORY_MAX
  {
  }

  lemma LeftOnce(was: string, from: nat, i: nat)
    requires from <= i < |was| - 1
    ensures (was[..from] + was[from + 1..i + 1] + was[i..])[i := was[i + 1]]
      == was[..from] + was[from + 1..i + 2] + was[i + 1..]
    ensures (was[..from] + was[from + 1..i + 1] + was[i..])[i + 1] == was[i + 1]
  {
  }

  lemma RightOnce(was: string, i: nat, to: nat)
    requires 0 < i <= to < |was|
    ensures (was[..i + 1] + was[i..to] + was[to + 1..])[i := was[i - 1]]
      == was[..i] + was[i - 1..to] + was[to + 1..]
  {
  }

  lemma Erased(was: string, now: string, pos: nat, len: nat)
    requires pos <= len < |was| - 1 && now == was[..pos] + was[pos + 1..len + 2] + was[len + 1..]
    ensures now[..len] == was[..len + 1][..pos] + was[..len + 1][pos + 1..] && now[len] == was[len + 1]
  {
  }

  lemma Inserted(was: string, now: string, pos: nat, len: nat, c: char)
    requires pos <= len < |was| - 1
    requires now == (was[..pos + 1] + was[pos..len] + was[len + 1..])[pos := c][len + 1 := NUL]
    ensures now[..len + 1] == was[..len][..pos] + [c] + was[..len][pos..] && now[len + 1] == NUL
  {
  }

  class Shell {
    const inputBuffer: array<char>
    var inputLen: int
    var inputPos: int
    const historyBuffer: array2<char>
    var historyCount: int
    var historyIndex: int
    /** Every non-empty line submitted so far, in order. */
    ghost var submitted: seq<string>

    ghost function Now(): Edit
      reads this, inputBuffer
      requires 0 <= inputLen <= inputBuffer.Length && 0 <= inputPos
    {
      Edit(inputBuffer[..inputLen], inputPos, submitted, historyIndex)
    }

    ghost predicate Buffers()
      reads this
    {
      && inputBuffer.Length == BUFFER_SIZE
      && historyBuffer.Length0 == HISTORY_MAX && historyBuffer.Length1 == BUFFER_SIZE
      && 0 <= inputLen < BUFFER_SIZE && 0 <= inputPos <= inputLen
    }

    /** The ring holds exactly the lines that may be recalled, line i in slot i % 32. */
    ghost predicate Ring()
      reads this, historyBuffer
      requires historyBuffer.Length0 == HISTORY_MAX && historyBuffer.Length1 == BUFFER_SIZE
    {
      && historyCount == |submitted|
      && (forall i :: 0 <= i < |submitted| ==> |submitted[i]| > 0 && IsLine(submitted[i]))
      && forall i :: Oldest(submitted) <= i < |submitted| ==> Holds(historyBuffer, i % HISTORY_MAX, submitted[i])
    }

    /** Right after Enter the buffer is not NUL-terminated at its new length 0; otherwise it is. */
    ghost predicate Valid()
      reads this, inputBuffer, historyBuffer
    {
      && Buffers() && Ring() && Editor.Valid(Now())
      && (inputLen > 0 ==> inputBuffer[inputLen] == NUL)
    }

    constructor ()
      ensures Valid() && Now() == Start()
      ensures fresh(inputBuffer) && fresh(historyBuffer)
    {
      inputBuffer := new char[BUFFER_SIZE](_ => NUL);
      historyBuffer := new char[HISTORY_MAX, BUFFER_SIZE]((_, _) => NUL);
      inputLen, inputPos, historyCount, historyIndex := 0, 0, 0, -1;
      submitted := [];
      new;
      assert Now().text == "";
    }

    /** strcpy from the input buffer into a history slot. */
    method CopyToSlot(s: nat)
      requires Buffers() && s < HISTORY_MAX && inputBuffer[inputLen] == NUL
      requires forall j :: 0 <= j < inputLen ==> inputBuffer[j] != NUL
      modifies historyBuffer
      ensures Holds(historyBuffer, s, inputBuffer[..inputLen])
      ensures forall t, j :: 0 <= t < HISTORY_MAX && t != s && 0 <= j < BUFFER_SIZE ==>
        historyBuffer[t, j] == old(historyBuffer[t, j])
    {
      var i := 0;
      historyBuffer[s, i] := inputBuffer[i];
      while inputBuffer[i] != NUL
        invariant 0 <= i <= inputLen
        invariant forall j :: 0 <= j <= i ==> historyBuffer[s, j] == inputBuffer[j]
        invariant forall t, j :: 0 <= t < HISTORY_MAX && t != s && 0 <= j < BUFFER_SIZE ==>
          historyBuffer[t, j] == old(historyBuffer[t, j])
        decreases inputLen - i
      {
        i := i + 1;
        historyBuffer[s, i] := inputBuffer[i];
      }
    }

    method Strlen(ghost n: nat) returns (i: nat)
      requires inputBuffer.Length == BUFFER_SIZE && n < BUFFER_SIZE && inputBuffer[n] == NUL
      requires forall j :: 0 <= j < n ==> inputBuffer[j] != NUL
      ensures i == n
    {
      i := 0;
      while inputBuffer[i] != NUL
        invariant 0 <= i <= n
        decreases n - i
      {
        i := i + 1;
      }
    }

    /** shell_clear_current_line, without the terminal. */
    method ClearLine()
      requires Buffers()
      modifies inputBuffer, this`inputLen, this`inputPos
      ensures Buffers() && inputLen == 0 && inputPos == 0 && inputBuffer[0] == NUL
    {
      while inputPos < inputLen
        invariant 0 <= inputPos <= inputLen < BUFFER_SIZE
      {
        inputPos := inputPos + 1;
      }
      while inputLen > 0
        invariant 0 <= inputLen < BUFFER_SIZE
      {
        inputLen := inputLen - 1;
      }
      inputPos := 0;
      inputBuffer[0] := NUL;
    }

    /** shell_set_current_line for a history slot: clear, strcpy, strlen. */
    method SetFromSlot(s: nat, ghost line: string)
      requires Buffers() && s < HISTORY_MAX && |line| < BUFFER_SIZE && Holds(historyBuffer, s, line)
      requires NUL !in line
      modifies inputBuffer, this`inputLen, this`inputPos
      ensures Buffers() && inputLen == inputPos == |line| && inputBuffer[..inputLen] == line
      ensures inputBuffer[inputLen] == NUL
    {
      ClearLine();
      var i := 0;
      inputBuffer[i] := historyBuffer[s, i];
      while inputBuffer[i] != NUL
        invariant 0 <= i <= |line|
        invariant forall j :: 0 <= j < i ==> inputBuffer[j] == line[j]
        invariant inputBuffer[i] == if i < |line| then line[i] else NUL
        decreases |line| - i
      {
        i := i + 1;
        inputBuffer[i] := historyBuffer[s, i];
      }
      inputLen := Strlen(|line|);
      inputPos := inputLen;
    }

    /** Stores the line in the ring; the slot it takes is the one of the line that can no longer be recalled. */
    method SaveLine()
      requires Buffers() && Ring() && inputLen > 0
      requires IsLine(inputBuffer[..inputLen]) && inputBuffer[inputLen] == NUL
      modifies this`submitted, this`historyCount, this`historyIndex, historyBuffer
      ensures Ring() && submitted == old(submitted) + [inputBuffer[..inputLen]] && historyIndex == |submitted|
    {
      ghost var line := inputBuffer[..inputLen];
      ghost var slot := historyCount % HISTORY_MAX;
      forall j | 0 <= j < inputLen ensures inputBuffer[j] != NUL {
        assert Printable(line[j]);
      }
      forall i | Oldest(submitted + [line]) <= i < |submitted| ensures i % HISTORY_MAX != slot {
        SlotsApart(i, historyCount);
      }
      CopyToSlot(historyCount % HISTORY_MAX);
      submitted := submitted + [line];
      historyCount := historyCount + 1;
      historyIndex := historyCount;
      forall i | Oldest(submitted) <= i < |submitted| ensures Holds(historyBuffer, i % HISTORY_MAX, submitted[i]) {
        if i < |submitted| - 1 {
          assert old(Holds(historyBuffer, i % HISTORY_MAX, submitted[i]));
        }
      }
    }

    method Enter()
      requires Valid()
      modifies this, inputBuffer, historyBuffer
      ensures Valid() && Now() == Submit(old(Now()))
    {
      ghost var before := Now();
      SubmitValid(before);
      hide Editor.Valid;
      hide Holds;
      while inputPos < inputLen
        invariant 0 <= inputPos <= inputLen
        modifies `inputPos
      {
        inputPos := inputPos + 1;
      }
      inputBuffer[inputLen] := NUL;
      assert inputBuffer[..inputLen] == before.text;
      if inputLen > 0 {
        SaveLine();
      }
      inputLen := 0;
      inputPos := 0;
      assert inputBuffer[..0] == [];
    }

    /** buf[i] = buf[i + 1] for i from from up to to - 1. */
    method ShiftLeft(from: int, to: int)
      requires inputBuffer.Length == BUFFER_SIZE && 0 <= from <= to < BUFFER_SIZE
      modifies inputBuffer
      ensures inputBuffer[..] == old(inputBuffer[..from] + inputBuffer[from + 1..to + 1] + inputBuffer[to..])
    {
      ghost var was := inputBuffer[..];
      var i := from;
      while i < to
        invariant from <= i <= to
        invariant inputBuffer[..] == was[..from] + was[from + 1..i + 1] + was[i..]
      {
        inputBuffer[i] := inputBuffer[i + 1];
        LeftOnce(was, from, i);
        i := i + 1;
      }
    }

    /** buf[i] = buf[i - 1] for i from to down to from + 1. */
    method ShiftRight(from: int, to: int)
      requires inputBuffer.Length == BUFFER_SIZE && 0 <= from <= to < BUFFER_SIZE
      modifies inputBuffer
      ensures inputBuffer[..] == old(inputBuffer[..from + 1] + inputBuffer[from..to] + inputBuffer[to + 1..])
    {
      ghost var was := inputBuffer[..];
      var i := to;
      while i > from
        invariant from <= i <= to
        invariant inputBuffer[..] == was[..i + 1] + was[i..to] + was[to + 1..]
      {
        inputBuffer[i] := inputBuffer[i - 1];
        RightOnce(was, i, to);
        i := i - 1;
      }
    }

    /** Takes out the character before the cursor. */
    method DeleteBefore()
      requires Buffers() && inputPos > 0
      modifies inputBuffer, this`inputLen, this`inputPos
      ensures Buffers() && inputLen == old(inputLen) - 1 && inputPos == old(inputPos) - 1
      ensures inputBuffer[..inputLen] ==
        old(inputBuffer[..inputLen])[..inputPos] + old(inputBuffer[..inputLen])[inputPos + 1..]
      ensures inputBuffer[inputLen] == old(inputBuffer[inputLen])
    {
      ghost var was := inputBuffer[..];
      ghost var line := inputBuffer[..inputLen];
      assert line == was[..inputLen];
      ShiftLeft(inputPos - 1, inputLen);
      inputPos := inputPos - 1;
      inputLen := inputLen - 1;
      Erased(was, inputBuffer[..], inputPos, inputLen);
      assert inputBuffer[..inputLen] == inputBuffer[..][..inputLen];
    }

    method Backspace()
      requires Valid()
      modifies this, inputBuffer
      ensures Valid() && Now() == Erase(old(Now()))
    {
      EraseValid(Now());
      hide Editor.Valid;
      hide IsLine;
      hide Holds;
      if inputPos > 0 {
        DeleteBefore();
      }
    }

    /** Puts a character in at the cursor. */
    method PutAtCursor(c: char)
      requires Buffers() && inputLen < BUFFER_SIZE - 1
      modifies inputBuffer, this`inputLen, this`inputPos
      ensures Buffers() && inputLen == old(inputLen) + 1 && inputPos == old(inputPos) + 1
      ensures inputBuffer[..inputLen] ==
        old(inputBuffer[..inputLen])[..inputPos - 1] + [c] + old(inputBuffer[..inputLen])[inputPos - 1..]
      ensures inputBuffer[inputLen] == NUL
    {
      ghost var was := inputBuffer[..];
      ghost var line := inputBuffer[..inputLen];
      assert line == was[..inputLen];
      ShiftRight(inputPos, inputLen);
      ghost var shifted := inputBuffer[..];
      inputBuffer[inputPos] := c;
      inputLen := inputLen + 1;
      inputPos := inputPos + 1;
      inputBuffer[inputLen] := NUL;
      assert inputBuffer[..] == shifted[inputPos - 1 := c][inputLen := NUL];
      Inserted(was, inputBuffer[..], inputPos - 1, inputLen - 1, c);
      assert inputBuffer[..inputLen] == inputBuffer[..][..inputLen];
    }

    method InsertChar(c: char)
      requires Valid() && Printable(c)
      modifies this, inputBuffer
      ensures Valid() && Now() == Insert(old(Now()), c)
    {
      InsertValid(Now(), c);
      hide Editor.Valid;
      hide IsLine;
      hide Holds;
      if inputLen < BUFFER_SIZE - 1 {
        PutAtCursor(c);
      }
    }

    method Recall(index: int)
      requires Valid() && Oldest(submitted) <= index < |submitted|
      modifies this`inputLen, this`inputPos, this`historyIndex, inputBuffer
      ensures Valid() && Now() == SetLine(old(Now()).(index := index), submitted[index])
    {
      historyIndex := index;
      assert Holds(historyBuffer, index % HISTORY_MAX, submitted[index]);
      forall j | 0 <= j < |submitted[index]| ensures submitted[index][j] != NUL {
        assert Printable(submitted[index][j]);
      }
      SetFromSlot(index % HISTORY_MAX, submitted[index]);
    }

    method DoUp()
      requires Valid()
      modifies this`inputLen, this`inputPos, this`historyIndex, inputBuffer
      ensures Valid() && Now() == Up(old(Now()))
    {
      var minIdx := if historyCount > HISTORY_MAX then historyCount - HISTORY_MAX else 0;
      if historyCount > 0 && historyIndex > minIdx {
        Recall(historyIndex - 1);
      }
    }

    method DoDown()
      requires Valid()
      modifies this`inputLen, this`inputPos, this`historyIndex, inputBuffer
      ensures Valid() && Now() == Down(old(Now()))
    {
      if historyIndex < historyCount {
        if historyIndex + 1 == historyCount {
          historyIndex := historyIndex + 1;
          ClearLine();
          assert inputBuffer[..0] == [];
        } else {
          Recall(historyIndex + 1);
        }
      }
    }

    /** shell_handle_key, without the terminal and without running the command. */
    method HandleKey(key: nat)
      requires Valid()
      modifies this, inputBuffer, historyBuffer
      ensures Valid() && Now() == Key(old(Now()), key)
    {
      if key == KEY_ENTER {
        Enter();
      } else if key == KEY_BACKSPACE {
        Backspace();
      } else if key == Keyboard.KEY_LEFT {
        if inputPos > 0 {
          inputPos := inputPos - 1;
        }
      } else if key == Keyboard.KEY_RIGHT {
        if inputPos < inputLen {
          inputPos := inputPos + 1;
        }
      } else if key == Keyboard.KEY_UP {
        DoUp();
      } else if key == Keyboard.KEY_DOWN {
        DoDown();
      } else if key >= 32 && key <= 126 && inputLen < BUFFER_SIZE - 1 {
        InsertChar(key as char);
      }
    }
  }
}
