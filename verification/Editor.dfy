/**
 The shell's line editor: what a key does to the text, the cursor and the history position. Lines
 submitted are numbered from 0; only the last 32 can be recalled.
 */
module Editor {
  import Keyboard

  const BUFFER_SIZE := 256
  const HISTORY_MAX := 32

  const KEY_ENTER := 0x0A
  const KEY_BACKSPACE := 0x08

  /** The edited line and the non-empty lines submitted so far; index is the history position. */
  datatype Edit = Edit(text: string, cursor: nat, submitted: seq<string>, index: int)

  predicate Printable(c: char) {
    32 <= c as int <= 126
  }

  ghost predicate IsLine(s: string) {
    |s| < BUFFER_SIZE && forall i :: 0 <= i < |s| ==> Printable(s[i])
  }

  /** The oldest line still in the history. */
  function Oldest(submitted: seq<string>): nat {
    if |submitted| > HISTORY_MAX then |submitted| - HISTORY_MAX else 0
  }

  ghost predicate Valid(e: Edit) {
    && IsLine(e.text) && e.cursor <= |e.text|
    && (forall i :: 0 <= i < |e.submitted| ==> |e.submitted[i]| > 0 && IsLine(e.submitted[i]))
    && ((e.index == -1 && e.submitted == []) || Oldest(e.submitted) <= e.index <= |e.submitted|)
  }

  function Start(): Edit {
    Edit("", 0, [], -1)
  }

  function SetLine(e: Edit, text: string): Edit {
    e.(text := text, cursor := |text|)
  }

  function Submit(e: Edit): Edit {
    if e.text == "" then e.(cursor := 0)
    else Edit("", 0, e.submitted + [e.text], |e.submitted| + 1)
  }

  function Erase(e: Edit): Edit
    requires e.cursor <= |e.text|
  {
    if e.cursor == 0 then e
    else e.(text := e.text[..e.cursor - 1] + e.text[e.cursor..], cursor := e.cursor - 1)
  }

  function Up(e: Edit): Edit
    requires e.index <= |e.submitted|
  {
    if |e.submitted| > 0 && e.index > Oldest(e.submitted)
    then SetLine(e.(index := e.index - 1), e.submitted[e.index - 1])
    else e
  }

  /** Below the newest line is the empty line; from the initial position, too. */
  function Down(e: Edit): Edit
    requires -1 <= e.index
  {
    if e.index >= |e.submitted| then e
    else if e.index + 1 == |e.submitted| then SetLine(e.(index := e.index + 1), "")
    else SetLine(e.(index := e.index + 1), e.submitted[e.index + 1])
  }

  function Insert(e: Edit, c: char): Edit
    requires e.cursor <= |e.text|
  {
    if |e.text| < BUFFER_SIZE - 1
    then e.(text := e.text[..e.cursor] + [c] + e.text[e.cursor..], cursor := e.cursor + 1)
    else e
  }

  function Key(e: Edit, key: nat): Edit
    requires Valid(e)
  {
    if key == KEY_ENTER then Submit(e)
    else if key == KEY_BACKSPACE then Erase(e)
    else if key == Keyboard.KEY_LEFT then (if e.cursor > 0 then e.(cursor := e.cursor - 1) else e)
    else if key == Keyboard.KEY_RIGHT then (if e.cursor < |e.text| then e.(cursor := e.cursor + 1) else e)
    else if key == Keyboard.KEY_UP then Up(e)
    else if key == Keyboard.KEY_DOWN then Down(e)
    else if 32 <= key <= 126 then Insert(e, key as char)
    else e
  }

  lemma LineParts(a: string, b: string)
    requires IsLine(a) && IsLine(b) && |a| + |b| < BUFFER_SIZE
    ensures IsLine(a + b)
  {
  }

  lemma PartOfLine(s: string, i: nat, j: nat)
    requires IsLine(s) && i <= j <= |s|
    ensures IsLine(s[i..j])
  {
  }

  lemma InsertValid(e: Edit, c: char)
    requires Valid(e) && Printable(c)
    ensures Valid(Insert(e, c))
  {
    if |e.text| < BUFFER_SIZE - 1 {
      PartOfLine(e.text, 0, e.cursor);
      PartOfLine(e.text, e.cursor, |e.text|);
      assert e.text[..e.cursor] == e.text[0..e.cursor];
      assert e.text[e.cursor..] == e.text[e.cursor..|e.text|];
      assert IsLine([c]);
      hide IsLine;
      LineParts(e.text[..e.cursor], [c]);
      LineParts(e.text[..e.cursor] + [c], e.text[e.cursor..]);
    }
  }

  lemma EraseValid(e: Edit)
    requires Valid(e)
    ensures Valid(Erase(e))
  {
    if e.cursor > 0 {
      PartOfLine(e.text, 0, e.cursor - 1);
      PartOfLine(e.text, e.cursor, |e.text|);
      assert e.text[..e.cursor - 1] == e.text[0..e.cursor - 1];
      assert e.text[e.cursor..] == e.text[e.cursor..|e.text|];
      LineParts(e.text[..e.cursor - 1], e.text[e.cursor..]);
      hide IsLine;
    }
  }

  lemma SubmitValid(e: Edit)
    requires Valid(e)
    ensures Valid(Submit(e))
  {
    assert IsLine("");
    hide IsLine;
  }

  lemma RecallValid(e: Edit)
    requires Valid(e)
    ensures Valid(Up(e)) && Valid(Down(e))
  {
    assert IsLine("");
    hide IsLine;
  }

  lemma MoveValid(e: Edit, cursor: nat)
    requires Valid(e) && cursor <= |e.text|
    ensures Valid(e.(cursor := cursor))
  {
    hide IsLine;
  }

  lemma KeyValid(e: Edit, key: nat)
    requires Valid(e)
    ensures Valid(Key(e, key))
  {
    hide IsLine;
    if key == KEY_ENTER {
      SubmitValid(e);
    } else if key == KEY_BACKSPACE {
      EraseValid(e);
    } else if key == Keyboard.KEY_LEFT || key == Keyboard.KEY_RIGHT {
      if e.cursor > 0 { MoveValid(e, e.cursor - 1); }
      if e.cursor < |e.text| { MoveValid(e, e.cursor + 1); }
    } else if key == Keyboard.KEY_UP || key == Keyboard.KEY_DOWN {
      RecallValid(e);
    } else if 32 <= key <= 126 {
      InsertValid(e, key as char);
    }
  }

  ghost function Keys(e: Edit, keys: seq<nat>): (r: Edit)
    requires Valid(e)
    ensures Valid(r)
  {
    if keys == [] then e
    else
      var front := Keys(e, keys[..|keys| - 1]);
      KeyValid(front, keys[|keys| - 1]);
      Key(front, keys[|keys| - 1])
  }

  /** Submitted lines are never changed or dropped, and recall shows one of the last 32 or nothing. */
  lemma KeyHistory(e: Edit, key: nat)
    requires Valid(e)
    ensures e.submitted <= Key(e, key).submitted
    ensures key == KEY_ENTER && e.text != "" ==> Key(e, key).submitted == e.submitted + [e.text]
    ensures key != KEY_ENTER || e.text == "" ==> Key(e, key).submitted == e.submitted
    ensures key == Keyboard.KEY_UP || key == Keyboard.KEY_DOWN ==>
      || Key(e, key) == e
      || Key(e, key).text == ""
      || exists i :: Oldest(e.submitted) <= i < |e.submitted| && Key(e, key).text == e.submitted[i]
  {
  }

  /** Typing a printable character and erasing it restores line and cursor, if there was room for it. */
  lemma EraseUndoesInsert(e: Edit, c: char)
    requires Valid(e) && Printable(c)
    ensures Erase(Insert(e, c)) == e <==> |e.text| < BUFFER_SIZE - 1 || e.cursor == 0
  {
    if |e.text| < BUFFER_SIZE - 1 {
      var t := Insert(e, c).text;
      assert t[..e.cursor] == e.text[..e.cursor] && t[e.cursor + 1..] == e.text[e.cursor..];
      assert e.text[..e.cursor] + e.text[e.cursor..] == e.text;
    }
  }

  /** Up then Down returns to where the history was, showing the line of that position. */
  lemma DownUndoesUp(e: Edit)
    requires Valid(e) && Oldest(e.submitted) < e.index
    ensures Down(Up(e)) == SetLine(e, if e.index < |e.submitted| then e.submitted[e.index] else "")
  {
  }

  // ---------- Whole key sequences ----------

  lemma KeysSnoc(e: Edit, keys: seq<nat>, key: nat)
    requires Valid(e)
    ensures Keys(e, keys + [key]) == Key(Keys(e, keys), key)
  {
    assert (keys + [key])[..|keys|] == keys;
  }

  /** The line, cursor and history depend on nothing but the keys: a run can be cut anywhere. */
  lemma {:induction false} KeysConcat(e: Edit, a: seq<nat>, b: seq<nat>)
    requires Valid(e)
    ensures Keys(e, a + b) == Keys(Keys(e, a), b)
  {
    if b == [] {
      assert a + b == a;
    } else {
      var front := b[..|b| - 1];
      assert a + b == (a + front) + [b[|b| - 1]];
      KeysSnoc(e, a + front, b[|b| - 1]);
      KeysConcat(e, a, front);
    }
  }

  /** No key sequence changes or drops a submitted line. */
  lemma {:induction false} HistoryGrows(e: Edit, keys: seq<nat>)
    requires Valid(e)
    ensures e.submitted <= Keys(e, keys).submitted
  {
    if keys != [] {
      var front := keys[..|keys| - 1];
      HistoryGrows(e, front);
      KeyHistory(Keys(e, front), keys[|keys| - 1]);
    }
  }

  function Typed(s: string): (keys: seq<nat>)
    ensures |keys| == |s|
  {
    seq(|s|, i requires 0 <= i < |s| => s[i] as int)
  }

  lemma PrintableKey(e: Edit, c: char)
    requires Valid(e) && Printable(c)
    ensures Key(e, c as int) == Insert(e, c)
  {
  }

  lemma Between(a: string, m: string, b: string, c: char)
    ensures (a + m + b)[..|a| + |m|] + [c] + (a + m + b)[|a| + |m|..] == a + (m + [c]) + b
  {
  }

  /** The editor with s put in at the cursor. */
  function WithText(e: Edit, s: string): Edit
    requires e.cursor <= |e.text|
  {
    e.(text := e.text[..e.cursor] + s + e.text[e.cursor..], cursor := e.cursor + |s|)
  }

  lemma OneMore(e: Edit, s: string, c: char)
    requires e.cursor <= |e.text| && |e.text| + |s| + 1 < BUFFER_SIZE
    ensures Insert(WithText(e, s), c) == WithText(e, s + [c])
  {
    Between(e.text[..e.cursor], s, e.text[e.cursor..], c);
  }

  lemma TypeOneMore(e: Edit, s: string, c: char)
    requires Valid(e) && Printable(c) && e.cursor <= |e.text| && |e.text| + |s| + 1 < BUFFER_SIZE
    requires Keys(e, Typed(s)) == WithText(e, s)
    ensures Keys(e, Typed(s + [c])) == WithText(e, s + [c])
  {
    hide Keys;
    hide Key;
    hide Valid;
    assert Typed(s + [c]) == Typed(s) + [c as int];
    KeysSnoc(e, Typed(s), c as int);
    PrintableKey(WithText(e, s), c);
    OneMore(e, s, c);
  }

  lemma TypingNothing(e: Edit)
    requires Valid(e)
    ensures Keys(e, Typed("")) == e && e.text[..e.cursor] + "" + e.text[e.cursor..] == e.text
  {
    hide IsLine;
  }

  /** Typing a text puts it at the cursor, between what was there, as long as the line has room. */
  lemma {:induction false} TypingInserts(e: Edit, s: string)
    requires Valid(e) && |e.text| + |s| < BUFFER_SIZE
    requires forall i :: 0 <= i < |s| ==> Printable(s[i])
    ensures Keys(e, Typed(s)) ==
      e.(text := e.text[..e.cursor] + s + e.text[e.cursor..], cursor := e.cursor + |s|)
  {
    hide IsLine;
    if s == "" {
      TypingNothing(e);
    } else {
      hide Keys;
      hide Typed;
      var front, c := s[..|s| - 1], s[|s| - 1];
      TypingInserts(e, front);
      TypeOneMore(e, front, c);
      assert front + [c] == s;
    }
  }

  function Repeat(key: nat, n: nat): (keys: seq<nat>)
    ensures |keys| == n
  {
    seq(n, _ => key)
  }

  /** The editor when history position i has been recalled. */
  function Recalled(e: Edit, i: nat): Edit
    requires i < |e.submitted| || i == e.index
  {
    if i == e.index then e else SetLine(e.(index := i), e.submitted[i])
  }

  lemma UpOnce(e: Edit, i: nat)
    requires Valid(e) && Oldest(e.submitted) <= i <= e.index <= |e.submitted|
    ensures Valid(Recalled(e, i))
    ensures Key(Recalled(e, i), Keyboard.KEY_UP) == Recalled(e, if i > Oldest(e.submitted) then i - 1 else i)
  {
    hide IsLine;
  }

  /** The position n steps further back, or the oldest one. */
  function Back(e: Edit, n: nat): (i: nat)
    requires Oldest(e.submitted) <= e.index
    ensures Oldest(e.submitted) <= i <= e.index
  {
    if n <= e.index - Oldest(e.submitted) then e.index - n else Oldest(e.submitted)
  }

  lemma Positioned(e: Edit)
    requires Valid(e) && e.index >= 0
    ensures Oldest(e.submitted) <= e.index <= |e.submitted|
    ensures e.index > Oldest(e.submitted) ==> |e.submitted| > 0
  {
    hide IsLine;
  }

  lemma UpAgain(e: Edit, n: nat)
    requires Valid(e) && Oldest(e.submitted) <= e.index <= |e.submitted|
    requires Keys(e, Repeat(Keyboard.KEY_UP, n)) == Recalled(e, Back(e, n))
    ensures Keys(e, Repeat(Keyboard.KEY_UP, n + 1)) == Recalled(e, Back(e, n + 1))
  {
    hide Keys;
    hide Key;
    hide Valid;
    hide Recalled;
    assert Repeat(Keyboard.KEY_UP, n + 1) == Repeat(Keyboard.KEY_UP, n) + [Keyboard.KEY_UP];
    KeysSnoc(e, Repeat(Keyboard.KEY_UP, n), Keyboard.KEY_UP);
    UpOnce(e, Back(e, n));
  }

  /** n times Up shows the n-th line back, down to the oldest one kept, and never an older one. */
  lemma {:induction false} UpWalks(e: Edit, n: nat)
    requires Valid(e) && e.index >= 0
    ensures Oldest(e.submitted) <= e.index <= |e.submitted|
    ensures Keys(e, Repeat(Keyboard.KEY_UP, n)) == Recalled(e, Back(e, n))
  {
    hide Valid;
    Positioned(e);
    if n > 0 {
      UpWalks(e, n - 1);
      UpAgain(e, n - 1);
    }
  }

  /** Down does nothing exactly at the bottom of the history. */
  lemma DownRestsIff(e: Edit)
    requires Valid(e)
    ensures Down(e) == e <==> e.index == |e.submitted|
  {
  }

  lemma TypingAtStart(s: string)
    requires |s| < BUFFER_SIZE && forall i :: 0 <= i < |s| ==> Printable(s[i])
    ensures Keys(Start(), Typed(s)) == Edit(s, |s|, [], -1)
  {
    TypingInserts(Start(), s);
    hide Keys;
    hide Valid;
    hide Typed;
    assert ""[..0] + s + ""[0..] == s;
  }

  /** At the start the history position is above the bottom, so Down clears whatever has been typed. */
  lemma FirstDownClears(s: string)
    requires |s| < BUFFER_SIZE && forall i :: 0 <= i < |s| ==> Printable(s[i])
    ensures Keys(Start(), Typed(s) + [Keyboard.KEY_DOWN]) == Edit("", 0, [], 0)
  {
    TypingAtStart(s);
    hide Typed;
    KeysSnoc(Start(), Typed(s), Keyboard.KEY_DOWN);
    hide Keys;
  }

  // ---------- The keys, on what stands before and behind the cursor ----------

  datatype Line = Line(before: string, after: string)

  function Shown(e: Edit): Line
    requires e.cursor <= |e.text|
  {
    Line(e.text[..e.cursor], e.text[e.cursor..])
  }

  /** Backspace, Left, Right and the characters from 32 to 126; a line holds 255 characters. */
  function Pressed(l: Line, key: nat): Line {
    if key == 8 && l.before != "" then Line(l.before[..|l.before| - 1], l.after)
    else if key == 0x102 && l.before != "" then
      Line(l.before[..|l.before| - 1], [l.before[|l.before| - 1]] + l.after)
    else if key == 0x103 && l.after != "" then Line(l.before + [l.after[0]], l.after[1..])
    else if 32 <= key <= 126 && |l.before| + |l.after| < 255 then Line(l.before + [key as char], l.after)
    else l
  }

  lemma Halves(e: Edit, c: nat)
    requires e.cursor <= |e.text| && c <= |e.text|
    ensures c + 1 == e.cursor ==> e.text[..c] == e.text[..e.cursor][..c]
    ensures c + 1 == e.cursor ==> e.text[c..] == [e.text[..e.cursor][c]] + e.text[e.cursor..]
    ensures c == e.cursor + 1 ==> e.text[..c] == e.text[..e.cursor] + [e.text[e.cursor..][0]]
    ensures c == e.cursor + 1 ==> e.text[c..] == e.text[e.cursor..][1..]
  {
  }

  lemma EraseOnLine(e: Edit)
    requires Valid(e)
    ensures Valid(Erase(e)) && Shown(Erase(e)) == Pressed(Shown(e), 8)
  {
    EraseValid(e);
    if e.cursor > 0 {
      Halves(e, e.cursor - 1);
      var x, y := e.text[..e.cursor - 1], e.text[e.cursor..];
      assert (x + y)[..|x|] == x && (x + y)[|x|..] == y;
    }
  }

  lemma InsertOnLine(e: Edit, c: char)
    requires Valid(e) && Printable(c)
    ensures Valid(Insert(e, c)) && Shown(Insert(e, c)) == Pressed(Shown(e), c as int)
  {
    InsertValid(e, c);
    if |e.text| < 255 {
      var x, y := e.text[..e.cursor] + [c], e.text[e.cursor..];
      assert (x + y)[..|x|] == x && (x + y)[|x|..] == y;
    }
  }

  lemma MoveOnLine(e: Edit, key: nat)
    requires Valid(e) && (key == 0x102 || key == 0x103)
    ensures Valid(Key(e, key)) && Shown(Key(e, key)) == Pressed(Shown(e), key)
  {
    KeyValid(e, key);
    if e.cursor > 0 { Halves(e, e.cursor - 1); }
    if e.cursor < |e.text| { Halves(e, e.cursor + 1); }
    hide IsLine;
  }

  /**
   Every key but Enter, Up and Down works on the two halves of the line, and leaves the history alone;
   keys without a meaning change nothing.
   */
  lemma KeyOnLine(e: Edit, key: nat)
    requires Valid(e) && key != 10 && key != 0x100 && key != 0x101
    ensures Valid(Key(e, key))
    ensures Shown(Key(e, key)) == Pressed(Shown(e), key)
    ensures Key(e, key).submitted == e.submitted && Key(e, key).index == e.index
  {
    if key == 8 {
      EraseOnLine(e);
    } else if key == 0x102 || key == 0x103 {
      MoveOnLine(e, key);
    } else if 32 <= key <= 126 {
      InsertOnLine(e, key as char);
    }
    hide Valid;
    hide Shown;
    hide Pressed;
  }

  /** Enter keeps a line that is not empty, and in any case the line is empty afterwards. */
  lemma EnterMeans(e: Edit)
    requires Valid(e)
    ensures Key(e, 10).text == "" && Key(e, 10).cursor == 0
    ensures if e.text == "" then Key(e, 10).submitted == e.submitted && Key(e, 10).index == e.index
            else Key(e, 10).submitted == e.submitted + [e.text]
  {
  }

  /** After Enter the history starts anew: n times Up shows the n-th line back, the line just entered first. */
  lemma EnterRecalls(e: Edit, n: nat)
    requires Valid(e) && e.text != ""
    ensures var lines, r := e.submitted + [e.text], Keys(Key(e, 10), Repeat(0x100, n));
      && r.submitted == lines
      && (n == 0 ==> r.text == "")
      && (0 < n <= 32 && n <= |lines| ==> r.text == lines[|lines| - n])
      && (n >= 32 && |lines| >= 32 ==> r.text == lines[|lines| - 32])
      && (n >= |lines| && |lines| <= 32 ==> r.text == lines[0])
      && r.cursor == |r.text|
  {
    KeyValid(e, 10);
    UpWalks(Key(e, 10), n);
    hide Keys;
    hide IsLine;
  }

  /** Down shows the next newer line, the empty line behind the newest one, and rests there. */
  lemma DownMeans(e: Edit)
    requires Valid(e)
    ensures var r := Key(e, 0x101);
      && r.submitted == e.submitted
      && if e.index == |e.submitted| then r == e
         else
           && r.index == e.index + 1 && r.cursor == |r.text|
           && r.text == if e.index + 1 < |e.submitted| then e.submitted[e.index + 1] else ""
  {
  }

  /** Up shows the next older line, of the last 32, and rests at the oldest of them. */
  lemma UpMeans(e: Edit)
    requires Valid(e)
    ensures var r := Key(e, 0x100);
      && r.submitted == e.submitted
      && if e.index <= 0 || e.index + 32 <= |e.submitted| then r == e
         else
           0 < e.index <= |e.submitted| && r.index == e.index - 1
           && r.text == e.submitted[e.index - 1] && r.cursor == |r.text|
  {
    hide IsLine;
  }
}
