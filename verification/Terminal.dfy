/** A terminal that interprets what the console sends: one line of cells, a cursor and the control
    sequences that move it. */
module Terminal {
  import opened Memory

  const ESC: byte := 0x1B
  const BS: byte := 0x08
  const LF: byte := 0x0A
  const FF: byte := 0x0C
  const SPACE: byte := 0x20

  /** Whether a control sequence is being received, and its number so far. */
  datatype Mode = Ground | Escape | Csi(n: nat)

  /** The cells written since the line was begun, all others being blank, and the cursor. */
  datatype Screen = Screen(line: seq<byte>, col: nat, mode: Mode)

  const BLANK := Screen([], 0, Ground)

  predicate Printable(b: byte) {
    0x20 <= b <= 0x7E
  }

  ghost predicate Text(s: seq<byte>) {
    forall k :: 0 <= k < |s| ==> Printable(s[k])
  }

  function Repeated(b: byte, n: nat): (s: seq<byte>)
    ensures |s| == n && forall k :: 0 <= k < n ==> s[k] == b
  {
    if n == 0 then [] else Repeated(b, n - 1) + [b]
  }

  function Write(t: Screen, b: byte): Screen {
    var line := if t.col < |t.line| then t.line[t.col := b] else t.line + Repeated(SPACE, t.col - |t.line|) + [b];
    Screen(line, t.col + 1, Ground)
  }

  function Feed(t: Screen, b: byte): Screen {
    match t.mode
    case Ground =>
      if Printable(b) then Write(t, b)
      else if b == ESC then t.(mode := Escape)
      else if b == BS then t.(col := if t.col > 0 then t.col - 1 else 0)
      else if b == LF || b == FF then BLANK
      else t
    case Escape => t.(mode := if b == '[' as int then Csi(0) else Ground)
    case Csi(n) =>
      var steps := if n == 0 then 1 else n;
      if '0' as int <= b <= '9' as int then t.(mode := Csi(10 * n + b - '0' as int))
      else if b == 'C' as int then Screen(t.line, t.col + steps, Ground)
      else if b == 'D' as int then Screen(t.line, if t.col > steps then t.col - steps else 0, Ground)
      else t.(mode := Ground)
  }

  function FeedAll(t: Screen, s: seq<byte>): Screen {
    if s == [] then t else Feed(FeedAll(t, s[..|s| - 1]), s[|s| - 1])
  }

  lemma FeedOne(t: Screen, s: seq<byte>, b: byte)
    ensures FeedAll(t, s + [b]) == Feed(FeedAll(t, s), b)
  {
    assert (s + [b])[..|s|] == s;
  }

  lemma {:induction false} FeedConcat(t: Screen, a: seq<byte>, b: seq<byte>)
    ensures FeedAll(t, a + b) == FeedAll(FeedAll(t, a), b)
  {
    if b == [] {
      assert a + b == a;
    } else {
      var k := |b| - 1;
      FeedConcat(t, a, b[..k]);
      assert a + b == (a + b[..k]) + [b[k]];
      FeedOne(t, a + b[..k], b[k]);
    }
  }

  // -------- what text and control sequences do

  /** The screen after text has been written from the cursor on. */
  function Overwritten(t: Screen, s: seq<byte>): Screen
    requires t.col <= |t.line|
  {
    var tail := if t.col + |s| <= |t.line| then t.line[t.col + |s|..] else [];
    Screen(t.line[..t.col] + s + tail, t.col + |s|, t.mode)
  }

  function Back(t: Screen, n: nat): Screen
    requires n <= t.col
  {
    t.(col := t.col - n)
  }

  lemma {:induction false} FeedText(t: Screen, s: seq<byte>)
    requires t.mode == Ground && t.col <= |t.line| && Text(s)
    ensures FeedAll(t, s) == Overwritten(t, s)
  {
    if s != [] {
      var k := |s| - 1;
      FeedText(t, s[..k]);
      var u := Overwritten(t, s[..k]);
      assert Write(u, s[k]).line == Overwritten(t, s).line;
    } else {
      assert t.line[..t.col] + s + t.line[t.col..] == t.line;
    }
  }

  lemma {:induction false} FeedBacks(t: Screen, n: nat)
    requires t.mode == Ground && n <= t.col
    ensures FeedAll(t, Repeated(BS, n)) == Back(t, n)
  {
    if n > 0 {
      FeedBacks(t, n - 1);
      FeedOne(t, Repeated(BS, n - 1), BS);
    }
  }

  /** A number as `%d` prints it. */
  function Digits(n: nat): seq<byte> {
    if n < 10 then ['0' as int + n] else Digits(n / 10) + ['0' as int + n % 10]
  }

  function Control(n: nat, final: byte): seq<byte> {
    [ESC, '[' as int] + Digits(n) + [final]
  }

  lemma {:induction false} FeedDigits(t: Screen, n: nat)
    requires t.mode == Csi(0)
    ensures FeedAll(t, Digits(n)) == t.(mode := Csi(n))
  {
    if n < 10 {
      FeedOne(t, [], '0' as int + n);
      assert [] + ['0' as int + n] == Digits(n);
    } else {
      FeedDigits(t, n / 10);
      FeedOne(t, Digits(n / 10), '0' as int + n % 10);
    }
  }

  /** The sequences that the console sends move the cursor by as many columns as they say. */
  lemma FeedControl(t: Screen, n: nat, final: byte)
    requires t.mode == Ground && n > 0
    ensures FeedAll(t, Control(n, final)) == Feed(t.(mode := Csi(n)), final)
  {
    FeedOne(t, [], ESC);
    FeedOne(t, [ESC], '[' as int);
    assert [] + [ESC] == [ESC] && [ESC] + ['[' as int] == [ESC, '[' as int];
    var u := FeedAll(t, [ESC, '[' as int]);
    FeedDigits(u, n);
    FeedConcat(t, [ESC, '[' as int], Digits(n));
    FeedOne(t, [ESC, '[' as int] + Digits(n), final);
  }

  /** The cursor moves to the right without an end and to the left up to the first column. */
  lemma ControlMoves(t: Screen, n: nat)
    requires t.mode == Ground && n > 0
    ensures FeedAll(t, Control(n, 0x43)) == t.(col := t.col + n)
    ensures FeedAll(t, Control(n, 0x44)) == t.(col := if t.col >= n then t.col - n else 0)
  {
    FeedControl(t, n, 0x43);
    FeedControl(t, n, 0x44);
  }

  lemma ControlBytes(n: nat, tens: nat, ones: nat, final: byte)
    requires n == 10 * tens + ones && 0 < tens < 10 && ones < 10
    ensures Control(ones, final) == [0x1B, 0x5B, 0x30 + ones, final]
    ensures Control(n, final) == [0x1B, 0x5B, 0x30 + tens, 0x30 + ones, final]
  {
    assert n / 10 == tens && n % 10 == ones;
    assert Digits(n) == Digits(tens) + [0x30 + ones];
  }

  /** What single bytes do. */
  lemma ByteShows(t: Screen, b: byte)
    requires t.mode == Ground && t.col <= |t.line|
    ensures 0x20 <= b <= 0x7E ==>
              FeedAll(t, [b]) == Screen(t.line[..t.col] + [b] + (if t.col < |t.line| then t.line[t.col + 1..] else []),
                                        t.col + 1, Ground)
    ensures b == 0x08 ==> FeedAll(t, [b]) == t.(col := if t.col > 0 then t.col - 1 else 0)
    ensures b == 0x0A || b == 0x0C ==> FeedAll(t, [b]) == Screen([], 0, Ground)
    ensures (b < 0x20 && b !in {0x08, 0x0A, 0x0C, 0x1B}) || b >= 0x7F ==> FeedAll(t, [b]) == t
  {
    assert [b] == [] + [b];
    FeedOne(t, [], b);
    if 0x20 <= b <= 0x7E {
      FeedText(t, [b]);
    }
  }

  // -------- what the line editor is to show

  const PROMPT: seq<byte> := ['>' as int, SPACE]

  /** The prompt and the line, blanks behind it, and the cursor behind `left`. */
  ghost predicate Shows(t: Screen, left: seq<byte>, right: seq<byte>) {
    && t.mode == Ground && t.col == |PROMPT + left| && PROMPT + left + right <= t.line
    && forall k :: |PROMPT + left + right| <= k < |t.line| ==> t.line[k] == SPACE
  }

  /** Cell by cell: the prompt, the line, and blanks where there was more before. */
  lemma ShowsIs(t: Screen, left: seq<byte>, right: seq<byte>)
    ensures Shows(t, left, right) <==>
            && t.mode == Ground && t.col == 2 + |left| && 2 + |left| + |right| <= |t.line|
            && t.line[0] == 0x3E && t.line[1] == 0x20
            && t.line[2..2 + |left| + |right|] == left + right
            && forall k :: 2 + |left| + |right| <= k < |t.line| ==> t.line[k] == 0x20
  {
    var shown := PROMPT + left + right;
    assert shown == [0x3E, 0x20] + (left + right);
    if |shown| <= |t.line| {
      assert t.line[..|shown|] == t.line[..2] + t.line[2..|shown|];
    }
  }

  lemma ShowsPrompt(t: Screen)
    requires t == BLANK
    ensures Shows(Overwritten(t, PROMPT), [], []) && Overwritten(t, PROMPT).line == [0x3E, 0x20]
  {
  }

  /** The prompt and a whole line printed on an empty screen, and the cursor moved back into it. */
  lemma ShowsPrinted(t: Screen, left: seq<byte>, right: seq<byte>)
    requires t == BLANK
    ensures Shows(Back(Overwritten(Overwritten(t, PROMPT), left + right), |right|), left, right)
    ensures Overwritten(Overwritten(t, PROMPT), left + right).line == [0x3E, 0x20] + left + right
  {
    assert PROMPT + (left + right) == PROMPT + left + right;
  }

  lemma ShowsMoved(t: Screen, left: seq<byte>, right: seq<byte>, left': seq<byte>, right': seq<byte>)
    requires Shows(t, left, right) && left + right == left' + right'
    ensures Shows(t.(col := |PROMPT + left'|), left', right')
  {
    assert PROMPT + left + right == PROMPT + (left + right);
    assert PROMPT + left' + right' == PROMPT + (left' + right');
  }

  lemma ShowsInserted(t: Screen, left: seq<byte>, right: seq<byte>, c: byte)
    requires Shows(t, left, right)
    ensures Shows(Back(Overwritten(Overwritten(t, [c]), right), |right|), left + [c], right)
  {
    assert t.line[..t.col] == PROMPT + left;
  }

  lemma ShowsDeleted(t: Screen, left: seq<byte>, right: seq<byte>)
    requires Shows(t, left, right) && left != []
    ensures var u := Overwritten(Overwritten(Back(t, 1), right), [SPACE]);
            Shows(Back(u, |right| + 1), left[..|left| - 1], right)
  {
    var kept := PROMPT + left[..|left| - 1];
    assert t.line[..t.col - 1] == kept;
    var v := Overwritten(Back(t, 1), right);
    assert v.line[..v.col] == kept + right;
    assert Overwritten(v, [SPACE]).line[..v.col] == kept + right;
  }

  lemma ShowsKilled(t: Screen, left: seq<byte>, right: seq<byte>, n: nat)
    requires Shows(t, left, right) && n == |right|
    ensures Shows(Back(Overwritten(t, Repeated(SPACE, n)), n), left, [])
  {
    assert t.line[..t.col] == PROMPT + left;
  }

  /** Writing a line over another one from its start on. */
  lemma ShowsLoaded(t: Screen, left: seq<byte>, right: seq<byte>, line: seq<byte>)
    requires Shows(t, left, right)
    ensures t.col >= |left|
    ensures var u := Overwritten(Back(t, |left|), line);
            var n := |left| + |right| - |line|;
            if n > 0 then Shows(Back(Overwritten(u, Repeated(SPACE, n)), n), line, []) else Shows(u, line, [])
  {
    assert Back(t, |left|).col == |PROMPT|;
    assert t.line[..|PROMPT|] == PROMPT;
  }
}
