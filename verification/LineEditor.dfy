/** What the keys of the console do to the line, the cursor and the history (common/console.c:384-653),
    on values. */
module LineEditor {
  import opened Memory
  import opened Terminal
  import Ring

  /** How far an escape sequence has been received. */
  datatype Sequence = Outside | Start | BadSequence | Bracket | Bracket1 | Bracket3 | Bracket4 | LetterO

  const KEY_UP := 0x100
  const KEY_DOWN := 0x101
  const KEY_RIGHT := 0x102
  const KEY_LEFT := 0x103
  const KEY_END := 0x104
  const KEY_HOME := 0x105
  const KEY_DEL := 0x106
  const EATEN := -1

  const CTRL_A := 0x01
  const CTRL_B := 0x02
  const CTRL_C := 0x03
  const CTRL_E := 0x05
  const CTRL_F := 0x06
  const CTRL_K := 0x0B
  const CTRL_L := 0x0C
  const CTRL_N := 0x0E
  const CTRL_P := 0x10
  const CR := 0x0D
  const RUBOUT := 0x7F

  /** The line left and right of the cursor, the history slots, the slot that is saved next and the
      one that is shown, and the state of the input. */
  datatype Editor = Editor(left: seq<byte>, right: seq<byte>, history: seq<seq<byte>>, next: nat, pos: nat,
                           lastWasCr: bool, escape: Sequence)

  function Line(e: Editor): seq<byte> {
    e.left + e.right
  }

  /** Lines fit into a buffer of `size` bytes with a terminator, and can be shown. */
  ghost predicate Fits(line: seq<byte>, size: nat) {
    |line| < size && Text(line)
  }

  ghost predicate WellFormed(e: Editor, size: nat) {
    && Text(e.left) && Text(e.right) && |e.left| + |e.right| < size && e.next < |e.history| && e.pos < |e.history|
    && forall k :: 0 <= k < |e.history| ==> Fits(e.history[k], size)
  }

  function Backspace(e: Editor): Editor {
    if e.left == [] then e else e.(left := e.left[..|e.left| - 1])
  }

  function MoveRight(e: Editor): Editor {
    if e.right == [] then e else e.(left := e.left + [e.right[0]], right := e.right[1..])
  }

  function MoveLeft(e: Editor): Editor {
    if e.left == [] then e
    else e.(left := e.left[..|e.left| - 1], right := [e.left[|e.left| - 1]] + e.right)
  }

  function Delete(e: Editor): Editor {
    if e.right == [] then e else Backspace(MoveRight(e))
  }

  function Insert(e: Editor, size: nat, c: byte): Editor {
    if |e.left| + |e.right| >= size - 1 then e else e.(left := e.left + [c])
  }

  /** A line that is not empty goes into the history. */
  function Enter(e: Editor): Editor
    requires e.next < |e.history|
  {
    var e' := e.(left := [], right := []);
    if Line(e) == [] then e'
    else
      var next := (e.next + 1) % |e.history|;
      e'.(history := e.history[e.next := Line(e)], next := next, pos := next)
  }

  /** Leaving the line that is being edited saves it in the next slot. */
  function SaveEdited(e: Editor): Editor
    requires e.next < |e.history|
  {
    if e.pos == e.next then e.(history := e.history[e.next := Line(e)]) else e
  }

  function Load(e: Editor, pos: nat): Editor
    requires pos < |e.history|
  {
    e.(left := e.history[pos], right := [], pos := pos)
  }

  function Previous(e: Editor): Editor
    requires e.next < |e.history| && e.pos < |e.history|
  {
    Load(SaveEdited(e), if e.pos == 0 then |e.history| - 1 else e.pos - 1)
  }

  function Following(e: Editor): Editor
    requires e.next < |e.history| && e.pos < |e.history|
  {
    Load(SaveEdited(e), if e.pos + 1 >= |e.history| then 0 else e.pos + 1)
  }

  function CursorKey(e: Editor, key: int): Editor {
    if key == CTRL_A || key == KEY_HOME then e.(left := [], right := Line(e))
    else if key == CTRL_B || key == KEY_LEFT then MoveLeft(e)
    else if key == CTRL_E || key == KEY_END then e.(left := Line(e), right := [])
    else if key == CTRL_F || key == KEY_RIGHT then MoveRight(e)
    else e
  }

  function EditKey(e: Editor, size: nat, key: int): Editor {
    if key == KEY_DEL then Delete(e)
    else if key == BS as int || key == RUBOUT then Backspace(e)
    else if key == CTRL_C then e.(left := [], right := [])
    else if key == CTRL_K then e.(right := [])
    else if 0x20 <= key <= 0x7E then Insert(e, size, key)
    else CursorKey(e, key)
  }

  function Key(e: Editor, size: nat, key: int): Editor
    requires e.next < |e.history| && e.pos < |e.history|
  {
    if key == LF as int then Enter(e)
    else if key == CTRL_P || key == KEY_UP then Previous(e)
    else if key == CTRL_N || key == KEY_DOWN then Following(e)
    else EditKey(e, size, key)
  }

  predicate Letter(c: int) {
    'A' as int <= c <= 'Z' as int || 'a' as int <= c <= 'z' as int
  }

  function EscapeEnd(c: int): Sequence {
    if Letter(c) || c == '~' as int then Outside else BadSequence
  }

  /** The next state of an escape sequence, and the key that it stands for. */
  function HandleEscape(s: Sequence, c: int): (Sequence, int) {
    match s
    case Start =>
      if c == '[' as int then (Bracket, EATEN) else if c == 'O' as int then (LetterO, EATEN) else (EscapeEnd(c), EATEN)
    case Bracket =>
      if c == '1' as int then (Bracket1, EATEN)
      else if c == '3' as int then (Bracket3, EATEN)
      else if c == '4' as int then (Bracket4, EATEN)
      else if c == 'A' as int then (Outside, KEY_UP)
      else if c == 'B' as int then (Outside, KEY_DOWN)
      else if c == 'C' as int then (Outside, KEY_RIGHT)
      else if c == 'D' as int then (Outside, KEY_LEFT)
      else (EscapeEnd(c), EATEN)
    case LetterO => if c == 'F' as int then (Outside, KEY_END) else (EscapeEnd(c), EATEN)
    case Bracket1 => if c == '~' as int then (Outside, KEY_HOME) else (EscapeEnd(c), EATEN)
    case Bracket3 => if c == '~' as int then (Outside, KEY_DEL) else (EscapeEnd(c), EATEN)
    case Bracket4 => if c == '~' as int then (Outside, KEY_END) else (EscapeEnd(c), EATEN)
    case _ => (EscapeEnd(c), EATEN)
  }

  function Input(e: Editor, size: nat, c: int): Editor
    requires e.next < |e.history| && e.pos < |e.history|
  {
    if c == ESC as int then e.(escape := Start)
    else if e.escape != Outside then
      var (s, key) := HandleEscape(e.escape, c);
      Key(e.(escape := s), size, key)
    else Key(e, size, c)
  }

  function Receive(e: Editor, size: nat, c: byte): Editor
    requires e.next < |e.history| && e.pos < |e.history|
  {
    if c == LF && e.lastWasCr then e.(lastWasCr := false)
    else Input(e.(lastWasCr := c == CR), size, if c == CR then LF as int else c)
  }

  /** Moving the cursor leaves the line as it is. */
  lemma MovesKeepLine(e: Editor)
    ensures Line(MoveLeft(e)) == Line(e) && Line(MoveRight(e)) == Line(e)
  {
  }

  lemma BackspaceKeepsWellFormed(e: Editor, size: nat)
    requires WellFormed(e, size)
    ensures WellFormed(Backspace(e), size)
  {
  }

  lemma RightKeepsWellFormed(e: Editor, size: nat)
    requires WellFormed(e, size)
    ensures WellFormed(MoveRight(e), size)
  {
  }

  lemma LeftKeepsWellFormed(e: Editor, size: nat)
    requires WellFormed(e, size)
    ensures WellFormed(MoveLeft(e), size)
  {
  }

  lemma InsertKeepsWellFormed(e: Editor, size: nat, c: byte)
    requires WellFormed(e, size) && Printable(c)
    ensures WellFormed(Insert(e, size, c), size)
  {
  }

  lemma LineFits(e: Editor, size: nat)
    requires WellFormed(e, size)
    ensures Fits(Line(e), size)
  {
  }

  lemma HistoryKeepsWellFormed(e: Editor, size: nat)
    requires WellFormed(e, size)
    ensures WellFormed(Enter(e), size) && WellFormed(Previous(e), size) && WellFormed(Following(e), size)
  {
    LineFits(e, size);
  }

  lemma CursorKeyKeepsWellFormed(e: Editor, size: nat, key: int)
    requires WellFormed(e, size)
    ensures WellFormed(CursorKey(e, key), size)
    ensures Line(CursorKey(e, key)) == Line(e)
  {
    LineFits(e, size);
    MovesKeepLine(e);
    LeftKeepsWellFormed(e, size);
    RightKeepsWellFormed(e, size);
  }

  lemma EditKeyKeepsWellFormed(e: Editor, size: nat, key: int)
    requires WellFormed(e, size)
    ensures WellFormed(EditKey(e, size, key), size)
  {
    if key == KEY_DEL {
      RightKeepsWellFormed(e, size);
      BackspaceKeepsWellFormed(MoveRight(e), size);
    } else if key == BS as int || key == RUBOUT {
      BackspaceKeepsWellFormed(e, size);
    } else if key == CTRL_C || key == CTRL_K {
    } else if 0x20 <= key <= 0x7E {
      InsertKeepsWellFormed(e, size, key);
    } else {
      CursorKeyKeepsWellFormed(e, size, key);
    }
  }

  lemma KeyKeepsWellFormed(e: Editor, size: nat, key: int)
    requires WellFormed(e, size)
    ensures WellFormed(Key(e, size, key), size)
  {
    EditKeyKeepsWellFormed(e, size, key);
    HistoryKeepsWellFormed(e, size);
  }

  lemma ReceiveKeepsWellFormed(e: Editor, size: nat, c: byte)
    requires WellFormed(e, size)
    ensures WellFormed(Receive(e, size, c), size)
  {
    var e' := e.(lastWasCr := c == CR);
    var c' := if c == CR then LF as int else c;
    KeyKeepsWellFormed(e', size, c');
    var (s, key) := HandleEscape(e.escape, c');
    KeyKeepsWellFormed(e'.(escape := s), size, key);
  }

  function Run(e: Editor, size: nat, keys: seq<byte>): (r: Editor)
    requires WellFormed(e, size)
    ensures WellFormed(r, size)
  {
    if keys == [] then e
    else
      var before := Run(e, size, keys[..|keys| - 1]);
      ReceiveKeepsWellFormed(before, size, keys[|keys| - 1]);
      Receive(before, size, keys[|keys| - 1])
  }

  // -------- what a user sees

  /** Typing a character and rubbing it out changes nothing, if it was accepted. */
  lemma BackspaceUndoesInsert(e: Editor, size: nat, c: byte)
    ensures Backspace(Insert(e, size, c)) == if |Line(e)| >= size - 1 then Backspace(e) else e
  {
    assert (e.left + [c])[..|e.left|] == e.left;
  }

  lemma MovesAreInverse(e: Editor)
    ensures e.left != [] ==> MoveRight(MoveLeft(e)) == e
    ensures e.right != [] ==> MoveLeft(MoveRight(e)) == e
  {
    if e.left != [] {
      assert e.left[..|e.left| - 1] + [e.left[|e.left| - 1]] == e.left;
    }
    if e.right != [] {
      assert (e.left + [e.right[0]])[..|e.left|] == e.left;
      assert [e.right[0]] + e.right[1..] == e.right;
    }
  }

  /** Delete is backspace one place to the right: it takes the first character right of the cursor. */
  lemma DeleteTakesNext(e: Editor)
    requires e.right != []
    ensures Delete(e) == e.(right := e.right[1..])
  {
    assert (e.left + [e.right[0]])[..|e.left|] == e.left;
  }

  lemma ReceivePrintable(e: Editor, size: nat, c: byte)
    requires e.next < |e.history| && e.pos < |e.history| && e.escape == Outside && Printable(c)
    ensures Receive(e, size, c) == Insert(e.(lastWasCr := false), size, c)
  {
  }

  /** Typing a text in the middle of a line puts it in front of the cursor, as far as it fits. */
  lemma {:induction false} TypedText(e: Editor, size: nat, text: seq<byte>)
    requires WellFormed(e, size) && e.escape == Outside && Text(text)
    ensures var room := size - 1 - |Line(e)|;
            Run(e, size, text).(lastWasCr := false)
            == e.(left := e.left + (if |text| <= room then text else text[..room]), lastWasCr := false)
  {
    if text == [] {
      assert e.left + text == e.left;
    } else {
      var k, room := |text| - 1, size - 1 - |Line(e)|;
      TypedText(e, size, text[..k]);
      var before := Run(e, size, text[..k]);
      ReceivePrintable(before, size, text[k]);
      if k < room {
        assert e.left + text[..k] + [text[k]] == e.left + text;
      } else if k > room {
        assert text[..k][..room] == text[..room];
      }
    }
  }

  lemma EatenKey(e: Editor, size: nat)
    requires e.next < |e.history| && e.pos < |e.history|
    ensures Key(e, size, EATEN) == e
  {
  }

  /** The effect of a newline. */
  function Newline(e: Editor): Editor
    requires e.next < |e.history|
  {
    if e.escape == Outside then Enter(e) else e.(escape := BadSequence)
  }

  lemma NewlineInput(e: Editor, size: nat)
    requires e.next < |e.history| && e.pos < |e.history|
    ensures Input(e, size, LF) == Newline(e)
  {
    if e.escape == Outside {
      assert Key(e, size, LF) == Enter(e);
    } else {
      assert HandleEscape(e.escape, LF) == (BadSequence, EATEN);
      EatenKey(e.(escape := BadSequence), size);
    }
  }

  lemma NewlineReceived(e: Editor, size: nat)
    requires e.next < |e.history| && e.pos < |e.history|
    ensures Receive(e, size, CR) == Newline(e).(lastWasCr := true)
    ensures Receive(e, size, LF) == if e.lastWasCr then e.(lastWasCr := false) else Newline(e)
  {
    var e' := e.(lastWasCr := true);
    NewlineInput(e, size);
    NewlineInput(e', size);
    assert Receive(e, size, CR) == Input(e', size, LF) && Newline(e') == Newline(e).(lastWasCr := true);
    assert !e.lastWasCr ==> e.(lastWasCr := false) == e && Receive(e, size, LF) == Input(e, size, LF);
  }

  /** CR LF, CR and LF all do the same once, in the middle of an escape sequence too. */
  lemma NewlinesAreOne(e: Editor, size: nat)
    requires WellFormed(e, size)
    ensures Run(e, size, [CR, LF]) == Newline(e).(lastWasCr := false)
    ensures Run(e, size, [CR]) == Newline(e).(lastWasCr := true)
    ensures !e.lastWasCr ==> Run(e, size, [LF]) == Newline(e)
  {
    assert [CR, LF] == [CR] + [LF] && [CR] == [] + [CR] && [LF] == [] + [LF];
    RunAppended(e, size, [CR], LF);
    RunAppended(e, size, [], CR);
    RunAppended(e, size, [], LF);
    NewlineReceived(e, size);
    NewlineReceived(Newline(e).(lastWasCr := true), size);
  }

  /** A line is entered exactly outside an escape sequence; inside, the newline is swallowed. */
  lemma NewlineEntersExactly(e: Editor, size: nat)
    requires WellFormed(e, size) && Line(e) != []
    ensures Line(Receive(e, size, CR)) == [] <==> e.escape == Outside
    ensures e.escape != Outside ==> Receive(e, size, CR) == e.(lastWasCr := true, escape := BadSequence)
  {
    NewlineReceived(e, size);
  }

  // -------- escape sequences

  /** What ends a sequence that stands for no key. */
  predicate Terminator(c: int) {
    Letter(c) || c == '~' as int
  }

  /** The inside of a sequence: no terminator but the letter O behind ESC, and no further ESC. */
  predicate Inside(body: seq<byte>) {
    forall i :: 0 <= i < |body| ==> body[i] != ESC && (Terminator(body[i]) ==> i == 0 && body[i] == 'O' as int)
  }

  /** What the keys with an escape sequence do. */
  function KeySequence(e: Editor, body: seq<byte>, last: byte): Editor
    requires e.next < |e.history| && e.pos < |e.history|
  {
    if body == ['[' as int] then
      if last == 'A' as int then Previous(e)
      else if last == 'B' as int then Following(e)
      else if last == 'C' as int then MoveRight(e)
      else if last == 'D' as int then MoveLeft(e)
      else e
    else if body == ['O' as int] && last == 'F' as int then e.(left := Line(e), right := [])
    else if last != '~' as int then e
    else if body == ['[' as int, '1' as int] then e.(left := [], right := Line(e))
    else if body == ['[' as int, '3' as int] then Delete(e)
    else if body == ['[' as int, '4' as int] then e.(left := Line(e), right := [])
    else e
  }

  function StateInside(body: seq<byte>): Sequence {
    if body == [] then Start
    else if body == ['[' as int] then Bracket
    else if body == ['O' as int] then LetterO
    else if body == ['[' as int, '1' as int] then Bracket1
    else if body == ['[' as int, '3' as int] then Bracket3
    else if body == ['[' as int, '4' as int] then Bracket4
    else BadSequence
  }

  lemma RunAppended(e: Editor, size: nat, keys: seq<byte>, c: byte)
    requires WellFormed(e, size)
    ensures Run(e, size, keys + [c]) == Receive(Run(e, size, keys), size, c)
  {
    assert (keys + [c])[..|keys|] == keys;
  }

  lemma NextState(body: seq<byte>, c: byte)
    requires Inside(body + [c])
    ensures HandleEscape(StateInside(body), c) == (StateInside(body + [c]), EATEN)
  {
    var keys := body + [c];
    assert keys[|body|] == c && forall i :: 0 <= i < |body| ==> keys[i] == body[i];
    if |body| == 0 {
      assert keys == [c];
    } else if |body| == 1 {
      assert keys == [body[0], c];
    } else {
      assert |keys| >= 3;
    }
  }

  lemma ReceiveInside(e: Editor, size: nat, body: seq<byte>, c: byte)
    requires e.next < |e.history| && e.pos < |e.history| && Inside(body + [c])
    requires e.escape == StateInside(body) && e.lastWasCr == (body != [] && body[|body| - 1] == CR)
    ensures Receive(e, size, c) == e.(escape := StateInside(body + [c]), lastWasCr := c == CR)
  {
    var keys := body + [c];
    assert keys[|body|] == c;
    NextState(body, c);
    if c == CR {
      assert HandleEscape(StateInside(body), LF) == (BadSequence, EATEN) == HandleEscape(StateInside(body), c);
    }
    EatenKey(e.(escape := StateInside(keys), lastWasCr := c == CR), size);
  }

  /** Inside a sequence nothing happens to the line. */
  lemma {:induction false} InsideSequence(e: Editor, size: nat, body: seq<byte>)
    requires WellFormed(e, size) && e.escape == Outside && Inside(body)
    ensures var lastWasCr := body != [] && body[|body| - 1] == CR;
            Run(e, size, [ESC] + body) == e.(escape := StateInside(body), lastWasCr := lastWasCr)
  {
    if body == [] {
      assert [ESC] + body == [] + [ESC];
      RunAppended(e, size, [], ESC);
    } else {
      var k := |body| - 1;
      var front, c := body[..k], body[k];
      assert body == front + [c];
      InsideSequence(e, size, front);
      assert [ESC] + body == ([ESC] + front) + [c];
      RunAppended(e, size, [ESC] + front, c);
      ReceiveInside(Run(e, size, [ESC] + front), size, front, c);
    }
  }

  /** The key that a sequence stands for. */
  function KeyOf(body: seq<byte>, last: byte): int {
    if body == ['[' as int] then
      if last == 'A' as int then KEY_UP
      else if last == 'B' as int then KEY_DOWN
      else if last == 'C' as int then KEY_RIGHT
      else if last == 'D' as int then KEY_LEFT
      else EATEN
    else if body == ['O' as int] && last == 'F' as int then KEY_END
    else if last != '~' as int then EATEN
    else if body == ['[' as int, '1' as int] then KEY_HOME
    else if body == ['[' as int, '3' as int] then KEY_DEL
    else if body == ['[' as int, '4' as int] then KEY_END
    else EATEN
  }

  lemma LastState(body: seq<byte>, last: byte)
    requires Terminator(last) && !(body == [] && last == 'O' as int)
    ensures HandleEscape(StateInside(body), last) == (Outside, KeyOf(body, last))
  {
  }

  lemma SpecialKeys(e: Editor, size: nat)
    requires e.next < |e.history| && e.pos < |e.history|
    ensures Key(e, size, KEY_UP) == Previous(e) && Key(e, size, KEY_DOWN) == Following(e)
    ensures Key(e, size, KEY_RIGHT) == MoveRight(e) && Key(e, size, KEY_LEFT) == MoveLeft(e)
    ensures Key(e, size, KEY_HOME) == e.(left := [], right := Line(e))
    ensures Key(e, size, KEY_END) == e.(left := Line(e), right := [])
    ensures Key(e, size, KEY_DEL) == Delete(e) && Key(e, size, EATEN) == e
  {
  }

  lemma KeyOfSequence(e: Editor, size: nat, body: seq<byte>, last: byte)
    requires e.next < |e.history| && e.pos < |e.history|
    ensures Key(e, size, KeyOf(body, last)) == KeySequence(e, body, last)
  {
    SpecialKeys(e, size);
  }

  /** A whole sequence does what its key does. One that stands for no key ends with its first
      terminator and changes nothing. */
  lemma EscapeSequence(e: Editor, size: nat, body: seq<byte>, last: byte)
    requires WellFormed(e, size) && e.escape == Outside && Inside(body)
    requires Terminator(last) && !(body == [] && last == 'O' as int)
    ensures Run(e, size, [ESC] + body + [last]) == KeySequence(e.(lastWasCr := false), body, last)
  {
    InsideSequence(e, size, body);
    var before, after := Run(e, size, [ESC] + body), e.(lastWasCr := false);
    RunAppended(e, size, [ESC] + body, last);
    LastState(body, last);
    assert Receive(before, size, last) == Key(after, size, KeyOf(body, last));
    KeyOfSequence(after, size, body, last);
  }

  /** The letters and the tilde. */
  lemma TerminatorIs(c: byte)
    ensures Terminator(c) <==> (0x41 <= c <= 0x5A) || (0x61 <= c <= 0x7A) || c == 0x7E
  {
  }

  /** The arrow keys, byte by byte. */
  lemma ArrowKeys(e: Editor, size: nat, last: byte)
    requires WellFormed(e, size) && e.escape == Outside && !e.lastWasCr
    ensures last == 0x41 ==> Run(e, size, [0x1B, 0x5B, last]) == Previous(e)
    ensures last == 0x42 ==> Run(e, size, [0x1B, 0x5B, last]) == Following(e)
    ensures last == 0x43 ==> Run(e, size, [0x1B, 0x5B, last]) == MoveRight(e)
    ensures last == 0x44 ==> Run(e, size, [0x1B, 0x5B, last]) == MoveLeft(e)
  {
    assert e.(lastWasCr := false) == e;
    if 0x41 <= last <= 0x44 {
      EscapeSequence(e, size, [0x5B], last);
      assert [ESC] + [0x5B] + [last] == [0x1B, 0x5B, last];
    }
  }

  /** And the others: `ESC [ 1 ~` goes to the start of the line, `ESC [ 4 ~` to its end, `ESC [ 3 ~` deletes. */
  lemma TildeKeys(e: Editor, size: nat, digit: byte)
    requires WellFormed(e, size) && e.escape == Outside && !e.lastWasCr
    ensures digit == 0x31 ==> Run(e, size, [0x1B, 0x5B, digit, 0x7E]) == e.(left := [], right := e.left + e.right)
    ensures digit == 0x33 ==> Run(e, size, [0x1B, 0x5B, digit, 0x7E]) == Delete(e)
    ensures digit == 0x34 ==> Run(e, size, [0x1B, 0x5B, digit, 0x7E]) == e.(left := e.left + e.right, right := [])
  {
    assert e.(lastWasCr := false) == e;
    if digit == 0x31 || digit == 0x33 || digit == 0x34 {
      EscapeSequence(e, size, [0x5B, digit], 0x7E);
      assert [ESC] + [0x5B, digit] + [0x7E] == [0x1B, 0x5B, digit, 0x7E];
    }
  }

  /** `ESC O F` goes to the end too. */
  lemma EndKey(e: Editor, size: nat, last: byte)
    requires WellFormed(e, size) && e.escape == Outside && !e.lastWasCr && last == 0x46
    ensures Run(e, size, [0x1B, 0x4F, last]) == e.(left := e.left + e.right, right := [])
  {
    assert e.(lastWasCr := false) == e;
    EscapeSequence(e, size, [0x4F], last);
    assert [ESC] + [0x4F] + [last] == [0x1B, 0x4F, last];
  }

  /** Going to the previous line and back restores the line that was being edited. */
  lemma PreviousThenFollowing(e: Editor)
    requires e.next < |e.history| && e.pos == e.next
    ensures Following(Previous(e)) == SaveEdited(e).(left := Line(e), right := [])
  {
    var saved := SaveEdited(e);
    var p := Previous(e);
    if |e.history| > 1 {
      assert p.pos != p.next;
    } else {
      assert p.history[p.next] == Line(e);
      assert Line(p) == Line(e);
    }
  }

  /** The previous line of a fresh prompt is the line entered last, unless there is only one slot. */
  lemma PreviousIsLastEntered(e: Editor)
    requires e.next < |e.history| && Line(e) != []
    ensures Line(Previous(Enter(e))) == if |e.history| > 1 then Line(e) else []
  {
    var f := Enter(e);
    Ring.FollowingIsModulo(e.next, |e.history|);
    assert f.history[e.next] == Line(e);
  }

  // -------- further back in the history

  /** The key for the previous line `k` times. */
  function Earlier(e: Editor, k: nat): (r: Editor)
    requires e.next < |e.history| && e.pos < |e.history|
    ensures r.next == e.next && |r.history| == |e.history| && r.pos < |r.history|
  {
    if k == 0 then e else Previous(Earlier(e, k - 1))
  }

  /** The slot `k` places in front of `next`. */
  function SlotBefore(next: nat, k: nat, n: nat): (slot: nat)
    requires next < n && k <= n
    ensures slot < n
  {
    if k <= next then next - k else next + n - k
  }

  /** Every step shows the slot before; the line that was being edited is in the slot to be saved next. */
  lemma {:induction false} EarlierShows(e: Editor, k: nat)
    requires e.next < |e.history| && e.pos == e.next && 1 <= k < |e.history|
    ensures var slot := SlotBefore(e.next, k, |e.history|);
            && slot != e.next && Earlier(e, k).pos == slot && Earlier(e, k).history == e.history[e.next := Line(e)]
            && Line(Earlier(e, k)) == e.history[slot]
  {
    var slot := SlotBefore(e.next, k, |e.history|);
    if k > 1 {
      EarlierShows(e, k - 1);
    } else {
      assert Earlier(e, 0) == e && Earlier(e, 1) == Previous(e);
    }
    assert e.history[e.next := Line(e)][slot] == e.history[slot];
    assert e.history[slot] + [] == e.history[slot];
  }

  /** Lines entered one after the other. */
  function EnterAll(e: Editor, lines: seq<seq<byte>>): (r: Editor)
    requires e.next < |e.history|
    ensures r.next < |r.history| == |e.history|
  {
    if lines == [] then e
    else
      var k := |lines| - 1;
      Enter(EnterAll(e, lines[..k]).(left := lines[k], right := []))
  }

  /** The last ones are in the slots in front of the next one, in order. */
  lemma {:induction false} EnteredAre(e: Editor, lines: seq<seq<byte>>, k: nat)
    requires e.next < |e.history| && e.pos == e.next && forall i :: 0 <= i < |lines| ==> lines[i] != []
    requires k <= |lines| && k <= |e.history|
    ensures var r := EnterAll(e, lines);
            r.pos == r.next && (k > 0 ==> r.history[SlotBefore(r.next, k, |r.history|)] == lines[|lines| - k])
  {
    if lines != [] {
      var last := |lines| - 1;
      var before := EnterAll(e, lines[..last]);
      assert lines[last] + [] == lines[last];
      Ring.FollowingIsModulo(before.next, |e.history|);
      EnteredAre(e, lines[..last], if k > 0 then k - 1 else 0);
    }
  }

  /** Going back `k` times shows the line entered as the `k`-th last one, as long as there are slots. */
  lemma HistoryIsInOrder(e: Editor, lines: seq<seq<byte>>, k: nat)
    requires e.next < |e.history| && e.pos == e.next && forall i :: 0 <= i < |lines| ==> lines[i] != []
    requires 1 <= k <= |lines| && k < |e.history|
    ensures EnterAll(e, lines).pos == EnterAll(e, lines).next
    ensures Line(Earlier(EnterAll(e, lines), k)) == lines[|lines| - k]
  {
    EnteredAre(e, lines, k);
    EarlierShows(EnterAll(e, lines), k);
  }

  // -------- the control characters

  lemma ReceiveKey(e: Editor, size: nat, c: byte)
    requires e.next < |e.history| && e.pos < |e.history| && e.escape == Outside && !e.lastWasCr && c != 0x0D && c != 0x1B
    ensures Receive(e, size, c) == Key(e, size, c)
  {
    assert e.(lastWasCr := false) == e;
  }

  /** The keys that move the cursor, by their codes. */
  lemma MovingCharacters(e: Editor, size: nat)
    requires e.next < |e.history| && e.pos < |e.history| && e.escape == Outside && !e.lastWasCr
    ensures Receive(e, size, 0x01) == e.(left := [], right := e.left + e.right)
    ensures Receive(e, size, 0x05) == e.(left := e.left + e.right, right := [])
    ensures Receive(e, size, 0x02) == if e.left == [] then e
                                      else e.(left := e.left[..|e.left| - 1], right := [e.left[|e.left| - 1]] + e.right)
    ensures Receive(e, size, 0x06) == if e.right == [] then e else e.(left := e.left + [e.right[0]], right := e.right[1..])
    ensures Receive(e, size, 0x10) == Previous(e) && Receive(e, size, 0x0E) == Following(e)
  {
    ReceiveKey(e, size, 0x01);
    ReceiveKey(e, size, 0x05);
    ReceiveKey(e, size, 0x02);
    ReceiveKey(e, size, 0x06);
    ReceiveKey(e, size, 0x10);
    ReceiveKey(e, size, 0x0E);
  }

  /** The keys that take something off the line. */
  lemma DeletingCharacters(e: Editor, size: nat)
    requires e.next < |e.history| && e.pos < |e.history| && e.escape == Outside && !e.lastWasCr
    ensures Receive(e, size, 0x08) == Receive(e, size, 0x7F) == if e.left == [] then e else e.(left := e.left[..|e.left| - 1])
    ensures Receive(e, size, 0x0B) == e.(right := []) && Receive(e, size, 0x03) == e.(left := [], right := [])
  {
    ReceiveKey(e, size, 0x08);
    ReceiveKey(e, size, 0x7F);
    ReceiveKey(e, size, 0x0B);
    ReceiveKey(e, size, 0x03);
  }

  /** All others that do not print, but for the newlines and the escape character, do nothing to the line. */
  lemma OtherCharacters(e: Editor, size: nat, c: byte)
    requires e.next < |e.history| && e.pos < |e.history| && e.escape == Outside && !e.lastWasCr
    ensures Receive(e, size, 0x1B) == e.(escape := Start)
    ensures c in {0x00, 0x04, 0x07, 0x09, 0x0C, 0x0F} || 0x11 <= c <= 0x1A || 0x1C <= c <= 0x1F || c >= 0x80 ==>
              Receive(e, size, c) == e
  {
    assert e.(lastWasCr := false) == e;
    if c != 0x0D && c != 0x1B {
      ReceiveKey(e, size, c);
    }
  }
}
