/** The line editor of the console (common/console.c:284-653). Every character that is sent is kept in
    `sent`; a terminal that interprets all of them shows the prompt, the line and the cursor. */
module Console {
  import opened Memory
  import opened Terminal
  import opened LineEditor

  class Console {
    /** The line and its terminator, at address `base`. */
    const buf: array<byte>
    const base: nat
    /** The text of each history slot. */
    const history: array<seq<byte>>
    var inputLen: nat
    var inputPos: nat
    var historyNext: nat
    var historyPos: nat
    var lastWasCr: bool
    var escape: Sequence
    /** Everything sent to the terminal so far. */
    var sent: seq<byte>

    ghost function Screen(): Screen
      reads this`sent
    {
      FeedAll(BLANK, sent)
    }

    ghost function Left(): seq<byte>
      requires inputPos <= buf.Length
      reads this`inputPos, buf
    {
      buf[..inputPos]
    }

    ghost function Right(): seq<byte>
      requires inputPos <= inputLen <= buf.Length
      reads this`inputPos, this`inputLen, buf
    {
      buf[inputPos..inputLen]
    }

    ghost function Abs(): Editor
      requires inputPos <= inputLen <= buf.Length
      reads this, buf, history
    {
      Editor(Left(), Right(), history[..], historyNext, historyPos, lastWasCr, escape)
    }

    /** The line and its terminator fit the buffer, and what is behind them does not matter. */
    ghost predicate Consistent()
      reads this, buf, history
    {
      inputPos <= inputLen < buf.Length && buf[inputLen] == 0 && WellFormed(Abs(), buf.Length)
    }

    /** And the terminal shows the line. */
    ghost predicate Valid()
      reads this, buf, history
    {
      && Consistent()
      && Shows(Screen(), Left(), Right())
    }

    constructor (size: nat, base: nat, slots: nat)
      requires size > 0 && slots > 0
      ensures Valid() && fresh(buf) && fresh(history) && buf.Length == size && history.Length == slots
      ensures Abs() == Editor([], [], seq(slots, _ => []), 0, 0, false, Outside)
    {
      buf := new byte[size](_ => 0);
      this.base := base;
      history := new seq<byte>[slots](_ => []);
      inputLen, inputPos, historyNext, historyPos := 0, 0, 0, 0;
      lastWasCr, escape, sent := false, Outside, [];
      new;
      assert history[..] == seq(slots, _ => []);
      PutText(PROMPT);
      ShowsPrompt(BLANK);
    }

    /** The buffer, the history and the input are those of `e`. */
    ghost predicate Reflects(e: Editor)
      reads this, buf, history
    {
      && inputPos <= inputLen < buf.Length && buf[inputLen] == 0 && Left() == e.left && Right() == e.right
      && history[..] == e.history && historyNext == e.next && historyPos == e.pos
      && lastWasCr == e.lastWasCr && escape == e.escape
    }

    lemma Established(e: Editor)
      requires Reflects(e) && WellFormed(e, buf.Length) && Shows(Screen(), e.left, e.right)
      ensures Valid() && Abs() == e
    {
    }

    // -------- output

    method Putc(c: byte)
      modifies this`sent
      ensures Screen() == Feed(old(Screen()), c)
    {
      FeedOne(BLANK, sent, c);
      sent := sent + [c];
    }

    method Puts(s: seq<byte>)
      modifies this`sent
      ensures Screen() == FeedAll(old(Screen()), s)
    {
      ghost var was := Screen();
      for i := 0 to |s|
        invariant Screen() == FeedAll(was, s[..i])
      {
        assert s[..i + 1] == s[..i] + [s[i]];
        FeedOne(was, s[..i], s[i]);
        Putc(s[i]);
      }
      assert s[..|s|] == s;
    }

    method PutText(s: seq<byte>)
      requires Text(s) && Screen().mode == Ground && Screen().col <= |Screen().line|
      modifies this`sent
      ensures Screen() == Overwritten(old(Screen()), s)
    {
      FeedText(Screen(), s);
      Puts(s);
    }

    /** Prints the buffer from `from` on, up to its terminator at `end`. */
    method PutLine(from: nat, ghost end: nat)
      requires from <= end < buf.Length && buf[end] == 0 && Text(buf[from..end])
      requires Screen().mode == Ground && Screen().col <= |Screen().line|
      modifies this`sent
      ensures Screen() == Overwritten(old(Screen()), buf[from..end])
    {
      ghost var was := Screen();
      var i := from;
      assert buf[from..i] == [];
      while buf[i] != 0
        invariant from <= i <= end
        invariant Screen() == FeedAll(was, buf[from..i])
        decreases end - i
      {
        assert buf[from..i + 1] == buf[from..i] + [buf[i]];
        FeedOne(was, buf[from..i], buf[i]);
        Putc(buf[i]);
        i := i + 1;
      }
      FeedText(was, buf[from..end]);
    }

    method RepeatChar(c: byte, count: nat)
      modifies this`sent
      ensures Screen() == FeedAll(old(Screen()), Repeated(c, count))
    {
      ghost var was := Screen();
      for i := 0 to count
        invariant Screen() == FeedAll(was, Repeated(c, i))
      {
        FeedOne(was, Repeated(c, i), c);
        Putc(c);
      }
    }

    method Spaces(count: nat)
      requires Screen().mode == Ground && Screen().col <= |Screen().line|
      modifies this`sent
      ensures Screen() == Overwritten(old(Screen()), Repeated(SPACE, count))
    {
      FeedText(Screen(), Repeated(SPACE, count));
      RepeatChar(SPACE, count);
    }

    method Backs(count: nat)
      requires Screen().mode == Ground && count <= Screen().col
      modifies this`sent
      ensures Screen() == Back(old(Screen()), count)
    {
      FeedBacks(Screen(), count);
      RepeatChar(BS, count);
    }

    // -------- moving the cursor

    // The control sequence for so many columns to the right.
    method CursorOn(count: nat)
      requires Screen().mode == Ground && count > 0
      modifies this`sent
      ensures Screen() == old(Screen()).(col := old(Screen()).col + count)
    {
      FeedControl(Screen(), count, 'C' as int);
      Puts(Control(count, 'C' as int));
    }

    // And to the left.
    method CursorBack(count: nat)
      requires Screen().mode == Ground && 0 < count <= Screen().col
      modifies this`sent
      ensures Screen() == Back(old(Screen()), count)
    {
      FeedControl(Screen(), count, 'D' as int);
      Puts(Control(count, 'D' as int));
    }

    /** The line with the cursor in front of the byte at `pos` and behind it. */
    lemma SplitBefore(pos: nat, len: nat)
      requires pos < len <= buf.Length
      ensures buf[..pos + 1] == buf[..pos] + [buf[pos..len][0]] && buf[pos + 1..len] == buf[pos..len][1..]
      ensures buf[..pos] == buf[..pos + 1][..pos] && buf[pos..len] == [buf[..pos + 1][pos]] + buf[pos + 1..len]
    {
    }

    method MoveCursorRight()
      requires Valid()
      modifies this`inputPos, this`sent
      ensures Valid() && Abs() == MoveRight(old(Abs()))
    {
      if inputPos == inputLen {
        return;
      }
      ghost var was, e := Abs(), MoveRight(Abs());
      MovesKeepLine(was);
      RightKeepsWellFormed(was, buf.Length);
      CursorOn(1);
      inputPos := inputPos + 1;
      SplitBefore(inputPos - 1, inputLen);
      ShowsMoved(old(Screen()), was.left, was.right, e.left, e.right);
      Established(e);
    }

    method MoveCursorLeft()
      requires Valid()
      modifies this`inputPos, this`sent
      ensures Valid() && Abs() == MoveLeft(old(Abs()))
    {
      if inputPos == 0 {
        return;
      }
      ghost var was, e := Abs(), MoveLeft(Abs());
      MovesKeepLine(was);
      LeftKeepsWellFormed(was, buf.Length);
      CursorBack(1);
      inputPos := inputPos - 1;
      SplitBefore(inputPos, inputLen);
      ShowsMoved(old(Screen()), was.left, was.right, e.left, e.right);
      Established(e);
    }

    method MoveCursorEnd()
      requires Valid()
      modifies this`inputPos, this`sent
      ensures Valid() && Abs() == CursorKey(old(Abs()), KEY_END)
    {
      if inputPos == inputLen {
        assert Left() + Right() == Left();
        return;
      }
      ghost var left, right := Left(), Right();
      CursorOn(inputLen - inputPos);
      inputPos := inputLen;
      assert Left() == left + right && Right() == [];
      ShowsMoved(old(Screen()), left, right, Left(), Right());
    }

    /** Moves the cursor to where the line begins, whatever the buffer holds. */
    method MoveCursorBegin()
      requires Screen().mode == Ground && inputPos <= Screen().col
      modifies this`inputPos, this`sent
      ensures Screen() == Back(old(Screen()), old(inputPos)) && inputPos == 0
    {
      if inputPos == 0 {
        return;
      }
      CursorBack(inputPos);
      inputPos := 0;
    }

    method MoveHome()
      requires Valid()
      modifies this`inputPos, this`sent
      ensures Valid() && Abs() == CursorKey(old(Abs()), KEY_HOME)
    {
      ghost var left, right := Left(), Right();
      MoveCursorBegin();
      assert Left() == [] && Right() == left + right;
      ShowsMoved(old(Screen()), left, right, Left(), Right());
    }

    // -------- editing

    method PutChar(c: byte)
      requires Printable(c) && Screen().mode == Ground && Screen().col <= |Screen().line|
      modifies this`sent
      ensures Screen() == Overwritten(old(Screen()), [c])
    {
      FeedText(Screen(), [c]);
      FeedOne(Screen(), [], c);
      Putc(c);
    }

    /** The terminator and the line behind an edit that leaves `left` and `right`. */
    ghost predicate Holds(left: seq<byte>, right: seq<byte>)
      reads buf
    {
      |left| + |right| < buf.Length && left + right + [0] <= buf[..]
    }

    /** After an edit of the line and the screen. */
    lemma Edited(left: seq<byte>, right: seq<byte>)
      requires inputPos == |left| && inputLen == |left| + |right| && Holds(left, right)
      ensures inputPos <= inputLen < buf.Length && buf[inputLen] == 0 && Left() == left && Right() == right
    {
      var all := left + right + [0];
      assert all == buf[..|all|];
      assert buf[inputLen] == all[inputLen];
    }

    /** Prints the rest of the line, if there is any. */
    method PutRest()
      requires inputPos <= inputLen < buf.Length && buf[inputLen] == 0 && Text(Right())
      requires Screen().mode == Ground && Screen().col <= |Screen().line|
      modifies this`sent
      ensures Screen() == Overwritten(old(Screen()), Right())
    {
      if inputPos != inputLen {
        PutLine(inputPos, inputLen);
      } else {
        OverwrittenNothing(Screen());
      }
    }

    /** Takes the byte in front of the cursor out of the buffer. */
    method CloseUp()
      requires 0 < inputPos <= inputLen < buf.Length && buf[inputLen] == 0
      modifies buf
      ensures Holds(old(buf[..inputPos - 1]), old(buf[inputPos..inputLen]))
    {
      ghost var m := buf[..];
      if inputPos != inputLen {
        Memmove(buf, base, inputPos - 1, inputPos, inputLen - inputPos + 1);
        DeletedAt(m, inputPos, inputLen);
      } else {
        buf[inputLen - 1] := 0;
        assert buf[..] == m[inputLen - 1 := 0];
        CutAt(m, inputLen - 1);
      }
    }

    /** Prints the rest of the line over the character in front of the cursor. */
    method ReprintBehind()
      requires Valid() && inputPos > 0
      modifies this`sent
      ensures Screen() == Overwritten(Back(old(Screen()), 1), Right())
    {
      Putc(BS);
      PutRest();
    }

    /** Blanks what is left behind the line and moves the cursor back to where the character was. */
    method BlankAndBack(count: nat, ghost was: Screen, ghost left: seq<byte>, ghost right: seq<byte>)
      requires Shows(was, left, right) && left != [] && count == |right| + 1
      requires Screen() == Overwritten(Back(was, 1), right)
      modifies this`sent
      ensures Shows(Screen(), left[..|left| - 1], right)
    {
      PutChar(SPACE);
      Backs(count);
      ShowsDeleted(was, left, right);
    }

    method HandleBackspace()
      requires Valid()
      modifies this`inputPos, this`inputLen, this`sent, buf
      ensures Valid() && Abs() == Backspace(old(Abs()))
    {
      if inputPos == 0 {
        return;
      }
      ghost var left, right, was, e := Left(), Right(), Screen(), Backspace(Abs());
      BackspaceKeepsWellFormed(Abs(), buf.Length);
      ReprintBehind();
      assert buf[..inputPos - 1] == left[..|left| - 1];
      CloseUp();
      BlankAndBack(inputLen - inputPos + 1, was, left, right);
      inputLen := inputLen - 1;
      inputPos := inputPos - 1;
      Edited(left[..|left| - 1], right);
      Established(e);
    }

    /** Puts a byte into the buffer at the cursor. */
    method MakeRoom(c: byte)
      requires inputPos <= inputLen < buf.Length - 1 && buf[inputLen] == 0
      modifies buf, this`inputPos, this`inputLen
      ensures inputPos == old(inputPos) + 1 && inputLen == old(inputLen) + 1
      ensures Holds(old(buf[..inputPos]) + [c], old(buf[inputPos..inputLen]))
    {
      ghost var m := buf[..];
      if inputPos != inputLen {
        Memmove(buf, base, inputPos + 1, inputPos, inputLen - inputPos + 1);
      }
      ghost var moved := buf[..];
      InsertedAt(m, moved, inputPos, inputLen, c);
      buf[inputPos] := c;
      inputPos := inputPos + 1;
      inputLen := inputLen + 1;
      buf[inputLen] := 0;
      assert buf[..] == moved[inputPos - 1 := c][inputLen := 0];
    }

    /** A character at the cursor, if the line is not full. */
    method InsertChar(c: byte)
      requires Valid() && Printable(c)
      modifies this`inputPos, this`inputLen, this`sent, buf
      ensures Valid() && Abs() == Insert(old(Abs()), buf.Length, c)
    {
      if inputLen >= buf.Length - 1 {
        return;
      }
      ghost var left, right, was, e := Left(), Right(), Screen(), Insert(Abs(), buf.Length, c);
      InsertKeepsWellFormed(Abs(), buf.Length, c);
      PutChar(c);
      PutRest();
      Backs(inputLen - inputPos);
      MakeRoom(c);
      Edited(left + [c], right);
      ShowsInserted(was, left, right, c);
      Established(e);
    }

    method KillToEnd()
      requires Valid()
      modifies this`inputLen, this`sent, buf
      ensures Valid() && Abs() == old(Abs()).(right := [])
    {
      if inputPos == inputLen {
        return;
      }
      ghost var left, right, was := Left(), Right(), Screen();
      ghost var m := buf[..];
      Spaces(inputLen - inputPos);
      Backs(inputLen - inputPos);
      inputLen := inputPos;
      buf[inputLen] := 0;
      assert buf[..] == m[inputLen := 0];
      CutAt(m, inputLen);
      Edited(left, []);
      ShowsKilled(was, left, right, |right|);
    }

    // -------- history and new lines

    /** The text in the buffer, up to its terminator. */
    method CopyOut(ghost len: nat) returns (text: seq<byte>)
      requires len < buf.Length && buf[len] == 0 && Text(buf[..len])
      ensures text == buf[..len]
    {
      text := [];
      var i := 0;
      while buf[i] != 0
        invariant i <= len && text == buf[..i]
        decreases len - i
      {
        text := text + [buf[i]];
        i := i + 1;
      }
    }

    method CopyIn(text: seq<byte>)
      requires |text| < buf.Length
      modifies buf
      ensures buf[..|text|] == text && buf[|text|] == 0
    {
      for i := 0 to |text|
        invariant buf[..i] == text[..i]
      {
        buf[i] := text[i];
      }
      buf[|text|] := 0;
    }

    method SaveHistory()
      requires Consistent()
      modifies history
      ensures Consistent() && history[..] == old(history[..])[historyNext := Line(old(Abs()))]
    {
      assert buf[..inputLen] == Left() + Right();
      LineFits(Abs(), buf.Length);
      var text := CopyOut(inputLen);
      history[historyNext] := text;
      assert history[..] == old(history[..])[historyNext := text];
    }

    /** Prints a line over the one on the screen. */
    method PrintOver(line: seq<byte>, ghost left: seq<byte>, ghost right: seq<byte>)
      requires |left| == inputPos && |left| + |right| == inputLen && Shows(Screen(), left, right)
      requires Text(line) && |line| < buf.Length && buf[..|line|] == line && buf[|line|] == 0
      modifies this`inputPos, this`inputLen, this`sent
      ensures inputPos == inputLen == |line| && Shows(Screen(), line, [])
    {
      ghost var was := Screen();
      MoveCursorBegin();
      assert buf[0..|line|] == line;
      PutLine(0, |line|);
      ShowsLoaded(was, left, right, line);
      var text := CopyOut(|line|);
      inputPos := |text|;
      if inputLen > inputPos {
        Spaces(inputLen - inputPos);
        Backs(inputLen - inputPos);
      }
      inputLen := inputPos;
    }

    method LoadHistory(slot: nat)
      requires Valid() && slot < history.Length
      modifies this`inputPos, this`inputLen, this`sent, buf
      ensures Valid() && Abs() == old(Abs()).(left := history[slot], right := [])
    {
      ghost var left, right := Left(), Right();
      CopyIn(history[slot]);
      PrintOver(history[slot], left, right);
    }

    method StartLine()
      requires 0 < buf.Length && Screen() == BLANK
      modifies this`inputPos, this`inputLen, this`sent, buf
      ensures inputPos == inputLen == 0 && buf[0] == 0 && Shows(Screen(), Left(), Right())
    {
      inputPos, inputLen := 0, 0;
      buf[0] := 0;
      ShowsPrompt(Screen());
      PutText(PROMPT);
    }

    method CancelLine()
      requires Valid()
      modifies this`inputPos, this`inputLen, this`sent, buf
      ensures Valid() && Abs() == old(Abs()).(left := [], right := [])
    {
      PutText(['^' as int, 'C' as int]);
      Putc(LF);
      StartLine();
    }

    /** The command itself is not run here. */
    method EnterLine()
      requires Valid()
      modifies this`inputPos, this`inputLen, this`sent, this`historyNext, this`historyPos, buf, history
      ensures Valid() && Abs() == Enter(old(Abs()))
    {
      Putc(LF);
      if inputLen != 0 {
        SaveHistory();
        historyNext := (historyNext + 1) % history.Length;
        historyPos := historyNext;
      }
      StartLine();
    }

    /** Nothing else is on the screen afterwards. */
    method Refresh()
      requires Valid()
      modifies this`sent
      ensures Valid() && Screen().line == [0x3E, 0x20] + Left() + Right()
    {
      ghost var left, right, e := Left(), Right(), Abs();
      Putc(FF);
      PutText(PROMPT);
      assert buf[0..inputLen] == left + right;
      LineFits(e, buf.Length);
      PutLine(0, inputLen);
      Backs(inputLen - inputPos);
      ShowsPrinted(BLANK, left, right);
      Established(e);
    }

    method HistoryPrevious()
      requires Valid()
      modifies this`inputPos, this`inputLen, this`sent, this`historyPos, buf, history
      ensures Valid() && Abs() == Previous(old(Abs()))
    {
      if historyPos == historyNext {
        SaveHistory();
      }
      historyPos := if historyPos == 0 then history.Length - 1 else historyPos - 1;
      LoadHistory(historyPos);
    }

    method HistoryFollowing()
      requires Valid()
      modifies this`inputPos, this`inputLen, this`sent, this`historyPos, buf, history
      ensures Valid() && Abs() == Following(old(Abs()))
    {
      if historyPos == historyNext {
        SaveHistory();
      }
      historyPos := if historyPos + 1 >= history.Length then 0 else historyPos + 1;
      LoadHistory(historyPos);
    }

    // -------- keys

    method HandleEsc(c: int) returns (key: int)
      modifies this`escape
      ensures key == HandleEscape(old(escape), c).1
      ensures escape == if key == EATEN then HandleEscape(old(escape), c).0 else old(escape)
      ensures key != EATEN ==> HandleEscape(old(escape), c).0 == Outside
    {
      key := EATEN;
      match escape {
        case Start =>
          if c == '[' as int {
            escape := Bracket;
            return;
          } else if c == 'O' as int {
            escape := LetterO;
            return;
          }
        case Bracket =>
          if c == '1' as int {
            escape := Bracket1;
            return;
          } else if c == '3' as int {
            escape := Bracket3;
            return;
          } else if c == '4' as int {
            escape := Bracket4;
            return;
          }
          if c == 'A' as int {
            return KEY_UP;
          } else if c == 'B' as int {
            return KEY_DOWN;
          } else if c == 'C' as int {
            return KEY_RIGHT;
          } else if c == 'D' as int {
            return KEY_LEFT;
          }
        case LetterO =>
          if c == 'F' as int {
            return KEY_END;
          }
        case Bracket1 =>
          if c == '~' as int {
            return KEY_HOME;
          }
        case Bracket3 =>
          if c == '~' as int {
            return KEY_DEL;
          }
        case Bracket4 =>
          if c == '~' as int {
            return KEY_END;
          }
        case _ =>
      }
      escape := if Letter(c) || c == '~' as int then Outside else BadSequence;
    }

    // The keys that move the cursor.
    method HandleCursorKey(key: int)
      requires Valid()
      modifies this`inputPos, this`sent
      ensures Valid() && Abs() == CursorKey(old(Abs()), key)
    {
      if key == CTRL_A || key == KEY_HOME {
        MoveHome();
      } else if key == CTRL_B || key == KEY_LEFT {
        MoveCursorLeft();
      } else if key == CTRL_E || key == KEY_END {
        MoveCursorEnd();
      } else if key == CTRL_F || key == KEY_RIGHT {
        MoveCursorRight();
      }
    }

    method HandleKey(key: int)
      requires Valid()
      modifies this, buf, history
      ensures Valid() && Abs() == Key(old(Abs()), buf.Length, key)
      ensures key == 0x0C ==> Screen().line == [0x3E, 0x20] + Left() + Right()
    {
      if key == KEY_DEL {
        if inputPos != inputLen {
          MoveCursorRight();
          HandleBackspace();
        }
      } else if key == BS as int || key == RUBOUT {
        HandleBackspace();
      } else if key == CTRL_C {
        CancelLine();
      } else if key == LF as int {
        EnterLine();
      } else if key == CTRL_K {
        KillToEnd();
      } else if key == CTRL_L {
        Refresh();
      } else if key == CTRL_P || key == KEY_UP {
        HistoryPrevious();
      } else if key == CTRL_N || key == KEY_DOWN {
        HistoryFollowing();
      } else if 0x20 <= key <= 0x7E {
        InsertChar(key);
      } else {
        HandleCursorKey(key);
      }
    }

    /** A character behind the translation of line ends: part of an escape sequence, or a key. */
    method HandleInput(ch: int)
      requires Valid()
      modifies this, buf, history
      ensures Valid() && Abs() == Input(old(Abs()), buf.Length, ch)
      ensures ch == 0x0C && old(escape) == Outside ==> Screen().line == [0x3E, 0x20] + Left() + Right()
    {
      var c := ch;
      if c == ESC as int {
        escape := Start;
        return;
      } else if escape != Outside {
        c := HandleEsc(c);
        if c != EATEN {
          escape := Outside;
        }
      }
      HandleKey(c);
    }

    /** One character from the terminal. */
    method HandleChar(ch: byte)
      requires Valid()
      modifies this, buf, history
      ensures Valid() && Abs() == Receive(old(Abs()), buf.Length, ch)
      ensures ch == 0x0C && old(escape) == Outside ==> Screen().line == [0x3E, 0x20] + Left() + Right()
    {
      var c: int := ch;
      if c == CR {
        lastWasCr := true;
        c := LF as int;
      } else if c == LF as int && lastWasCr {
        lastWasCr := false;
        return;
      } else {
        lastWasCr := false;
      }
      HandleInput(c);
    }

    /** Whatever is typed, the terminal shows the line that the keys make. */
    method HandleAll(keys: seq<byte>)
      requires Valid()
      modifies this, buf, history
      ensures Valid() && Abs() == LineEditor.Run(old(Abs()), buf.Length, keys)
      ensures Shows(Screen(), Left(), Right())
    {
      ghost var start := Abs();
      for i := 0 to |keys|
        invariant Valid() && Abs() == LineEditor.Run(start, buf.Length, keys[..i])
      {
        assert keys[..i + 1][..i] == keys[..i];
        HandleChar(keys[i]);
      }
      assert keys[..|keys|] == keys;
    }
  }

  /** Deleting the byte in front of `pos` from a terminated line of `len` bytes. */
  lemma DeletedAt(m: seq<byte>, pos: nat, len: nat)
    requires 0 < pos <= len < |m| && m[len] == 0
    ensures m[..pos - 1] + m[pos..len] + [0] <= Moved(m, pos - 1, pos, len - pos + 1)
  {
    assert m[pos..len + 1] == m[pos..len] + [0];
  }

  lemma CutAt(m: seq<byte>, len: nat)
    requires len < |m|
    ensures m[..len] + [] + [0] <= m[len := 0]
  {
  }

  /** Inserting a byte at `pos`, when the rest of the line has been moved up unless it is empty. */
  lemma InsertedAt(m: seq<byte>, moved: seq<byte>, pos: nat, len: nat, c: byte)
    requires pos <= len && len + 1 < |m|
    requires moved == if pos < len then Moved(m, pos + 1, pos, len - pos + 1) else m
    ensures |moved| == |m| && m[..pos] + [c] + m[pos..len] + [0] <= moved[pos := c][len + 1 := 0]
  {
  }

  lemma OverwrittenNothing(t: Screen)
    requires t.col <= |t.line|
    ensures Overwritten(t, []) == t && Back(t, 0) == t
  {
    assert t.line[..t.col] + [] + t.line[t.col..] == t.line;
  }
}
