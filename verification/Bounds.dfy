/** Which cells the editing routines touch for one read, and that `Defined` is exactly
    staying inside the buffers and leaving the line terminated. */
module Bounds {
  import opened Bytes
  import opened CStrings
  import opened LineEditor
  import opened TelnetMgr

  /** The cells `from`, ..., `to - 1` of a buffer; none when the two are equal. */
  datatype Cells = Cells(from: int, to: int)

  const NONE: Cells := Cells(0, 0)

  predicate Within(c: Cells, size: nat) {
    c.from == c.to || (0 <= c.from && c.to <= size)
  }

  /** The cells `memmove` reads and writes. */
  function Moved(dst: int, src: int, n: nat): Cells {
    Cells(if dst < src then dst else src, (if dst < src then src else dst) + n)
  }

  /** The line buffer: the byte-by-byte append with its terminators has no guard,
      `insert_char` moves the end of the line up and `keyboard_backsapce` moves it down. */
  function LineCells(s: State, k: Key): Cells {
    var len, m := |s.line|, s.moveLeft;
    match k
    case Text(bytes) =>
      if !InsideLine(s) then Cells(len, len + |bytes| + 1)
      else if 0 < m <= len < MAX_CMD_LEN then Moved(len - m + 1, len - m, m)
      else NONE
    case Erase =>
      if len == m || len == 0 then NONE
      else if m > 0 then Moved(len - 1 - m, len - m, m)
      else Cells(len - 1, len)
    case _ => NONE
  }

  /** The entry a vertical arrow goes to, if it goes anywhere. */
  function SlotCells(s: State, k: Key): Cells {
    if k.Up? && s.index != 0 then Cells(s.index - 1, s.index)
    else if k.Down? && s.index != |s.history| then Cells(s.index + 1, s.index + 2)
    else NONE
  }

  /** The buffer CR, prompt and entry are printed into, with the terminator. */
  function PrintCells(s: State, k: Key): Cells {
    var slot := SlotCells(s, k);
    if slot == NONE || slot.from < 0 then NONE
    else Cells(0, 1 + |PROMPT| + |Entry(s.history, slot.from)| + 1)
  }

  /** An insertion that acts leaves a terminator in the buffer. */
  predicate StaysTerminated(s: State, k: Key)
    requires Inv(s) && Typed(k)
  {
    k.Text? && InsideLine(s) && s.moveLeft <= |s.line| ==>
      NUL in Inserted(Padded(s.line, MAX_CMD_LEN), |s.line|, s.moveLeft, k.bytes[0])
  }

  lemma RoomForTerminator(s: State, k: Key)
    requires Inv(s) && Typed(k) && k.Text? && InsideLine(s) && s.moveLeft <= |s.line|
    ensures StaysTerminated(s, k) <==> |s.line| + 1 < MAX_CMD_LEN
  {
    var c, buf := k.bytes[0], Padded(s.line, MAX_CMD_LEN);
    assert c in k.bytes;
    if |s.line| + 1 < MAX_CMD_LEN {
      assert Inserted(buf, |s.line|, s.moveLeft, c)[|s.line| + 1] == NUL;
    } else {
      FullLineLosesTerminator(s.line, s.moveLeft, c);
    }
  }

  /** The defined reads of an open session are those that touch only cells of the line
      buffer, the print buffer and the slots, and leave the line terminated. */
  lemma DefinedExactly(s: State, k: Key)
    requires Inv(s) && s.open && Typed(k)
    ensures Defined(s, k) <==>
            && Within(LineCells(s, k), MAX_CMD_LEN)
            && Within(PrintCells(s, k), MAX_CMD_LEN)
            && Within(SlotCells(s, k), MAX_CMD_HISTORY_NUM)
            && StaysTerminated(s, k)
  {
    if k.Text? && InsideLine(s) && s.moveLeft <= |s.line| {
      RoomForTerminator(s, k);
    }
  }
}
