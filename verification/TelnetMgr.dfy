/** The session of one client: the manager structure, the line buffer it edits in
    place, and the input loop.  `sent` stands for the bytes written to the socket. */
module TelnetMgr {
  import opened Bytes
  import opened CStrings
  import opened LineEditor
  import opened Seqs

  /** One history slot: a line buffer and the length stored with it. */
  datatype InCmd = InCmd(cmd: seq<byte>, size: nat)

  const EMPTY_SLOT: InCmd := InCmd(Zeros(MAX_CMD_LEN), 0)

  function Slot(line: seq<byte>): (r: InCmd)
    requires |line| <= MAX_CMD_LEN
    ensures r.size == |line|
  {
    InCmd(Padded(line, MAX_CMD_LEN), |line|)
  }

  /** The slots that hold a history: its lines in order, then untouched slots. */
  ghost predicate SlotsHold(queue: seq<InCmd>, history: seq<seq<byte>>) {
    && |history| <= |queue| == MAX_CMD_HISTORY_NUM
    && (forall i :: 0 <= i < |history| ==> |history[i]| < MAX_CMD_LEN && queue[i] == Slot(history[i]))
    && (forall i :: |history| <= i < |queue| ==> queue[i] == EMPTY_SLOT)
  }

  /** The buffer holds the line and zeros up to its end. */
  ghost predicate LineHeld(a: array<byte>, line: seq<byte>)
    reads a
  {
    a.Length == MAX_CMD_LEN && Storable(line) && a[..] == Padded(line, MAX_CMD_LEN)
  }

  lemma HeldString(a: array<byte>, line: seq<byte>)
    requires LineHeld(a, line)
    ensures StrLen(a[..]) == |line| && CStr(a[..]) == line && a[..|line|] == line
    ensures NUL in a[..]
  {
    CStrOfPadded(line, MAX_CMD_LEN);
    assert a[..][|line|] == NUL;
  }

  lemma SlotString(queue: seq<InCmd>, history: seq<seq<byte>>, i: nat)
    requires SlotsHold(queue, history) && i < |queue| && NUL !in Entry(history, i)
    ensures CStr(queue[i].cmd) == Entry(history, i)
  {
    if i < |history| {
      CStrOfPadded(history[i], MAX_CMD_LEN);
    } else {
      StrLenIs(Zeros(MAX_CMD_LEN), 0);
    }
  }

  /** `sprintf(buf, "\r%s%s", prompt, line)`. */
  method Sprintf(buf: array<byte>, prompt: seq<byte>, line: seq<byte>)
    requires 1 + |prompt| + |line| < buf.Length && NUL !in prompt && NUL !in line
    modifies buf
    ensures NUL in buf[..] && CStr(buf[..]) == [CR] + prompt + line
  {
    var text := [CR] + prompt + line;
    Strcpy(buf, text);
    CStrOfStored(old(buf[..]), text);
    assert buf[..][|text|] == NUL;
  }

  /** `sprintf("%s")` into a zeroed line buffer. */
  method StoreLine(a: array<byte>, line: seq<byte>)
    requires a.Length == MAX_CMD_LEN && a[..] == Zeros(MAX_CMD_LEN) && Storable(line)
    modifies a
    ensures LineHeld(a, line)
  {
    StoredInZeros(line, MAX_CMD_LEN);
    Strcpy(a, line);
  }

  // ---------- The two moves inside the line buffer ----------

  /** The buffer after `insert_char` moved the last `m` bytes of the line and stored
      `c`; the byte behind the line is not written. */
  function Inserted(buf: seq<byte>, len: nat, m: nat, c: byte): (r: seq<byte>)
    requires m <= len < |buf|
    ensures |r| == |buf|
  {
    buf[..len - m] + [c] + buf[len - m..len] + buf[len + 1..]
  }

  /** `memmove` by one place, then the store into the gap. */
  lemma StoreInGap(buf: seq<byte>, len: nat, m: nat, c: byte)
    requires m <= len < |buf|
    ensures (buf[..len - m + 1] + buf[len - m..len] + buf[len + 1..])[len - m := c] == Inserted(buf, len, m, c)
  {
  }

  /** Inserting leaves a string, one byte longer, exactly when there is room for its
      terminator and the byte behind the old one is zero already. */
  lemma InsertedIsTerminated(buf: seq<byte>, n: nat, m: nat, c: byte)
    requires n < |buf| && StrLen(buf) == n && m <= n && c != NUL
    ensures var after := Inserted(buf, n, m, c);
      NUL in after && StrLen(after) == n + 1 <==> n + 1 < |buf| && buf[n + 1] == NUL
  {
    var after := Inserted(buf, n, m, c);
    if n + 1 < |buf| {
      InsertedCells(buf, n, m, c);
      if buf[n + 1] == NUL {
        StrLenIs(after, n + 1);
      }
    } else {
      InsertedFull(buf, m, c);
    }
  }

  /** Into a buffer with room for nothing but the terminator: the terminator goes. */
  lemma InsertedFull(buf: seq<byte>, m: nat, c: byte)
    requires buf != [] && m < |buf| && c != NUL
    requires forall i :: 0 <= i < |buf| - 1 ==> buf[i] != NUL
    ensures NUL !in Inserted(buf, |buf| - 1, m, c)
  {
  }

  /** The length the guard of `insert_char` still admits: 255 bytes in the line. */
  lemma FullLineLosesTerminator(line: seq<byte>, m: nat, c: byte)
    requires Storable(line) && |line| == MAX_CMD_LEN - 1 && m <= |line| && c != NUL
    ensures NUL !in Inserted(Padded(line, MAX_CMD_LEN), |line|, m, c)
  {
    InsertedFull(Padded(line, MAX_CMD_LEN), m, c);
  }

  lemma InsertedCells(buf: seq<byte>, n: nat, m: nat, c: byte)
    requires n + 1 < |buf| && m <= n && c != NUL
    requires forall i :: 0 <= i < n ==> buf[i] != NUL
    ensures var after := Inserted(buf, n, m, c);
      after[n + 1] == buf[n + 1] && forall i :: 0 <= i < n + 1 ==> after[i] != NUL
  {
  }

  lemma InsertedInLine(line: seq<byte>, m: nat, c: byte)
    requires Storable(line) && |line| + 1 < MAX_CMD_LEN && m <= |line| && c != NUL
    ensures Storable(InsertAt(line, m, c))
    ensures Inserted(Padded(line, MAX_CMD_LEN), |line|, m, c) == Padded(InsertAt(line, m, c), MAX_CMD_LEN)
  {
  }

  /** The buffer after `keyboard_backsapce` closed the gap and cut the end. */
  function Deleted(buf: seq<byte>, len: nat, m: nat): (r: seq<byte>)
    requires m < len <= |buf|
    ensures |r| == |buf|
  {
    buf[..len - 1 - m] + buf[len - m..len] + [NUL] + buf[len..]
  }

  /** `memmove` by one place, then the store of the terminator. */
  method CloseGap(cmd: array<byte>, len: nat, m: nat)
    requires m < len <= cmd.Length
    modifies cmd
    ensures cmd[..] == Deleted(old(cmd[..]), len, m)
    ensures cmd[len - 1 - m..len - 1] == old(cmd[len - m..len])
  {
    Memmove(cmd, len - 1 - m, len - m, m);
    cmd[len - 1] := NUL;
  }

  method CutEnd(cmd: array<byte>, len: nat)
    requires 0 < len <= cmd.Length
    modifies cmd
    ensures cmd[..] == Deleted(old(cmd[..]), len, 0)
  {
    cmd[len - 1] := NUL;
  }

  lemma DeletedInLine(line: seq<byte>, m: nat)
    requires Storable(line) && m < |line|
    ensures Storable(DeleteAt(line, m))
    ensures Deleted(Padded(line, MAX_CMD_LEN), |line|, m) == Padded(DeleteAt(line, m), MAX_CMD_LEN)
    ensures Padded(line, MAX_CMD_LEN)[|line| - m..|line|] == line[|line| - m..]
  {
  }

  lemma CommitTakes(s: State, output: seq<byte>)
    requires s.line != [] && s.line[0] != CR
    ensures Commit(s) == Remember(s.(moveLeft := 0, recall := s.line), s.line).(
                           open := s.open && !Leaves(s.line), line := if Leaves(s.line) then s.line else [])
    ensures EchoEnter(s, output) == CRLF + if Leaves(s.line) then [] else output + NEW_PROMPT
  {
    assert CRLF + [] == CRLF;
    Reassociate(CRLF, output, NEW_PROMPT);
  }

  lemma TextResult(s: State, chunk: seq<byte>)
    requires Defined(s, Text(chunk)) && Typed(Text(chunk))
    ensures InsideLine(s) ==>
              && Press(s, Text(chunk)).line == (if s.moveLeft <= |s.line| then InsertAt(s.line, s.moveLeft, chunk[0]) else s.line)
              && EchoText(s, chunk) == EchoInsert(s.line, s.moveLeft, chunk[0]) + EchoStepBack(s.moveLeft, chunk[0])
              && chunk[0] != NUL
    ensures !InsideLine(s) ==> Press(s, Text(chunk)).line == s.line + chunk && EchoText(s, chunk) == chunk
  {
    assert chunk[0] in chunk;
  }

  /** The clamp behind the counter's increment. */
  function AtMost(n: nat, limit: nat): nat {
    if n > limit then limit else n
  }

  // ---------- The manager ----------

  class Manager {
    const queueCmd: array<InCmd>
    var allCmdNum: nat
    var hasInputCmdNum: nat
    var cmdIndex: nat
    var moveLeftNum: nat
    const gCmd: array<byte>
    var connected: bool
    var sent: seq<byte>

    ghost predicate Keeps(recall: seq<byte>, history: seq<seq<byte>>, index: nat, moveLeft: nat, open: bool)
      reads this, gCmd, queueCmd
    {
      && queueCmd.Length == MAX_CMD_HISTORY_NUM
      && SlotsHold(queueCmd[..], history)
      && allCmdNum == hasInputCmdNum == |history|
      && cmdIndex == index
      && moveLeftNum == moveLeft
      && LineHeld(gCmd, recall)
      && connected == open
    }

    /** Everything but the line itself. */
    ghost predicate Holds(s: State)
      reads this, gCmd, queueCmd
    {
      Keeps(s.recall, s.history, s.index, s.moveLeft, s.open)
    }

    /** The session's memory is the editing state `s`. */
    ghost predicate Represents(cmd: array<byte>, s: State)
      reads this, gCmd, queueCmd, cmd
    {
      cmd != gCmd && Inv(s) && Holds(s) && LineHeld(cmd, s.line)
    }

    constructor ()
      ensures Holds(FRESH) && sent == []
      ensures fresh(queueCmd) && fresh(gCmd)
    {
      queueCmd := new InCmd[MAX_CMD_HISTORY_NUM](_ => EMPTY_SLOT);
      gCmd := new byte[MAX_CMD_LEN](_ => NUL);
      allCmdNum, hasInputCmdNum, cmdIndex, moveLeftNum := 0, 0, 0, 0;
      connected, sent := true, [];
    }

    method Send(data: seq<byte>)
      modifies this`sent
      ensures sent == old(sent) + data
    {
      sent := sent + data;
    }

    method UpdateHistoryCmd(cmd: array<byte>, ghost s: State)
      requires Holds(s) && LineHeld(cmd, s.line) && |s.history| <= MAX_CMD_HISTORY_NUM
      modifies this`allCmdNum, this`hasInputCmdNum, this`cmdIndex, queueCmd
      ensures Holds(Remember(s, s.line))
    {
      if hasInputCmdNum >= MAX_CMD_HISTORY_NUM {
        return;
      }
      HeldString(cmd, s.line);
      StoredInZeros(s.line, MAX_CMD_LEN);
      var n := hasInputCmdNum;
      var len := Strlen(cmd);
      queueCmd[n] := InCmd(Stored(queueCmd[n].cmd, cmd[..len]), len);
      hasInputCmdNum := hasInputCmdNum + 1;
      hasInputCmdNum := AtMost(hasInputCmdNum, MAX_CMD_HISTORY_NUM);
      allCmdNum := hasInputCmdNum;
      cmdIndex := hasInputCmdNum;
    }

    /** Prints the prompt and slot `i` over the row and copies it to `gCmd`. */
    method Recall(i: nat, ghost history: seq<seq<byte>>)
      requires i < queueCmd.Length && SlotsHold(queueCmd[..], history)
      requires gCmd.Length == MAX_CMD_LEN && Printable(Entry(history, i)) && NUL !in Entry(history, i)
      modifies this`sent, gCmd
      ensures LineHeld(gCmd, Entry(history, i))
      ensures sent == old(sent) + EchoLoad(Entry(history, i))
    {
      SlotString(queueCmd[..], history, i);
      var line := CStr(queueCmd[i].cmd);
      assert line == Entry(history, i);
      Memset(gCmd);
      Send(CLEAR_LEFT_CHAR);
      PaintRow(line);
      Reassociate(old(sent), CLEAR_LEFT_CHAR, [CR] + PROMPT + line);
      StoreLine(gCmd, line);
    }

    method PaintRow(line: seq<byte>)
      requires Printable(line) && NUL !in line
      modifies this`sent
      ensures sent == old(sent) + ([CR] + PROMPT + line)
    {
      var buf := new byte[MAX_CMD_LEN](_ => NUL);
      assert buf[..] == Zeros(MAX_CMD_LEN);
      Sprintf(buf, PROMPT, line);
      var n := Strlen(buf);
      Send(buf[..n]);
    }

    method KeyboardMoveUp(ghost s: State)
      requires Inv(s) && Holds(s) && Defined(s, Up)
      modifies this, gCmd
      ensures Holds(Press(s, Up))
      ensures sent == old(sent) + Echo(s, Up)
    {
      moveLeftNum := 0;
      if cmdIndex == 0 {
        return;
      }
      Recall(cmdIndex - 1, s.history);
      cmdIndex := cmdIndex - 1;
    }

    method KeyboardMoveDown(ghost s: State)
      requires Inv(s) && Holds(s) && Defined(s, Down)
      modifies this, gCmd
      ensures Holds(Press(s, Down))
      ensures sent == old(sent) + Echo(s, Down)
    {
      moveLeftNum := 0;
      if cmdIndex == hasInputCmdNum {
        return;
      }
      Recall(cmdIndex + 1, s.history);
      cmdIndex := cmdIndex + 1;
    }

    method KeyboardMoveLeft(len: nat, ghost s: State)
      requires Holds(s) && s.open && len == |s.line|
      modifies this`moveLeftNum, this`sent
      ensures Holds(Press(s, Left))
      ensures sent == old(sent) + Echo(s, Left)
    {
      if moveLeftNum >= len {
        return;
      }
      Send(MOVE_LEFT);
      moveLeftNum := moveLeftNum + 1;
    }

    method KeyboardMoveRight(ghost s: State)
      requires Holds(s) && s.open
      modifies this`moveLeftNum, this`sent
      ensures Holds(Press(s, Right))
      ensures sent == old(sent) + Echo(s, Right)
    {
      if moveLeftNum > 0 {
        Send(MOVE_RIGHT);
        moveLeftNum := moveLeftNum - 1;
      } else {
        return;
      }
    }

    /** Beyond `len` the original would move bytes in front of the buffer. */
    method KeyboardBackspace(cmd: array<byte>, len: nat, ghost line: seq<byte>)
      requires LineHeld(cmd, line) && len == |line| && (len == 0 || moveLeftNum <= len)
      modifies this`sent, cmd
      ensures LineHeld(cmd, if len == 0 || moveLeftNum == len then line else DeleteAt(line, moveLeftNum))
      ensures sent == old(sent) + EchoBackspace(line, moveLeftNum)
    {
      if len <= 0 || moveLeftNum == len {
        return;
      }
      DeletedInLine(line, moveLeftNum);
      if moveLeftNum > 0 {
        Reassociate(old(sent), CLEAR_RIGHT_CHAR, line[len - moveLeftNum..]);
        BackspaceInside(cmd, len);
      } else {
        CutEnd(cmd, len);
        Send([SPACE]);
      }
    }

    method BackspaceInside(cmd: array<byte>, len: nat)
      requires 0 < moveLeftNum < len <= cmd.Length
      modifies this`sent, cmd
      ensures cmd[..] == Deleted(old(cmd[..]), len, moveLeftNum)
      ensures sent == (old(sent) + CLEAR_RIGHT_CHAR) + old(cmd[..])[len - moveLeftNum..len]
    {
      Send(CLEAR_RIGHT_CHAR);
      CloseGap(cmd, len, moveLeftNum);
      Send(cmd[len - 1 - moveLeftNum..len - 1]);
    }

    method InsertChar(cmd: array<byte>, len: nat, c: byte)
      requires cmd.Length == MAX_CMD_LEN
      modifies this`sent, cmd
      ensures var acts, was, m := 0 < moveLeftNum <= len < 256, old(cmd[..]), moveLeftNum;
        && cmd[..] == (if acts then was[..len - m] + [c] + was[len - m..len] + was[len + 1..] else was)
        && sent == old(sent) + if acts then INSERT_BLANK + [c] else []
    {
      if len <= 0 || len > MAX_CMD_LEN - 1 {
        return;
      }
      if moveLeftNum > 0 && moveLeftNum <= len {
        ghost var was := cmd[..];
        Memmove(cmd, len - moveLeftNum + 1, len - moveLeftNum, moveLeftNum);
        cmd[len - moveLeftNum] := c;
        StoreInGap(was, len, moveLeftNum, c);
        Send(INSERT_BLANK);
        Send(cmd[len - moveLeftNum..len - moveLeftNum + 1]);
        return;
      }
    }

    // ---------- One read ----------

    method OnClear(cmd: array<byte>, before: seq<byte>)
      requires cmd.Length == MAX_CMD_LEN
      modifies this`sent, cmd
      ensures LineHeld(cmd, []) && sent == old(sent) + before + NEW_PROMPT
    {
      Send(before);
      Memset(cmd);
      Send(NEW_PROMPT);
      assert [] + Zeros(MAX_CMD_LEN) == Zeros(MAX_CMD_LEN);
    }

    /** `memset` and `strcpy` from the recall buffer. */
    method CopyLine(to: array<byte>, from: array<byte>, ghost line: seq<byte>)
      requires to != from && to.Length == MAX_CMD_LEN && LineHeld(from, line)
      modifies to
      ensures LineHeld(to, line)
    {
      Memset(to);
      HeldString(from, line);
      var n := Strlen(from);
      StoreLine(to, from[..n]);
    }

    method OnErase(cmd: array<byte>, ghost s: State)
      requires LineHeld(cmd, s.line) && moveLeftNum == s.moveLeft && Defined(s, Erase)
      modifies this`sent, cmd
      ensures LineHeld(cmd, Press(s, Erase).line) && sent == old(sent) + EchoErase(s)
    {
      HeldString(cmd, s.line);
      var len := Strlen(cmd);
      if len == moveLeftNum {
        return;
      }
      Send(RUB_OUT);
      KeyboardBackspace(cmd, len, s.line);
      SendLefts();
      Written3(old(sent), RUB_OUT, EchoBackspace(s.line, s.moveLeft), EchoLefts(s.moveLeft));
    }

    method SendLefts()
      modifies this`sent
      ensures sent == old(sent) + EchoLefts(moveLeftNum)
    {
      if moveLeftNum > 0 {
        for i := 0 to moveLeftNum
          invariant sent == old(sent) + Repeat(MOVE_LEFT, i)
        {
          Send(MOVE_LEFT);
        }
      } else {
        Send(MOVE_LEFT);
      }
    }

    method ResetCursor(ghost s: State)
      requires Holds(s)
      modifies this`moveLeftNum
      ensures Keeps(s.recall, s.history, s.index, 0, s.open)
    {
      moveLeftNum := 0;
    }

    method OnEnter(cmd: array<byte>, output: seq<byte>, ghost s: State)
      requires cmd != gCmd && Holds(s) && LineHeld(cmd, s.line)
      requires s.open && |s.history| <= MAX_CMD_HISTORY_NUM
      modifies this, gCmd, queueCmd, cmd
      ensures Holds(Entered(s)) && LineHeld(cmd, Entered(s).line)
      ensures sent == old(sent) + EchoEnter(s, output)
    {
      HeldString(cmd, s.line);
      ResetCursor(s);
      var n := Strlen(cmd);
      if n == 0 {
        assert Entered(s) == s.(moveLeft := 0) && EchoEnter(s, output) == NEW_PROMPT;
        Send(NEW_PROMPT);
      } else {
        assert Entered(s) == Commit(s);
        OnSubmit(cmd, output, s);
      }
    }

    method OnSubmit(cmd: array<byte>, output: seq<byte>, ghost s: State)
      requires cmd != gCmd && Keeps(s.recall, s.history, s.index, 0, s.open) && LineHeld(cmd, s.line)
      requires s.open && |s.history| <= MAX_CMD_HISTORY_NUM && s.line != []
      modifies this, gCmd, queueCmd, cmd
      ensures Holds(Commit(s)) && LineHeld(cmd, Commit(s).line)
      ensures sent == old(sent) + EchoEnter(s, output)
    {
      CopyLine(gCmd, cmd, s.line);
      Send(CRLF);
      assert cmd[0] == Padded(s.line, MAX_CMD_LEN)[0] == s.line[0];
      if cmd[0] != CR {
        Reassociate(old(sent), CRLF, if Leaves(s.line) then [] else output + NEW_PROMPT);
        CommitTakes(s, output);
        OnCommit(cmd, output, s.(moveLeft := 0, recall := s.line));
      }
    }

    method OnCommit(cmd: array<byte>, output: seq<byte>, ghost s: State)
      requires cmd != gCmd && Holds(s) && LineHeld(cmd, s.line)
      requires s.open && |s.history| <= MAX_CMD_HISTORY_NUM
      modifies this, queueCmd, cmd
      ensures Holds(Remember(s, s.line).(open := !Leaves(s.line)))
      ensures LineHeld(cmd, if Leaves(s.line) then s.line else [])
      ensures sent == old(sent) + if Leaves(s.line) then [] else output + NEW_PROMPT
    {
      HeldString(cmd, s.line);
      var n := Strlen(cmd);
      var leaving := Leaves(cmd[..n]);
      UpdateHistoryCmd(cmd, s);
      if leaving {
        connected := false;
        return;
      }
      Reassociate(old(sent), output, NEW_PROMPT);
      OnClear(cmd, output);
    }

    method OnText(cmd: array<byte>, chunk: seq<byte>, ghost s: State)
      requires LineHeld(cmd, s.line) && moveLeftNum == s.moveLeft
      requires Defined(s, Text(chunk)) && Typed(Text(chunk))
      modifies this`sent, cmd
      ensures LineHeld(cmd, Press(s, Text(chunk)).line) && sent == old(sent) + EchoText(s, chunk)
    {
      HeldString(cmd, s.line);
      TextResult(s, chunk);
      var len := Strlen(cmd);
      if moveLeftNum > 0 && len > 0 {
        OnTextInside(cmd, len, chunk[0], s.line);
      } else {
        Send(chunk);
        Append(cmd, chunk, s.line);
      }
    }

    method OnTextInside(cmd: array<byte>, len: nat, c: byte, ghost line: seq<byte>)
      requires LineHeld(cmd, line) && len == |line| && c != NUL && moveLeftNum > 0
      requires moveLeftNum <= len ==> len + 1 < MAX_CMD_LEN
      modifies this`sent, cmd
      ensures LineHeld(cmd, if moveLeftNum <= len then InsertAt(line, moveLeftNum, c) else line)
      ensures sent == old(sent) + (EchoInsert(line, moveLeftNum, c) + EchoStepBack(moveLeftNum, c))
    {
      InsertChar(cmd, len, c);
      if moveLeftNum <= len {
        InsertedInLine(line, moveLeftNum, c);
      }
      Reassociate(old(sent), EchoInsert(line, moveLeftNum, c), EchoStepBack(moveLeftNum, c));
      if !(SPACE <= c <= DEL) {
        Send(EchoStepBack(moveLeftNum, c));
      }
    }

    method Append(cmd: array<byte>, chunk: seq<byte>, ghost line: seq<byte>)
      requires LineHeld(cmd, line) && |line| + |chunk| < MAX_CMD_LEN && NUL !in chunk
      modifies cmd
      ensures LineHeld(cmd, line + chunk)
    {
      assert chunk[..0] == [] && line + [] == line;
      for ii := 0 to |chunk|
        invariant LineHeld(cmd, line + chunk[..ii])
      {
        HeldString(cmd, line + chunk[..ii]);
        var jj := Strlen(cmd);
        cmd[jj] := chunk[ii];
        cmd[jj + 1] := NUL;
        assert chunk[..ii + 1] == chunk[..ii] + [chunk[ii]];
        assert cmd[..] == Padded(line + chunk[..ii + 1], MAX_CMD_LEN);
      }
      assert chunk[..|chunk|] == chunk;
    }

    method OnBrowse(cmd: array<byte>, k: Key, ghost s: State)
      requires cmd != gCmd && Inv(s) && Holds(s) && cmd.Length == MAX_CMD_LEN
      requires Defined(s, k) && (k.Up? || k.Down?)
      modifies this, gCmd, cmd
      ensures Holds(Press(s, k)) && LineHeld(cmd, Press(s, k).line)
      ensures sent == old(sent) + Echo(s, k)
    {
      if k.Up? {
        KeyboardMoveUp(s);
      } else {
        KeyboardMoveDown(s);
      }
      CopyLine(cmd, gCmd, Press(s, k).recall);
    }

    method OnNotice(cmd: array<byte>, k: Key, ghost s: State)
      requires LineHeld(cmd, s.line) && Defined(s, k)
      requires k.Interrupt? || k.ClearScreen? || k.Help? || k.Complete?
      modifies this`sent, cmd
      ensures LineHeld(cmd, Press(s, k).line)
      ensures sent == old(sent) + Echo(s, k)
    {
      if k.Interrupt? || k.ClearScreen? {
        var notice := if k.Interrupt? then Ascii("^C") else CLEAR_TERM + LOC_START + CLEAR_LINE;
        Reassociate(sent, notice, NEW_PROMPT);
        OnClear(cmd, notice);
      } else {
        var notice, prompt := if k.Help? then HELP_LINES else Ascii("help"), CRLF + CLEAR_RIGHT_CHAR + PROMPT;
        Reassociate(sent, notice, prompt);
        Send(notice);
        Send(prompt);
      }
    }

    /** What the input loop does on one classified read. */
    method HandleKey(cmd: array<byte>, k: Key, ghost s: State)
      requires Represents(cmd, s) && Typed(k) && Defined(s, k)
      modifies this, gCmd, queueCmd, cmd
      ensures Represents(cmd, Press(s, k))
      ensures sent == old(sent) + Echo(s, k)
    {
      InvStep(s, k);
      if k.Up? || k.Down? {
        OnBrowse(cmd, k, s);
      } else if k.Interrupt? || k.ClearScreen? || k.Help? || k.Complete? {
        OnNotice(cmd, k, s);
      } else if k.Right? {
        KeyboardMoveRight(s);
      } else if k.Left? {
        HeldString(cmd, s.line);
        var len := Strlen(cmd);
        KeyboardMoveLeft(len, s);
      } else if k.Erase? {
        OnErase(cmd, s);
      } else if k.Enter? {
        OnEnter(cmd, k.output, s);
      } else if k.Text? {
        OnText(cmd, k.bytes, s);
      }
    }
  }

  // ---------- What the memory holds, cell by cell ----------

  ghost predicate CellsSpell(buf: seq<byte>, line: seq<byte>) {
    && |buf| == 256 && |line| < 256
    && (forall i :: 0 <= i < |line| ==> buf[i] == line[i] != 0)
    && (forall i :: |line| <= i < 256 ==> buf[i] == 0)
  }

  lemma HeldCells(line: seq<byte>)
    requires Storable(line)
    ensures CellsSpell(Padded(line, MAX_CMD_LEN), line)
  {
    assert forall i :: 0 <= i < |line| ==> line[i] in line;
  }

  /** Every stored size is the length of the string in its slot, and the slots behind
      the history are zero. */
  lemma SlotSizes(queue: seq<InCmd>, history: seq<seq<byte>>)
    requires SlotsHold(queue, history)
    requires forall i :: 0 <= i < |history| ==> Storable(history[i])
    ensures |queue| == 500
    ensures forall i :: 0 <= i < |history| ==>
                          && CellsSpell(queue[i].cmd, history[i])
                          && queue[i].size == StrLen(queue[i].cmd) == |history[i]|
    ensures forall i :: |history| <= i < 500 ==> CellsSpell(queue[i].cmd, []) && queue[i].size == 0
  {
    forall i | 0 <= i < |history|
      ensures CellsSpell(queue[i].cmd, history[i])
      ensures queue[i].size == StrLen(queue[i].cmd) == |history[i]|
    {
      HeldCells(history[i]);
      CStrOfPadded(history[i], MAX_CMD_LEN);
    }
  }

  /** The memory that represents an editing state. */
  lemma RepresentedMemory(mgr: Manager, cmd: array<byte>, s: State)
    requires mgr.Represents(cmd, s)
    ensures cmd.Length == mgr.gCmd.Length == 256 && |s.line| < 256 && |s.recall| < 256
    ensures forall i :: 0 <= i < 256 ==> cmd[i] == if i < |s.line| then s.line[i] else 0
    ensures forall i :: 0 <= i < 256 ==> mgr.gCmd[i] == if i < |s.recall| then s.recall[i] else 0
    ensures mgr.queueCmd.Length == 500 && |s.history| <= 500
    ensures forall i :: 0 <= i < |s.history| ==>
                          && CellsSpell(mgr.queueCmd[i].cmd, s.history[i])
                          && mgr.queueCmd[i].size == StrLen(mgr.queueCmd[i].cmd) == |s.history[i]|
    ensures forall i :: |s.history| <= i < 500 ==>
                          CellsSpell(mgr.queueCmd[i].cmd, []) && mgr.queueCmd[i].size == 0
    ensures mgr.allCmdNum == mgr.hasInputCmdNum == |s.history|
    ensures mgr.cmdIndex == s.index && mgr.moveLeftNum == s.moveLeft && mgr.connected == s.open
  {
    HeldCells(s.line);
    HeldCells(s.recall);
    assert forall i :: 0 <= i < 256 ==> cmd[..][i] == cmd[i] && mgr.gCmd[..][i] == mgr.gCmd[i];
    SlotSizes(mgr.queueCmd[..], s.history);
    assert forall i :: 0 <= i < 500 ==> mgr.queueCmd[..][i] == mgr.queueCmd[i];
  }
}
