/** Laws of the line editor over single reads and over whole runs. */
module EditorLaws {
  import opened Bytes
  import opened LineEditor
  import opened Seqs

  // ---------- The cursor ----------

  predicate CursorInLine(s: State) {
    s.moveLeft <= |s.line|
  }

  /** Ctrl-C and Ctrl-L empty the line and forget the cursor. */
  predicate StrandsCursor(s: State, k: Key) {
    (k.Interrupt? || k.ClearScreen?) && s.moveLeft > 0
  }

  /** Exactly those two reads, with the cursor left of the end, lose the cursor. */
  lemma CursorStep(s: State, k: Key)
    requires Inv(s) && CursorInLine(s) && Defined(s, k) && Typed(k)
    ensures CursorInLine(Press(s, k)) <==> !StrandsCursor(s, k)
  {
  }

  /** What a stranded cursor does to the next two printable bytes: they come out in
      reverse order, or the second one is lost. */
  lemma StrandedTyping(s: State, c: byte, d: byte)
    requires s.open && s.line == [] && s.moveLeft > 0
    ensures Defined(s, Text([c])) && Defined(Press(s, Text([c])), Text([d]))
    ensures Press(Press(s, Text([c])), Text([d])).line == if s.moveLeft == 1 then [d, c] else [c]
  {
    assert Press(s, Text([c])) == s.(line := [c]);
  }

  /** Enter and the vertical arrows put a lost cursor back, from any state. */
  lemma CursorHeals(s: State, k: Key)
    requires Defined(s, k) && (k.Enter? || k.Up? || k.Down?)
    ensures Press(s, k).moveLeft == 0 && CursorInLine(Press(s, k))
  {
  }

  /** No read of the run strands the cursor. */
  predicate SteadyRun(s: State, ks: seq<Key>)
    requires DefinedRun(s, ks)
    decreases |ks|
  {
    ks == [] || (!StrandsCursor(s, ks[0]) && SteadyRun(Press(s, ks[0]), ks[1..]))
  }

  /** The cursor is in the line before every read and at the end. */
  predicate CursorInLineThroughout(s: State, ks: seq<Key>)
    requires DefinedRun(s, ks)
    decreases |ks|
  {
    CursorInLine(s) && (ks == [] || CursorInLineThroughout(Press(s, ks[0]), ks[1..]))
  }

  lemma {:induction false} CursorRun(s: State, ks: seq<Key>)
    requires Inv(s) && CursorInLine(s) && DefinedRun(s, ks) && TypedRun(ks)
    ensures CursorInLineThroughout(s, ks) <==> SteadyRun(s, ks)
    ensures SteadyRun(s, ks) ==> CursorInLine(Run(s, ks))
    decreases |ks|
  {
    if ks != [] {
      CursorStep(s, ks[0]);
      if CursorInLine(Press(s, ks[0])) {
        InvStep(s, ks[0]);
        CursorRun(Press(s, ks[0]), ks[1..]);
      }
    }
  }

  // ---------- Inverses ----------

  lemma DeleteInserted(line: seq<byte>, m: nat, c: byte)
    requires m <= |line|
    ensures DeleteAt(InsertAt(line, m, c), m) == line
  {
  }

  lemma InsertDeleted(line: seq<byte>, m: nat)
    requires m < |line|
    ensures InsertAt(DeleteAt(line, m), m, line[|line| - m - 1]) == line
  {
  }

  lemma AppendIsInsert(line: seq<byte>, c: byte)
    ensures line + [c] == InsertAt(line, 0, c)
  {
  }

  lemma TypedInserts(s: State, c: byte)
    requires s.open && CursorInLine(s) && |s.line| + 1 < MAX_CMD_LEN
    ensures Defined(s, Text([c])) && Press(s, Text([c])) == s.(line := InsertAt(s.line, s.moveLeft, c))
  {
    AppendIsInsert(s.line, c);
  }

  lemma ErasedDeletes(s: State)
    requires s.open && s.moveLeft < |s.line|
    ensures Defined(s, Erase) && Press(s, Erase) == s.(line := DeleteAt(s.line, s.moveLeft))
  {
  }

  /** A typed byte and Backspace leave nothing behind, at the end of the line and
      inside it alike. */
  lemma TypeThenErase(s: State, c: byte)
    requires Inv(s) && s.open && CursorInLine(s) && |s.line| + 1 < MAX_CMD_LEN
    requires Typed(Text([c]))
    ensures Defined(s, Text([c])) && Defined(Press(s, Text([c])), Erase)
    ensures Press(Press(s, Text([c])), Erase) == s
  {
    TypedInserts(s, c);
    ErasedDeletes(s.(line := InsertAt(s.line, s.moveLeft, c)));
    DeleteInserted(s.line, s.moveLeft, c);
  }

  /** Backspace is undone by typing the byte it removed. */
  lemma EraseThenType(s: State)
    requires Inv(s) && s.open && s.moveLeft < |s.line|
    ensures var c := s.line[|s.line| - s.moveLeft - 1];
      Defined(s, Erase) && Defined(Press(s, Erase), Text([c])) &&
      Press(Press(s, Erase), Text([c])) == s
  {
    ErasedDeletes(s);
    TypedInserts(s.(line := DeleteAt(s.line, s.moveLeft)), s.line[|s.line| - s.moveLeft - 1]);
    InsertDeleted(s.line, s.moveLeft);
  }

  lemma LeftThenRight(s: State)
    requires s.open && s.moveLeft < |s.line|
    ensures Press(Press(s, Left), Right) == s
  {
  }

  // ---------- What can be in the buffers ----------

  predicate Forbidden(b: byte) {
    b in {CR, TAB, QUESTION, BS, DEL, CTRL_C, CTRL_L}
  }

  predicate CleanLine(line: seq<byte>) {
    forall i :: 0 <= i < |line| ==> !Forbidden(line[i])
  }

  ghost predicate Clean(s: State) {
    && CleanLine(s.line) && CleanLine(s.recall)
    && forall i :: 0 <= i < |s.history| ==> CleanLine(s.history[i])
  }

  /** The bytes of one read that get into the line: inside the line only the first. */
  function Admitted(s: State, k: Key): seq<byte>
    requires Typed(k)
  {
    if !k.Text? then []
    else if !InsideLine(s) then k.bytes
    else if s.moveLeft <= |s.line| then k.bytes[..1]
    else []
  }

  lemma CleanConcat(a: seq<byte>, b: seq<byte>)
    ensures CleanLine(a + b) <==> CleanLine(a) && CleanLine(b)
  {
    if CleanLine(a + b) {
      assert forall i :: 0 <= i < |a| ==> a[i] == (a + b)[i];
      assert forall i :: 0 <= i < |b| ==> b[i] == (a + b)[|a| + i];
    }
  }

  lemma CleanSpliced(line: seq<byte>, at: nat, added: seq<byte>)
    requires CleanLine(line) && at <= |line|
    ensures CleanLine(line[..at] + added + line[at..]) <==> CleanLine(added)
  {
    CleanConcat(line[..at], added);
    CleanConcat(line[..at] + added, line[at..]);
  }

  /** The line after a read of text. */
  lemma TextSplices(s: State, k: Key)
    requires Defined(s, k) && Typed(k) && k.Text?
    ensures var at := if InsideLine(s) && s.moveLeft <= |s.line| then |s.line| - s.moveLeft else |s.line|;
      Press(s, k) == s.(line := s.line[..at] + Admitted(s, k) + s.line[at..])
  {
    if InsideLine(s) && s.moveLeft <= |s.line| {
      assert k.bytes[..1] == [k.bytes[0]];
    }
  }

  lemma CleanCommit(s: State)
    requires Clean(s)
    ensures Clean(Commit(s))
  {
    var history := s.history + [s.line];
    assert forall i :: 0 <= i < |history| ==> CleanLine(history[i]);
  }

  /** A control byte enters the buffers only as part of a longer read. */
  lemma CleanStep(s: State, k: Key)
    requires Inv(s) && Clean(s) && Defined(s, k) && Typed(k)
    ensures Clean(Press(s, k)) <==> CleanLine(Admitted(s, k))
    ensures k.Text? && |k.bytes| == 1 ==> CleanLine(Admitted(s, k))
  {
    if k.Text? {
      TextSplices(s, k);
      var at := if InsideLine(s) && s.moveLeft <= |s.line| then |s.line| - s.moveLeft else |s.line|;
      CleanSpliced(s.line, at, Admitted(s, k));
    } else if k.Enter? {
      CleanCommit(s);
    } else if k.Erase? {
      CleanErase(s);
    }
  }

  lemma CleanErase(s: State)
    requires Clean(s) && Defined(s, Erase)
    ensures Clean(Press(s, Erase))
  {
    if s.line != [] && s.moveLeft < |s.line| {
      CleanConcat(s.line[..|s.line| - s.moveLeft - 1], s.line[|s.line| - s.moveLeft..]);
    }
  }

  predicate OneKeyReads(ks: seq<Key>) {
    forall i :: 0 <= i < |ks| && ks[i].Text? ==> |ks[i].bytes| == 1
  }

  /** With one key per read the buffers stay clean for ever. */
  lemma {:induction false} CleanRun(s: State, ks: seq<Key>)
    requires Inv(s) && Clean(s) && DefinedRun(s, ks) && TypedRun(ks) && OneKeyReads(ks)
    ensures Clean(Run(s, ks))
    decreases |ks|
  {
    if ks != [] {
      CleanStep(s, ks[0]);
      InvStep(s, ks[0]);
      CleanRun(Press(s, ks[0]), ks[1..]);
    }
  }

  /** Then the guard in front of the commit never refuses: after any such run Enter
      records every non-empty line and empties it unless it ends the session. */
  lemma EnterCommits(s: State, ks: seq<Key>, output: seq<byte>)
    requires Inv(s) && Clean(s) && DefinedRun(s, ks) && TypedRun(ks) && OneKeyReads(ks)
    requires Run(s, ks).open && Run(s, ks).line != []
    ensures var t := Run(s, ks);
      var u := Press(t, Enter(output));
      && u.recall == t.line
      && u.history == (if |t.history| < MAX_CMD_HISTORY_NUM then t.history + [t.line] else t.history)
      && u.index == (if |t.history| < MAX_CMD_HISTORY_NUM then |u.history| else t.index)
      && (u.open <==> t.line != [113, 117, 105, 116] && t.line != [101, 120, 105, 116])
      && (u.open ==> u.line == [])
  {
    CleanRun(s, ks);
    assert !Forbidden(Run(s, ks).line[0]);
  }

  // ---------- History ----------

  /** Entries are only ever added behind the others. */
  lemma {:induction false} HistoryGrows(s: State, ks: seq<Key>)
    requires DefinedRun(s, ks)
    ensures s.history <= Run(s, ks).history
    decreases |ks|
  {
    if ks != [] {
      HistoryGrows(Press(s, ks[0]), ks[1..]);
    }
  }

  /** Enter meets a line that starts with CR and leaves it uncommitted. */
  predicate RefusesCommit(s: State, k: Key) {
    k.Enter? && s.line != [] && s.line[0] == CR
  }

  /** The line one read commits, if it commits one. */
  function CommittedBy(s: State, k: Key): seq<seq<byte>> {
    if k.Enter? && s.line != [] && !RefusesCommit(s, k) then [s.line] else []
  }

  /** The lines a run commits, oldest first. */
  function CommittedLines(s: State, ks: seq<Key>): seq<seq<byte>>
    requires DefinedRun(s, ks)
    decreases |ks|
  {
    if ks == [] then [] else CommittedBy(s, ks[0]) + CommittedLines(Press(s, ks[0]), ks[1..])
  }

  lemma KeptAppend(log: seq<seq<byte>>, text: seq<byte>)
    ensures Kept(log + [text]) == if |log| < MAX_CMD_HISTORY_NUM then Kept(log) + [text] else Kept(log)
  {
  }

  /** Lines that come after a full history make no difference. */
  lemma KeptTwice(log: seq<seq<byte>>, more: seq<seq<byte>>)
    ensures Kept(Kept(log) + more) == Kept(log + more)
  {
  }

  lemma HistoryStep(s: State, k: Key)
    requires |s.history| <= MAX_CMD_HISTORY_NUM && Defined(s, k)
    ensures Press(s, k).history == Kept(s.history + CommittedBy(s, k))
  {
    if CommittedBy(s, k) != [] {
      KeptAppend(s.history, s.line);
    } else {
      assert s.history + [] == s.history;
    }
  }

  /** Any run at all, from any state: the history is the first 500 of what it held and
      the lines committed since, in order. */
  lemma {:induction false} HistoryIsCommitted(s: State, ks: seq<Key>)
    requires |s.history| <= MAX_CMD_HISTORY_NUM && DefinedRun(s, ks)
    ensures Run(s, ks).history == Kept(s.history + CommittedLines(s, ks))
    decreases |ks|
  {
    if ks == [] {
      assert s.history + [] == s.history;
    } else {
      var t, now := Press(s, ks[0]), CommittedBy(s, ks[0]);
      HistoryStep(s, ks[0]);
      HistoryIsCommitted(t, ks[1..]);
      KeptTwice(s.history + now, CommittedLines(t, ks[1..]));
      Reassociate(s.history, now, CommittedLines(t, ks[1..]));
    }
  }

  predicate NoEnter(ks: seq<Key>) {
    forall i :: 0 <= i < |ks| ==> !ks[i].Enter?
  }

  /** Where browsing among `n` entries stands after the keys, whatever else is
      pressed in between. */
  function Walk(i: nat, n: nat, ks: seq<Key>): nat
    decreases |ks|
  {
    if ks == [] then i
    else if ks[0].Up? then Walk(if i > 0 then i - 1 else 0, n, ks[1..])
    else if ks[0].Down? then Walk(if i < n then i + 1 else i, n, ks[1..])
    else Walk(i, n, ks[1..])
  }

  /** Some vertical arrow among the keys found an entry to go to. */
  predicate Moves(i: nat, n: nat, ks: seq<Key>)
    decreases |ks|
  {
    ks != [] &&
    (|| (ks[0].Up? && i > 0)
     || (ks[0].Down? && i < n)
     || Moves(i, n, ks[1..]))
  }

  /** Between two commits the recall buffer is a function of the walk alone. */
  lemma {:induction false} Navigation(s: State, ks: seq<Key>)
    requires s.index <= |s.history| && DefinedRun(s, ks) && NoEnter(ks)
    ensures var t, n := Run(s, ks), |s.history|;
      && t.history == s.history
      && t.index == Walk(s.index, n, ks) <= n
      && t.recall == if Moves(s.index, n, ks) then Entry(s.history, t.index) else s.recall
    decreases |ks|
  {
    if ks != [] {
      Navigation(Press(s, ks[0]), ks[1..]);
      var n, t := |s.history|, Press(s, ks[0]);
      if !Moves(t.index, n, ks[1..]) {
        WalkStays(t.index, n, ks[1..]);
      }
    }
  }

  lemma {:induction false} WalkStays(i: nat, n: nat, ks: seq<Key>)
    requires i <= n && !Moves(i, n, ks)
    ensures Walk(i, n, ks) == i
    decreases |ks|
  {
    if ks != [] {
      WalkStays(i, n, ks[1..]);
    }
  }

  /** What the line is right after a vertical arrow that follows any other keys. */
  lemma Recalled(s: State, ks: seq<Key>, k: Key)
    requires s.index <= |s.history| && NoEnter(ks) && (k.Up? || k.Down?)
    requires DefinedRun(s, ks + [k])
    ensures var t, n := Run(s, ks + [k]), |s.history|;
      && t.moveLeft == 0
      && t.line == if Moves(s.index, n, ks + [k])
                   then Entry(s.history, Walk(s.index, n, ks + [k])) else s.recall
  {
    Navigation(s, ks + [k]);
    RunPrefix(s, ks, [k]);
    RunConcat(s, ks, [k]);
    var t := Run(s, ks);
    assert Run(t, [k]) == Run(Press(t, k), [k][1..]) == Press(t, k);
  }

  function Presses(k: Key, n: nat): (ks: seq<Key>)
    ensures |ks| == n && forall i :: 0 <= i < n ==> ks[i] == k
  {
    seq(n, _ => k)
  }

  lemma {:induction false} WalkUps(i: nat, n: nat, k: nat, ks: seq<Key>)
    requires k <= i <= n
    ensures Walk(i, n, Presses(Up, k) + ks) == Walk(i - k, n, ks)
    ensures k > 0 ==> Moves(i, n, Presses(Up, k) + ks)
    decreases k
  {
    if k == 0 {
      assert Presses(Up, 0) + ks == ks;
    } else {
      WalkUps(i - 1, n, k - 1, ks);
      assert (Presses(Up, k) + ks)[1..] == Presses(Up, k - 1) + ks;
    }
  }

  lemma {:induction false} WalkDowns(i: nat, n: nat, j: nat)
    requires i + j <= n
    ensures Walk(i, n, Presses(Down, j)) == i + j
    decreases j
  {
    if j > 0 {
      WalkDowns(i + 1, n, j - 1);
      assert Presses(Down, j)[1..] == Presses(Down, j - 1);
    }
  }

  /** After a commit that left `n` entries, `k` Ups and then `j` Downs show entry
      `n - k + j`, and the empty line when they cancel out. */
  lemma UpsThenDowns(s: State, k: nat, j: nat)
    requires s.index == |s.history| && 1 <= k <= s.index && j <= k
    requires DefinedRun(s, Presses(Up, k) + Presses(Down, j))
    ensures var t := Run(s, Presses(Up, k) + Presses(Down, j));
      t.line == if j == k then [] else s.history[|s.history| - k + j]
  {
    var ups, downs, n := Presses(Up, k), Presses(Down, j), |s.history|;
    var ks := ups + downs;
    var last := ks[|ks| - 1];
    assert ks == ks[..|ks| - 1] + [last];
    WalkUps(n, n, k, downs);
    WalkDowns(n - k, n, j);
    Recalled(s, ks[..|ks| - 1], last);
  }

  /** Down on a fresh prompt finds nowhere to go and shows the committed line again. */
  lemma DownAfterCommit(s: State, output: seq<byte>)
    requires Inv(s) && s.open && s.line != [] && s.line[0] != CR
    requires !Leaves(s.line)
    requires |s.history| < MAX_CMD_HISTORY_NUM
    ensures var t := Press(s, Enter(output));
      Defined(t, Down) && Press(t, Down).line == s.line && Echo(t, Down) == []
  {
  }
}
