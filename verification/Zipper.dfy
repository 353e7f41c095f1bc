/** The reference editor: the text left and right of a cursor, the log of committed
    lines and a place in it.  The one size it knows is how many lines the history
    offers for browsing; there is no distance arithmetic and no second copy of a line. */
module Zipper {
  import opened Bytes
  import opened LineEditor
  import opened EditorLaws

  datatype Zip = Zip(
    left: seq<byte>,
    right: seq<byte>,
    log: seq<seq<byte>>,
    browse: nat,
    open: bool)

  const BLANK: Zip := Zip([], [], [], 0, true)

  function Show(z: Zip, browse: nat): Zip {
    z.(left := Entry(Kept(z.log), browse), right := [], browse := browse)
  }

  /** Every committed line is logged and browsing starts behind the last one offered. */
  function Submit(z: Zip): Zip {
    var text := z.left + z.right;
    var log := z.log + [text];
    Zip([], [], log, |Kept(log)|, !Leaves(text))
  }

  function ZPress(z: Zip, k: Key): Zip {
    match k
    case Ignored => z
    case Help => z
    case Complete => z
    case Interrupt => z.(left := [], right := [])
    case ClearScreen => z.(left := [], right := [])
    case Up => if z.browse == 0 then z else Show(z, z.browse - 1)
    case Down => if z.browse == |Kept(z.log)| then z else Show(z, z.browse + 1)
    case Left =>
      if z.left == [] then z
      else z.(left := z.left[..|z.left| - 1], right := [z.left[|z.left| - 1]] + z.right)
    case Right =>
      if z.right == [] then z
      else z.(left := z.left + [z.right[0]], right := z.right[1..])
    case Erase => if z.left == [] then z else z.(left := z.left[..|z.left| - 1])
    case Enter(_) => if z.left + z.right == [] then z else Submit(z)
    case Text(bytes) => z.(left := z.left + bytes)
  }

  function ZRun(z: Zip, ks: seq<Key>): Zip
    decreases |ks|
  {
    if ks == [] then z else ZRun(ZPress(z, ks[0]), ks[1..])
  }

  /** The history is what is kept of the log; while the session is open the buffer holds
      the text, the counter is the length of the right part and browsing agrees. */
  ghost predicate Represents(s: State, z: Zip) {
    && s.history == Kept(z.log)
    && s.open == z.open
    && (s.open ==>
      && s.line == z.left + z.right
      && s.moveLeft == |z.right|
      && s.index == z.browse)
  }

  // ---------- The reads that depart from the reference ----------

  /** Of several bytes read inside the line only the first is inserted. */
  predicate LosesBytes(s: State, k: Key) {
    k.Text? && InsideLine(s) && |k.bytes| > 1
  }

  /** A vertical arrow with nowhere to go loads the recall buffer all the same. */
  predicate LoadsStaleCopy(s: State, k: Key) {
    && ((k.Up? && s.index == 0) || (k.Down? && s.index == |s.history|))
    && !(s.recall == s.line && s.moveLeft == 0)
  }

  /** A commit into a full history leaves browsing where it was. */
  predicate KeepsBrowsing(s: State, k: Key) {
    && k.Enter? && s.line != [] && !Leaves(s.line)
    && |s.history| == MAX_CMD_HISTORY_NUM && s.index != |s.history|
  }

  predicate Departs(s: State, k: Key) {
    || StrandsCursor(s, k)
    || RefusesCommit(s, k)
    || LosesBytes(s, k)
    || LoadsStaleCopy(s, k)
    || KeepsBrowsing(s, k)
  }

  /** The five conditions told on the state alone, the cursor being in the line. */
  lemma DepartsExactly(s: State, k: Key)
    requires Inv(s) && CursorInLine(s)
    ensures Departs(s, k) <==>
            || ((k.Interrupt? || k.ClearScreen?) && s.moveLeft > 0)
            || (k.Enter? && s.line != [] && s.line[0] == 13)
            || (k.Text? && s.moveLeft > 0 && |k.bytes| > 1)
            || (k.Up? && s.index == 0 && !(s.recall == s.line && s.moveLeft == 0))
            || (k.Down? && s.index == |s.history| && !(s.recall == s.line && s.moveLeft == 0))
            || (k.Enter? && s.line != [] && !Leaves(s.line) && |s.history| == 500 && s.index != 500)
  {
  }

  lemma {:induction false} MoveRepresented(s: State, z: Zip, k: Key)
    requires Represents(s, z) && Defined(s, k) && (k.Left? || k.Right?)
    ensures Represents(Press(s, k), ZPress(z, k)) <==> !Departs(s, k)
  {
    if k.Left? && z.left != [] {
      assert z.left == z.left[..|z.left| - 1] + [z.left[|z.left| - 1]];
    }
    if k.Right? && z.right != [] {
      assert z.right == [z.right[0]] + z.right[1..];
    }
  }

  lemma InsertAtCursor(left: seq<byte>, right: seq<byte>, c: byte)
    ensures InsertAt(left + right, |right|, c) == (left + [c]) + right
  {
  }

  lemma DeleteAtCursor(left: seq<byte>, right: seq<byte>)
    requires left != []
    ensures DeleteAt(left + right, |right|) == left[..|left| - 1] + right
  {
  }

  lemma {:induction false} EraseRepresented(s: State, z: Zip)
    requires Represents(s, z) && Defined(s, Erase)
    ensures Represents(Press(s, Erase), ZPress(z, Erase)) <==> !Departs(s, Erase)
  {
    if z.left != [] {
      DeleteAtCursor(z.left, z.right);
    }
  }

  lemma {:induction false} TextRepresented(s: State, z: Zip, k: Key)
    requires Represents(s, z) && Defined(s, k) && Typed(k) && k.Text?
    ensures Represents(Press(s, k), ZPress(z, k)) <==> !Departs(s, k)
  {
    if z.right == [] {
      assert z.left + z.right == z.left;
      assert (z.left + k.bytes) + [] == z.left + k.bytes;
    } else {
      InsertAtCursor(z.left, z.right, k.bytes[0]);
      if |k.bytes| == 1 {
        assert k.bytes == [k.bytes[0]];
      } else {
        assert |Press(s, k).line| != |(z.left + k.bytes) + z.right|;
      }
    }
  }

  lemma {:induction false} BrowseRepresented(s: State, z: Zip, k: Key)
    requires Inv(s) && Represents(s, z) && Defined(s, k) && (k.Up? || k.Down?)
    ensures Represents(Press(s, k), ZPress(z, k)) <==> !Departs(s, k)
  {
    if (if k.Up? then s.index > 0 else s.index < |s.history|) {
      var i := if k.Up? then s.index - 1 else s.index + 1;
      assert Entry(s.history, i) + [] == Entry(s.history, i);
    }
  }

  lemma {:induction false} EnterRepresented(s: State, z: Zip, k: Key)
    requires Inv(s) && Represents(s, z) && Defined(s, k) && k.Enter?
    ensures Represents(Press(s, k), ZPress(z, k)) <==> !Departs(s, k)
  {
    KeptAppend(z.log, z.left + z.right);
    if s.line == [] {
      assert z.left == [] && z.right == [];
    }
  }

  lemma {:induction false} PromptRepresented(s: State, z: Zip, k: Key)
    requires Represents(s, z) && Defined(s, k)
    requires k.Interrupt? || k.ClearScreen? || k.Help? || k.Complete? || k.Ignored?
    ensures Represents(Press(s, k), ZPress(z, k)) <==> !Departs(s, k)
  {
  }

  /** One read follows the reference editor exactly unless it departs from it. */
  lemma {:induction false} RepresentsStep(s: State, z: Zip, k: Key)
    requires Inv(s) && Represents(s, z) && Defined(s, k) && Typed(k)
    ensures Represents(Press(s, k), ZPress(z, k)) <==> !Departs(s, k)
  {
    if k.Left? || k.Right? {
      MoveRepresented(s, z, k);
    } else if k.Erase? {
      EraseRepresented(s, z);
    } else if k.Text? {
      TextRepresented(s, z, k);
    } else if k.Up? || k.Down? {
      BrowseRepresented(s, z, k);
    } else if k.Enter? {
      EnterRepresented(s, z, k);
    } else {
      PromptRepresented(s, z, k);
    }
  }

  // ---------- Whole runs ----------

  /** No read of the run departs from the reference editor. */
  predicate FaithfulRun(s: State, ks: seq<Key>)
    requires DefinedRun(s, ks)
    decreases |ks|
  {
    ks == [] || (!Departs(s, ks[0]) && FaithfulRun(Press(s, ks[0]), ks[1..]))
  }

  /** The two editors agree before every read and at the end. */
  ghost predicate FollowsThroughout(s: State, z: Zip, ks: seq<Key>)
    requires DefinedRun(s, ks)
    decreases |ks|
  {
    Represents(s, z) && (ks == [] || FollowsThroughout(Press(s, ks[0]), ZPress(z, ks[0]), ks[1..]))
  }

  /** A run follows the reference editor all the way exactly if no read departs. */
  lemma {:induction false} RunRefinesZipper(s: State, z: Zip, ks: seq<Key>)
    requires Inv(s) && Represents(s, z) && DefinedRun(s, ks) && TypedRun(ks)
    ensures FollowsThroughout(s, z, ks) <==> FaithfulRun(s, ks)
    ensures FaithfulRun(s, ks) ==> Represents(Run(s, ks), ZRun(z, ks))
    decreases |ks|
  {
    if ks != [] {
      var t, y := Press(s, ks[0]), ZPress(z, ks[0]);
      RepresentsStep(s, z, ks[0]);
      InvStep(s, ks[0]);
      if Represents(t, y) {
        RunRefinesZipper(t, y, ks[1..]);
      }
    }
  }

  /** The same from the moment a client connects. */
  lemma SessionRefinesZipper(ks: seq<Key>)
    requires DefinedRun(FRESH, ks) && TypedRun(ks)
    ensures FollowsThroughout(FRESH, BLANK, ks) <==> FaithfulRun(FRESH, ks)
    ensures FaithfulRun(FRESH, ks) ==> Represents(Run(FRESH, ks), ZRun(BLANK, ks))
  {
    RunRefinesZipper(FRESH, BLANK, ks);
  }

  /** Browsing in the run never loads a stale copy and never stays behind. */
  predicate SmoothRun(s: State, ks: seq<Key>)
    requires DefinedRun(s, ks)
    decreases |ks|
  {
    ks == [] ||
    (!LoadsStaleCopy(s, ks[0]) && !KeepsBrowsing(s, ks[0]) && SmoothRun(Press(s, ks[0]), ks[1..]))
  }

  /** With one key per read neither bytes nor commits are lost. */
  lemma {:induction false} OneKeyRunsAreFaithful(s: State, ks: seq<Key>)
    requires Inv(s) && Clean(s) && DefinedRun(s, ks) && TypedRun(ks) && OneKeyReads(ks)
    ensures FaithfulRun(s, ks) <==> SteadyRun(s, ks) && SmoothRun(s, ks)
    decreases |ks|
  {
    if ks != [] {
      CleanStep(s, ks[0]);
      InvStep(s, ks[0]);
      OneKeyRunsAreFaithful(Press(s, ks[0]), ks[1..]);
      assert s.line != [] ==> !Forbidden(s.line[0]);
    }
  }

  // ---------- What the log holds ----------

  /** The lines a run of the reference editor commits: each is the text on both sides
      of the cursor. */
  function Committed(z: Zip, ks: seq<Key>): seq<seq<byte>>
    decreases |ks|
  {
    if ks == [] then []
    else
      (if ks[0].Enter? && z.left + z.right != [] then [z.left + z.right] else [])
      + Committed(ZPress(z, ks[0]), ks[1..])
  }

  lemma {:induction false} LogHoldsCommitted(z: Zip, ks: seq<Key>)
    ensures ZRun(z, ks).log == z.log + Committed(z, ks)
    decreases |ks|
  {
    if ks != [] {
      LogHoldsCommitted(ZPress(z, ks[0]), ks[1..]);
    }
  }

  /** The lines a faithful run commits are the reference editor's, whole wherever the
      cursor stood. */
  lemma {:induction false} CommittedIsWholeText(s: State, z: Zip, ks: seq<Key>)
    requires Inv(s) && Represents(s, z) && DefinedRun(s, ks) && TypedRun(ks) && FaithfulRun(s, ks)
    ensures CommittedLines(s, ks) == Committed(z, ks)
    decreases |ks|
  {
    if ks != [] {
      RepresentsStep(s, z, ks[0]);
      InvStep(s, ks[0]);
      CommittedIsWholeText(Press(s, ks[0]), ZPress(z, ks[0]), ks[1..]);
    }
  }

  /** So the history of a faithful session is the first 500 texts it entered. */
  lemma HistoryIsEnteredText(ks: seq<Key>)
    requires DefinedRun(FRESH, ks) && TypedRun(ks) && FaithfulRun(FRESH, ks)
    ensures Run(FRESH, ks).history == Kept(Committed(BLANK, ks))
  {
    HistoryIsCommitted(FRESH, ks);
    CommittedIsWholeText(FRESH, BLANK, ks);
    assert [] + Committed(BLANK, ks) == Committed(BLANK, ks);
  }
}
