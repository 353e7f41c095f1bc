/** Editor, reference editor, terminal and memory together. */
module Session {
  import opened Bytes
  import opened LineEditor
  import opened EditorLaws
  import opened Terminal
  import opened Screen
  import opened Shell
  import opened TelnetMgr
  import opened Zipper

  /** No read of several bytes falls inside the line. */
  predicate WholeReads(s: State, ks: seq<Key>)
    requires DefinedRun(s, ks)
    decreases |ks|
  {
    ks == [] || (!LosesBytes(s, ks[0]) && WholeReads(Press(s, ks[0]), ks[1..]))
  }

  /** Reads of graphic characters never lead to a refused commit. */
  lemma {:induction false} GraphicRunsAreFaithful(s: State, ks: seq<Key>)
    requires Inv(s) && GraphicState(s) && DefinedRun(s, ks) && TypedRun(ks) && OrdinaryRun(ks)
    ensures FaithfulRun(s, ks) <==> SteadyRun(s, ks) && SmoothRun(s, ks) && WholeReads(s, ks)
    decreases |ks|
  {
    if ks != [] {
      InvStep(s, ks[0]);
      GraphicStep(s, ks[0]);
      GraphicRunsAreFaithful(Press(s, ks[0]), ks[1..]);
      assert s.line != [] ==> Graphic(s.line[0]);
    }
  }

  /** A run that keeps the screen never strands the cursor. */
  lemma {:induction false} KeepingIsSteady(s: State, ks: seq<Key>)
    requires DefinedRun(s, ks) && KeepsScreenThroughout(s, ks)
    ensures SteadyRun(s, ks)
    decreases |ks|
  {
    if ks != [] {
      KeepingIsSteady(Press(s, ks[0]), ks[1..]);
    }
  }

  /** The row reads the reference editor's text behind the prompt, the cursor stands
      between its two parts and nothing is below. */
  ghost predicate ShowsReference(t: Term, z: Zip) {
    && SameText(Current(t), PROMPT + (z.left + z.right))
    && t.col == |PROMPT| + |z.left|
    && Settled(t)
  }

  /** The user's view of a session, whatever is pasted: with every key meeting its
      screen condition, no pasted text inside the line and browsing that goes somewhere,
      the terminal shows the reference editor. */
  lemma TerminalShowsReference(t: Term, ks: seq<Key>)
    requires Settled(t)
    requires DefinedRun(FRESH, ks) && TypedRun(ks) && OrdinaryRun(ks)
    requires KeepsScreenThroughout(FRESH, ks) && SmoothRun(FRESH, ks) && WholeReads(FRESH, ks)
    requires OutputsSettle(Interp(t, BANNER), FRESH, ks) && Run(FRESH, ks).open
    ensures ShowsReference(Interp(t, BANNER + Sent(FRESH, ks)), ZRun(BLANK, ks))
  {
    SessionScreen(t, ks);
    SessionRepresented(ks);
  }

  /** From raw reads to memory and terminal: the input loop serves such a session and
      leaves the line buffer, the counter and the slots holding the reference editor's
      text, cursor and log, and a terminal that shows the same text. */
  method Serve(inputs: seq<Input>, ghost t: Term) returns (mgr: Manager, cmd: array<byte>)
    requires AllArrive(inputs) && DefinedRun(FRESH, KeysOf(inputs))
    requires OrdinaryRun(KeysOf(inputs)) && Run(FRESH, KeysOf(inputs)).open
    requires KeepsScreenThroughout(FRESH, KeysOf(inputs))
    requires SmoothRun(FRESH, KeysOf(inputs)) && WholeReads(FRESH, KeysOf(inputs))
    requires Settled(t) && OutputsSettle(Interp(t, BANNER), FRESH, KeysOf(inputs))
    ensures var z := ZRun(BLANK, KeysOf(inputs));
      && LineHeld(cmd, z.left + z.right)
      && mgr.moveLeftNum == |z.right|
      && SlotsHold(mgr.queueCmd[..], Kept(z.log))
      && ShowsReference(Interp(t, mgr.sent), z)
  {
    mgr, cmd := ShellThread(inputs);
    ghost var ks := KeysOf(inputs);
    SessionRepresented(ks);
    TerminalShowsReference(t, ks);
  }

  lemma SessionRepresented(ks: seq<Key>)
    requires DefinedRun(FRESH, ks) && TypedRun(ks) && OrdinaryRun(ks)
    requires KeepsScreenThroughout(FRESH, ks) && SmoothRun(FRESH, ks) && WholeReads(FRESH, ks)
    ensures Represents(Run(FRESH, ks), ZRun(BLANK, ks))
  {
    KeepingIsSteady(FRESH, ks);
    GraphicRunsAreFaithful(FRESH, ks);
    SessionRefinesZipper(ks);
  }

  /** Commands that print no ESC always meet the condition on their output. */
  lemma PlainSessionSettles(t: Term, ks: seq<Key>)
    requires Settled(t) && DefinedRun(FRESH, ks) && TypedRun(ks) && OrdinaryRun(ks) && PlainOutputs(ks)
    ensures OutputsSettle(Interp(t, BANNER), FRESH, ks)
  {
    BannerShows(t);
    PlainOutputsSettle(Interp(t, BANNER), FRESH, ks);
  }
}
