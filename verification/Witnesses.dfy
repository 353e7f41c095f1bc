/** Sessions, from the moment a client connects, that reach the reads at which the code
    falls short, and inputs at which the filter's laws meet their exceptions. */
module Witnesses {
  import opened Bytes
  import opened CStrings
  import opened LineEditor
  import opened EditorLaws
  import opened Zipper
  import opened Screen
  import opened TelnetMgr
  import Bounds
  import CrLf
  import IacFilter
  import Shell

  /** `ks` are reads a client can cause; from a fresh connection they lead to `s`. */
  ghost predicate Reaches(ks: seq<Key>, s: State) {
    TypedRun(ks) && DefinedRun(FRESH, ks) && Run(FRESH, ks) == s
  }

  lemma ReachesOn(ks: seq<Key>, s: State, k: Key)
    requires Reaches(ks, s) && Defined(s, k) && Typed(k)
    ensures Reaches(ks + [k], Press(s, k))
  {
    RunThen(FRESH, ks, k);
  }

  lemma TypesFirst(bytes: seq<byte>)
    requires Typed(Text(bytes)) && |bytes| < MAX_CMD_LEN
    ensures Reaches([Text(bytes)], FRESH.(line := bytes))
  {
    assert Reaches([], FRESH);
    ReachesOn([], FRESH, Text(bytes));
    assert [] + [Text(bytes)] == [Text(bytes)] && [] + bytes == bytes;
  }

  // ---------- The cursor ----------

  /** A byte, Left and Ctrl-C strand the cursor; the next two bytes come out reversed. */
  lemma CursorIsStranded(c: byte, d: byte)
    requires Typed(Text([c])) && Typed(Text([d]))
    ensures var stranded := FRESH.(moveLeft := 1);
      && Reaches([Text([c]), Left, Interrupt], stranded) && !CursorInLine(stranded)
      && Reaches([Text([c]), Left, Interrupt] + [Text([c])] + [Text([d])],
                 stranded.(line := [d, c]))
  {
    var s1, s2, s3 := FRESH.(line := [c]), FRESH.(line := [c], moveLeft := 1), FRESH.(moveLeft := 1);
    TypesFirst([c]);
    ReachesOn([Text([c])], s1, Left);
    ReachesOn([Text([c]), Left], s2, Interrupt);
    assert [Text([c])] + [Left] == [Text([c]), Left];
    assert [Text([c]), Left] + [Interrupt] == [Text([c]), Left, Interrupt];
    StrandedTyping(s3, c, d);
    ReachesOn([Text([c]), Left, Interrupt], s3, Text([c]));
    ReachesOn([Text([c]), Left, Interrupt] + [Text([c])], Press(s3, Text([c])), Text([d]));
  }

  // ---------- What gets into the line ----------

  /** Two bytes in one read, the second a CR, put a CR into the line. */
  lemma CrIsAdmitted(c: byte)
    requires Typed(Text([c, CR]))
    ensures !CleanLine(Admitted(FRESH, Text([c, CR])))
    ensures Reaches([Text([c, CR])], FRESH.(line := [c, CR])) && !Clean(FRESH.(line := [c, CR]))
  {
    TypesFirst([c, CR]);
    assert Forbidden([c, CR][1]);
    assert Admitted(FRESH, Text([c, CR])) == [c, CR];
  }

  /** Deleting the byte in front of it makes Enter refuse the line. */
  lemma CommitIsRefused(c: byte, output: seq<byte>)
    requires Typed(Text([c, CR]))
    ensures var s := FRESH.(line := [CR], moveLeft := 1);
      Reaches([Text([c, CR]), Left, Erase], s) && RefusesCommit(s, Enter(output))
  {
    var s1 := FRESH.(line := [c, CR]);
    TypesFirst([c, CR]);
    ReachesOn([Text([c, CR])], s1, Left);
    ReachesOn([Text([c, CR]), Left], s1.(moveLeft := 1), Erase);
    assert [Text([c, CR])] + [Left] == [Text([c, CR]), Left];
    assert [Text([c, CR]), Left] + [Erase] == [Text([c, CR]), Left, Erase];
    assert DeleteAt([c, CR], 1) == [CR];
  }

  /** Two bytes in one read left of the end: one is lost. */
  lemma BytesAreLost(x: byte, c: byte, d: byte)
    requires Typed(Text([x])) && Typed(Text([c, d]))
    ensures var s := FRESH.(line := [x], moveLeft := 1);
      && Reaches([Text([x]), Left], s) && LosesBytes(s, Text([c, d]))
      && Press(s, Text([c, d])).line == [c, x]
  {
    TypesFirst([x]);
    ReachesOn([Text([x])], FRESH.(line := [x]), Left);
    assert [Text([x])] + [Left] == [Text([x]), Left];
    assert InsertAt([x], 1, c) == [c, x];
  }

  function Filled(n: nat, c: byte): (line: seq<byte>)
    ensures |line| == n && forall i :: 0 <= i < n ==> line[i] == c
  {
    seq(n, _ => c)
  }

  /** One read that fills the line to 255 bytes, then Left: the next byte is still let in
      by the length guard and takes the place of the terminator. */
  lemma FullLineIsReached(c: byte, d: byte)
    requires Typed(Text([c])) && c != ESC && Typed(Text([d]))
    ensures var line := Filled(MAX_CMD_LEN - 1, c);
      && Reaches([Text(line), Left], FRESH.(line := line, moveLeft := 1))
      && !Defined(FRESH.(line := line, moveLeft := 1), Text([d]))
      && NUL !in Inserted(Padded(line, MAX_CMD_LEN), |line|, 1, d)
  {
    var line := Filled(MAX_CMD_LEN - 1, c);
    assert c in [c] && d in [d] && line[0] == c;
    TypesFirst(line);
    ReachesOn([Text(line)], FRESH.(line := line), Left);
    assert [Text(line)] + [Left] == [Text(line), Left];
    FullLineLosesTerminator(line, 1, d);
  }

  // ---------- Browsing ----------

  function Once(c: byte): State {
    State([], 0, [c], [[c]], 1, true)
  }

  lemma RunsOnce(c: byte)
    requires Typed(Text([c]))
    ensures Reaches([Text([c]), Enter([])], Once(c))
  {
    TypesFirst([c]);
    ReachesOn([Text([c])], FRESH.(line := [c]), Enter([]));
    assert [Text([c])] + [Enter([])] == [Text([c]), Enter([])];
    assert [] + [[c]] == [[c]];
  }

  /** Down after the first command brings it back, unseen. */
  lemma StaleCopyIsLoaded(c: byte)
    requires Typed(Text([c]))
    ensures Reaches([Text([c]), Enter([])], Once(c))
    ensures LoadsStaleCopy(Once(c), Down) && !KeepsScreen(Once(c), Down)
    ensures Press(Once(c), Down).line == [c] && Echo(Once(c), Down) == []
  {
    RunsOnce(c);
  }

  lemma MovesTwoLeft(ks: seq<Key>, s: State)
    requires Reaches(ks, s) && s.open && s.moveLeft + 1 < |s.line|
    ensures Reaches(ks + [Left] + [Left], s.(moveLeft := s.moveLeft + 2))
  {
    ReachesOn(ks, s, Left);
    ReachesOn(ks + [Left], s.(moveLeft := s.moveLeft + 1), Left);
  }

  /** Up with the cursor inside a longer line leaves its last byte on the row. */
  lemma OldTextStays(c: byte, x: byte, y: byte, z: byte)
    requires Typed(Text([c])) && Typed(Text([x, y, z])) && z != SPACE
    ensures var s := Once(c).(line := [x, y, z], moveLeft := 2);
      && Reaches([Text([c]), Enter([])] + [Text([x, y, z])] + [Left] + [Left], s)
      && Defined(s, Up) && Press(s, Up).line == [c] && !KeepsScreen(s, Up)
  {
    var ks, line := [Text([c]), Enter([])], [x, y, z];
    RunsOnce(c);
    TypesLine(ks, Once(c), line);
    MovesTwoLeft(ks + [Text(line)], Once(c).(line := line));
    assert line[2] == z;
  }

  lemma TypesLine(ks: seq<Key>, s: State, bytes: seq<byte>)
    requires Reaches(ks, s) && s.open && s.line == [] && Typed(Text(bytes)) && |bytes| < MAX_CMD_LEN
    ensures Reaches(ks + [Text(bytes)], s.(line := bytes))
  {
    ReachesOn(ks, s, Text(bytes));
    assert [] + bytes == bytes;
  }

  /** `?` and TAB on a line with text print a prompt that does not show it. */
  lemma HelpHidesLine(c: byte)
    requires Typed(Text([c]))
    ensures var s := FRESH.(line := [c]);
      Reaches([Text([c])], s) && !KeepsScreen(s, Help) && !KeepsScreen(s, Complete)
  {
    TypesFirst([c]);
  }

  /** `n` commands of one byte each. */
  function Commands(n: nat, c: byte): seq<Key> {
    if n == 0 then [] else Commands(n - 1, c) + [Text([c])] + [Enter([])]
  }

  function Copies(n: nat, c: byte): (h: seq<seq<byte>>)
    ensures |h| == n && forall i :: 0 <= i < n ==> h[i] == [c]
  {
    seq(n, _ => [c])
  }

  lemma RunsOneMore(ks: seq<Key>, s: State, c: byte)
    requires Reaches(ks, s) && s.open && s.line == [] && s.moveLeft == 0 && Typed(Text([c]))
    requires |s.history| < MAX_CMD_HISTORY_NUM
    ensures Reaches(ks + [Text([c])] + [Enter([])],
                    State([], 0, [c], s.history + [[c]], |s.history| + 1, true))
  {
    TypesLine(ks, s, [c]);
    ReachesOn(ks + [Text([c])], s.(line := [c]), Enter([]));
  }

  lemma {:induction false} RunsMany(n: nat, c: byte)
    requires Typed(Text([c])) && 0 < n <= MAX_CMD_HISTORY_NUM
    ensures Reaches(Commands(n, c), State([], 0, [c], Copies(n, c), n, true))
    decreases n
  {
    if n == 1 {
      assert Commands(0, c) == [];
      RunsOneMore([], FRESH, c);
      assert [] + [[c]] == Copies(1, c);
    } else {
      RunsMany(n - 1, c);
      RunsOneMore(Commands(n - 1, c), State([], 0, [c], Copies(n - 1, c), n - 1, true), c);
      assert Copies(n - 1, c) + [[c]] == Copies(n, c);
    }
  }

  /** With the history full, running a recalled command leaves browsing at its entry, and
      Down from there reads the slot behind the last. */
  lemma BrowsingIsKept(c: byte)
    requires Typed(Text([c]))
    ensures var n := MAX_CMD_HISTORY_NUM;
      var s := State([c], 0, [c], Copies(n, c), n - 1, true);
      && Reaches(Commands(n, c) + [Up], s) && KeepsBrowsing(s, Enter([]))
      && Press(s, Enter([])) == s.(line := [])
      && Bounds.SlotCells(s, Down) == Bounds.Cells(n, n + 1)
  {
    var n := MAX_CMD_HISTORY_NUM;
    RunsMany(n, c);
    UpFromEnd(Commands(n, c), Copies(n, c), c);
    assert !Leaves([c]);
  }

  lemma UpFromEnd(ks: seq<Key>, history: seq<seq<byte>>, c: byte)
    requires history != [] && history[|history| - 1] == [c]
    requires Reaches(ks, State([], 0, [c], history, |history|, true))
    ensures Reaches(ks + [Up], State([c], 0, [c], history, |history| - 1, true))
  {
    ReachesOn(ks, State([], 0, [c], history, |history|, true), Up);
  }

  // ---------- Leaving ----------

  /** "quit" and Enter, or "exit" and Enter, end a fresh session; "quits" does not. */
  lemma SessionEnds(output: seq<byte>)
    ensures var quit, exit: seq<byte> := [113, 117, 105, 116], [101, 120, 105, 116];
      && Reaches([Text(quit), Enter(output)], State(quit, 0, quit, [quit], 1, false))
      && Reaches([Text(exit), Enter(output)], State(exit, 0, exit, [exit], 1, false))
    ensures var quits: seq<byte> := [113, 117, 105, 116, 115];
      Reaches([Text(quits), Enter(output)], State([], 0, quits, [quits], 1, true))
  {
    EntersFirst([113, 117, 105, 116], output);
    EntersFirst([101, 120, 105, 116], output);
    EntersFirst([113, 117, 105, 116, 115], output);
  }

  lemma EntersFirst(line: seq<byte>, output: seq<byte>)
    requires Typed(Text(line)) && |line| < MAX_CMD_LEN
    ensures Reaches([Text(line), Enter(output)],
                    State(if Leaves(line) then line else [], 0, line, [line], 1, !Leaves(line)))
  {
    TypesFirst(line);
    ReachesOn([Text(line)], FRESH.(line := line), Enter(output));
    assert [Text(line)] + [Enter(output)] == [Text(line), Enter(output)];
    assert [] + [line] == [line];
  }

  // ---------- The filter ----------

  /** A CR at the end of one chunk and the LF at the start of the next. */
  lemma PairIsCut()
    ensures IacFilter.EndsInBareCr([CR]) && IacFilter.StartsWithCrPartner([LF])
    ensures IacFilter.Decode([CR] + [LF]) == [CR]
    ensures IacFilter.Decode([CR]) + IacFilter.Decode(IacFilter.Residue([CR]) + [LF]) == [CR, LF]
  {
    assert [CR] + [LF] == [CR, LF] && [CR, LF][2..] == [] && [CR][1..] == [] && [LF][1..] == [];
    IacFilter.ParseFirst(IacFilter.Plain(CR), []);
    assert IacFilter.Wire(IacFilter.Plain(CR)) + [] == [CR];
    assert IacFilter.Tokens([CR]) == [IacFilter.Plain(CR)] && IacFilter.Residue([CR]) == [];
    assert [] + [LF] == [LF];
  }

  /** A text that spells a command does not come through. */
  lemma CommandIsSwallowed()
    ensures CrLf.Expand([IAC, NOP]) == [IAC, NOP] && IacFilter.Decode([IAC, NOP]) == []
  {
    assert [IAC, NOP][1..] == [NOP] && [NOP][1..] == [] && [IAC, NOP][2..] == [];
    assert CrLf.Expand([NOP]) == [NOP];
  }

  /** A CR LF pair in the middle of a read: the last byte is read twice. */
  lemma TailIsReadTwice(c: byte, d: byte)
    requires c !in {NUL, IAC, CR} && d !in {NUL, IAC, CR, LF}
    ensures Shell.Received([c, CR, LF, d]) == [c, CR, d, d]
  {
    var raw := [c, CR, LF, d];
    assert CStr(raw) == raw;
    assert raw[1..] == [CR, LF, d] && [CR, LF, d][2..] == [d] && [d][1..] == [];
    assert IacFilter.Decode([d]) == [d];
    assert IacFilter.Decode([CR, LF, d]) == [CR, d];
    assert IacFilter.Decode(raw) == [c, CR, d];
  }
}
