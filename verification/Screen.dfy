/** The bytes the server sends keep the client's prompt row in agreement with the
    line buffer and the cursor: exactly when, for every key and over whole runs. */
module Screen {
  import opened Bytes
  import opened LineEditor
  import opened EditorLaws
  import opened Terminal

  /** The cursor's row reads `prompt` and `line`, the cursor stands `moveLeft` columns
      before the end, and nothing is below. */
  ghost predicate RowShows(t: Term, prompt: seq<byte>, line: seq<byte>, moveLeft: nat) {
    && Settled(t)
    && moveLeft <= |line|
    && t.col == |prompt| + |line| - moveLeft
    && SameText(Current(t), prompt + line)
  }

  /** Nothing but the cursor's row has changed, and the cursor is still in it. */
  ghost predicate OnlyRow(t: Term, u: Term) {
    u.row == t.row && forall r: nat :: r != t.row ==> RowOf(u, r) == RowOf(t, r)
  }

  ghost predicate Shows(t: Term, s: State) {
    RowShows(t, PROMPT, s.line, s.moveLeft)
  }

  /** Lines of graphic characters only, in every buffer. */
  ghost predicate GraphicState(s: State) {
    && AllGraphic(s.line) && AllGraphic(s.recall)
    && forall i :: 0 <= i < |s.history| ==> AllGraphic(s.history[i])
  }

  /** Reads that put graphic characters on the terminal or none. */
  predicate Ordinary(k: Key) {
    Typed(k) && (k.Text? ==> AllGraphic(k.bytes))
  }

  predicate Blank(line: seq<byte>) {
    forall i :: 0 <= i < |line| ==> line[i] == SPACE
  }

  // ---------- When a read keeps the agreement ----------

  /** Painting `entry` clears up to the cursor only: what stood behind it must be
      painted over or have been blank. */
  predicate PaintsOver(line: seq<byte>, moveLeft: nat, entry: seq<byte>) {
    forall i :: 0 <= i < |line| && |entry| <= i && |line| - moveLeft < i ==> line[i] == SPACE
  }

  /** Nothing is painted, but the recalled line replaces the buffer. */
  predicate AlreadyShown(s: State) {
    && |s.recall| + s.moveLeft == |s.line|
    && s.recall == s.line[..|s.recall|]
    && Blank(s.line[|s.recall|..])
  }

  predicate KeepsScreen(s: State, k: Key) {
    match k
    case Interrupt => s.moveLeft == 0
    case ClearScreen => s.moveLeft == 0
    case Help => s.moveLeft == |s.line| && Blank(s.line)
    case Complete => s.moveLeft == |s.line| && Blank(s.line)
    case Up => if s.index == 0 then AlreadyShown(s) else PaintsOver(s.line, s.moveLeft, Entry(s.history, s.index - 1))
    case Down =>
      if s.index == |s.history| then AlreadyShown(s)
      else PaintsOver(s.line, s.moveLeft, Entry(s.history, s.index + 1))
    case _ => true
  }

  // ---------- Text behind the prompt ----------

  lemma CellBehind(p: seq<byte>, line: seq<byte>, c: nat)
    ensures Cell(p + line, c) == if c < |p| then p[c] else Cell(line, c - |p|)
  {
  }

  lemma SameBehind(p: seq<byte>, a: seq<byte>, b: seq<byte>)
    ensures SameText(p + a, p + b) <==> SameText(a, b)
  {
    if SameText(p + a, p + b) {
      forall c: nat
        ensures Cell(a, c) == Cell(b, c)
      {
        CellBehind(p, a, c + |p|);
        CellBehind(p, b, c + |p|);
      }
    }
    if SameText(a, b) {
      forall c: nat
        ensures Cell(p + a, c) == Cell(p + b, c)
      {
        CellBehind(p, a, c);
        CellBehind(p, b, c);
      }
    }
  }

  /** What a read must do to the row, told column by column behind the prompt. */
  lemma RowFrom(u: Term, t: Term, row: seq<byte>, p: seq<byte>, line: seq<byte>, moveLeft: nat)
    requires Settled(t) && moveLeft <= |line|
    requires OnRow(u, t, row, |p| + |line| - moveLeft)
    requires forall c: nat :: Cell(row, c) == if c < |p| then p[c] else Cell(line, c - |p|)
    ensures RowShows(u, p, line, moveLeft) && OnlyRow(t, u)
  {
    OnRowSettles(u, t, row, |p| + |line| - moveLeft);
    forall c: nat
      ensures Cell(Current(u), c) == Cell(p + line, c)
    {
      CellBehind(p, line, c);
    }
  }

  lemma RowIs(t: Term, p: seq<byte>, line: seq<byte>, moveLeft: nat)
    requires RowShows(t, p, line, moveLeft)
    ensures OnRow(t, t, p + line, |p| + |line| - moveLeft)
    ensures forall c: nat {:trigger Cell(p + line, c)} ::
              Cell(p + line, c) == if c < |p| then p[c] else Cell(line, c - |p|)
  {
    forall c: nat
      ensures Cell(p + line, c) == if c < |p| then p[c] else Cell(line, c - |p|)
    {
      CellBehind(p, line, c);
    }
  }

  // ---------- One control string after the other ----------

  lemma DownARow(t: Term)
    requires Settled(t)
    ensures var u := t.(row := t.row + 1, col := 0);
      Interp(t, CRLF) == u && Settled(u) && OnRow(u, u, [], 0)
  {
    NewLine(t);
    var u := t.(row := t.row + 1, col := 0);
    assert forall r: nat :: RowOf(u, r) == RowOf(t, r);
  }

  /** CR LF and a prompt show the empty line, from any settled terminal. */
  lemma {:induction false} PromptsAnew(t: Term, p: seq<byte>)
    requires Settled(t) && AllGraphic(p)
    ensures RowShows(Interp(t, CRLF + p), p, [], 0)
  {
    var u := Interp(t, CRLF);
    InterpConcat(t, CRLF, p);
    DownARow(t);
    WriteOn(u, u, [], 0, p);
    RowFrom(Interp(u, p), u, Overwrite([], 0, p), p, [], 0);
  }

  lemma {:induction false} PromptsCleared(t: Term, p: seq<byte>)
    requires Settled(t) && AllGraphic(p)
    ensures RowShows(Interp(t, CRLF + CLEAR_RIGHT_CHAR + p), p, [], 0)
  {
    var u := Interp(t, CRLF);
    InterpConcat(t, CRLF + CLEAR_RIGHT_CHAR, p);
    InterpConcat(t, CRLF, CLEAR_RIGHT_CHAR);
    DownARow(t);
    ClearRightOn(u, u, [], 0);
    var v := Interp(u, CLEAR_RIGHT_CHAR);
    WriteOn(v, u, EraseRight([], 0), 0, p);
    RowFrom(Interp(v, p), u, Overwrite(EraseRight([], 0), 0, p), p, [], 0);
  }

  lemma {:induction false} ShowsTyped(t: Term, p: seq<byte>, line: seq<byte>, bytes: seq<byte>)
    requires RowShows(t, p, line, 0) && AllGraphic(bytes)
    ensures RowShows(Interp(t, bytes), p, line + bytes, 0)
    ensures OnlyRow(t, Interp(t, bytes))
  {
    RowIs(t, p, line, 0);
    WriteOn(t, t, p + line, |p| + |line|, bytes);
    RowFrom(Interp(t, bytes), t, Overwrite(p + line, |p| + |line|, bytes), p, line + bytes, 0);
  }

  lemma {:induction false} InsertedCell(p: seq<byte>, line: seq<byte>, m: nat, c: byte, k: nat)
    requires m <= |line|
    ensures var col := |p| + |line| - m;
      Cell(Overwrite(InsertBlanks(p + line, col, 1), col, [c]), k)
      == if k < |p| then p[k] else Cell(InsertAt(line, m, c), k - |p|)
  {
    var col := |p| + |line| - m;
    CellInserted(p + line, col, 1, k);
    CellBehind(p, line, k);
    if k > col {
      CellBehind(p, line, k - 1);
    }
  }

  lemma {:induction false} ShowsInserted(t: Term, p: seq<byte>, line: seq<byte>, m: nat, c: byte)
    requires RowShows(t, p, line, m) && Graphic(c)
    ensures RowShows(Interp(t, INSERT_BLANK + [c]), p, InsertAt(line, m, c), m)
    ensures OnlyRow(t, Interp(t, INSERT_BLANK + [c]))
  {
    var col := |p| + |line| - m;
    var shifted := InsertBlanks(p + line, col, 1);
    RowIs(t, p, line, m);
    InterpConcat(t, INSERT_BLANK, [c]);
    InsertOn(t, t, p + line, col);
    WriteOn(Interp(t, INSERT_BLANK), t, shifted, col, [c]);
    forall k: nat
      ensures Cell(Overwrite(shifted, col, [c]), k)
              == if k < |p| then p[k] else Cell(InsertAt(line, m, c), k - |p|)
    {
      InsertedCell(p, line, m, c, k);
    }
    RowFrom(Interp(t, INSERT_BLANK + [c]), t, Overwrite(shifted, col, [c]), p, InsertAt(line, m, c), m);
  }

  lemma {:induction false} ShowsErasedEnd(t: Term, p: seq<byte>, line: seq<byte>)
    requires RowShows(t, p, line, 0) && line != []
    ensures RowShows(Interp(t, RUB_OUT + [SPACE] + MOVE_LEFT), p, DeleteAt(line, 0), 0)
    ensures OnlyRow(t, Interp(t, RUB_OUT + [SPACE] + MOVE_LEFT))
  {
    var col := |p| + |line|;
    var once := Put(p + line, col - 1, SPACE);
    RowIs(t, p, line, 0);
    InterpConcat(t, RUB_OUT + [SPACE], MOVE_LEFT);
    InterpConcat(t, RUB_OUT, [SPACE]);
    RubOutOn(t, t, p + line, col);
    WriteOn(Interp(t, RUB_OUT), t, once, col - 1, [SPACE]);
    LeftOn(Interp(t, RUB_OUT + [SPACE]), t, Overwrite(once, col - 1, [SPACE]), col);
    RowFrom(Interp(t, RUB_OUT + [SPACE] + MOVE_LEFT), t, Overwrite(once, col - 1, [SPACE]), p, DeleteAt(line, 0), 0);
  }

  lemma {:induction false} ErasedCell(p: seq<byte>, line: seq<byte>, m: nat, k: nat)
    requires 0 < m < |line|
    ensures var col := |p| + |line| - m;
      Cell(Overwrite(EraseRight(Put(p + line, col - 1, SPACE), col - 1), col - 1, line[|line| - m..]), k)
      == if k < |p| then p[k] else Cell(DeleteAt(line, m), k - |p|)
  {
    CellBehind(p, line, k);
  }

  lemma {:induction false} ErasedRow(t: Term, row: seq<byte>, col: nat, right: seq<byte>, m: nat)
    requires OnRow(t, t, row, col) && 0 < col && m == |right| && AllGraphic(right)
    ensures OnRow(Interp(t, RUB_OUT + (CLEAR_RIGHT_CHAR + right) + Repeat(MOVE_LEFT, m)), t,
                  Overwrite(EraseRight(Put(row, col - 1, SPACE), col - 1), col - 1, right), col - 1)
  {
    var lefts, once := Repeat(MOVE_LEFT, m), Put(row, col - 1, SPACE);
    var cut := EraseRight(once, col - 1);
    InterpConcat(t, RUB_OUT + (CLEAR_RIGHT_CHAR + right), lefts);
    InterpConcat(t, RUB_OUT, CLEAR_RIGHT_CHAR + right);
    var u := Interp(t, RUB_OUT);
    InterpConcat(u, CLEAR_RIGHT_CHAR, right);
    RubOutOn(t, t, row, col);
    ClearRightOn(u, t, once, col - 1);
    WriteOn(Interp(u, CLEAR_RIGHT_CHAR), t, cut, col - 1, right);
    LeftsOn(Interp(u, CLEAR_RIGHT_CHAR + right), t, Overwrite(cut, col - 1, right), col - 1 + m, m);
  }

  lemma {:induction false} ShowsErasedInside(t: Term, p: seq<byte>, line: seq<byte>, m: nat)
    requires RowShows(t, p, line, m) && 0 < m < |line| && AllGraphic(line)
    ensures RowShows(Interp(t, RUB_OUT + (CLEAR_RIGHT_CHAR + line[|line| - m..]) + Repeat(MOVE_LEFT, m)),
                     p, DeleteAt(line, m), m)
    ensures OnlyRow(t, Interp(t, RUB_OUT + (CLEAR_RIGHT_CHAR + line[|line| - m..]) + Repeat(MOVE_LEFT, m)))
  {
    var col, right := |p| + |line| - m, line[|line| - m..];
    var row := Overwrite(EraseRight(Put(p + line, col - 1, SPACE), col - 1), col - 1, right);
    RowIs(t, p, line, m);
    ErasedRow(t, p + line, col, right, m);
    forall k: nat
      ensures Cell(row, k) == if k < |p| then p[k] else Cell(DeleteAt(line, m), k - |p|)
    {
      ErasedCell(p, line, m, k);
    }
    RowFrom(Interp(t, RUB_OUT + (CLEAR_RIGHT_CHAR + right) + Repeat(MOVE_LEFT, m)), t, row, p, DeleteAt(line, m), m);
  }

  // ---------- Reads that may lose the agreement ----------

  /** The row after a recalled line was painted. */
  lemma {:induction false} Painted(t: Term, p: seq<byte>, line: seq<byte>, m: nat, entry: seq<byte>)
    returns (row: seq<byte>)
    requires RowShows(t, p, line, m) && AllGraphic(p) && AllGraphic(entry)
    ensures OnRow(Interp(t, CLEAR_LEFT_CHAR + ([CR] + p + entry)), t, row, |p| + |entry|)
    ensures forall c: nat :: Cell(row, c) ==
                             if c < |p| then p[c]
                             else if c < |p| + |entry| then entry[c - |p|]
                             else if c <= |p| + |line| - m then SPACE
                             else Cell(line, c - |p|)
  {
    var col := |p| + |line| - m;
    var cut := EraseLeft(p + line, col);
    row := Overwrite(cut, 0, p + entry);
    RowIs(t, p, line, m);
    assert [CR] + p + entry == [CR] + (p + entry);
    InterpConcat(t, CLEAR_LEFT_CHAR, [CR] + (p + entry));
    ClearLeftOn(t, t, p + line, col);
    var u := Interp(t, CLEAR_LEFT_CHAR);
    InterpConcat(u, [CR], p + entry);
    ReturnOn(u, t, cut, col);
    WriteOn(Interp(u, [CR]), t, cut, 0, p + entry);
  }

  lemma {:induction false} ShowsLoaded(t: Term, p: seq<byte>, line: seq<byte>, m: nat, entry: seq<byte>)
    requires RowShows(t, p, line, m) && AllGraphic(p) && AllGraphic(entry)
    ensures RowShows(Interp(t, CLEAR_LEFT_CHAR + ([CR] + p + entry)), p, entry, 0)
            <==> PaintsOver(line, m, entry)
    ensures OnlyRow(t, Interp(t, CLEAR_LEFT_CHAR + ([CR] + p + entry)))
  {
    var u := Interp(t, CLEAR_LEFT_CHAR + ([CR] + p + entry));
    var row := Painted(t, p, line, m, entry);
    if PaintsOver(line, m, entry) {
      RowFrom(u, t, row, p, entry, 0);
    } else {
      var i :| 0 <= i < |line| && |entry| <= i && |line| - m < i && line[i] != SPACE;
      CellBehind(p, entry, |p| + i);
      assert Cell(row, |p| + i) == line[i];
      assert Cell(Current(u), |p| + i) != Cell(p + entry, |p| + i);
    }
  }

  /** One terminal shows two lines only if they differ in blanks behind the cursor. */
  lemma {:induction false} ShowsBoth(t: Term, p: seq<byte>, line: seq<byte>, m: nat, other: seq<byte>, k: nat)
    requires RowShows(t, p, line, m)
    ensures RowShows(t, p, other, k)
            <==> k <= |other| && |other| - k == |line| - m && SameText(line, other)
  {
    if SameText(line, other) {
      SameBehind(p, line, other);
    }
    if RowShows(t, p, other, k) {
      assert SameText(p + line, p + other);
      SameBehind(p, line, other);
    }
  }

  lemma SameAsBlank(line: seq<byte>)
    ensures SameText([], line) <==> Blank(line)
  {
    if SameText([], line) {
      assert forall i :: 0 <= i < |line| ==> line[i] == Cell(line, i) == Cell([], i);
    }
  }

  lemma SameAsPrefix(line: seq<byte>, shorter: seq<byte>)
    requires |shorter| <= |line|
    ensures SameText(line, shorter) <==> shorter == line[..|shorter|] && Blank(line[|shorter|..])
  {
    if SameText(line, shorter) {
      assert forall i :: 0 <= i < |line| ==> line[i] == Cell(line, i) == Cell(shorter, i);
    }
    if shorter == line[..|shorter|] && Blank(line[|shorter|..]) {
      forall c: nat
        ensures Cell(line, c) == Cell(shorter, c)
      {
        if |shorter| <= c < |line| {
          assert line[c] == line[|shorter|..][c - |shorter|];
        }
      }
    }
  }

  // ---------- One read ----------

  lemma GraphicAscii(text: string)
    requires forall i :: 0 <= i < |text| ==> 32 <= text[i] as int < 127
    ensures AllGraphic(Ascii(text))
  {
  }

  lemma PromptIsGraphic()
    ensures AllGraphic(PROMPT)
  {
    GraphicAscii("[debug_shell]#");
  }

  /** A text is plain if its characters are. */
  lemma PlainAscii(text: string)
    requires forall i :: 0 <= i < |text| ==> text[i] as int < 128 && text[i] as int != ESC
    ensures ESC !in Ascii(text)
  {
  }

  lemma PlainModes()
    ensures ESC !in HELP_SHOW && ESC !in HELP_NODE && ESC !in HELP_COMP
  {
    PlainAscii("\r\nshow\t\t--show command");
    PlainAscii("\r\nnode\t\t--enter node mode");
    PlainAscii("\r\ncomp\t\t--enter comp mode");
  }

  lemma PlainRest()
    ensures ESC !in HELP_PROC && ESC !in HELP_CLEAR && ESC !in HELP_DEBUG
  {
    PlainAscii("\r\nproc\t\t--enter proc mode");
    PlainAscii("\r\nCtrl + L\t--clear the terminal");
    PlainAscii("\r\ndebug\t\t--enter debug mode");
  }

  lemma PlainJoined(a: seq<byte>, b: seq<byte>, c: seq<byte>, d: seq<byte>, e: seq<byte>, f: seq<byte>)
    requires ESC !in a && ESC !in b && ESC !in c && ESC !in d && ESC !in e && ESC !in f
    ensures ESC !in a + b + c + d + e + f
  {
  }

  lemma HelpIsPlain()
    ensures ESC !in HELP_LINES
  {
    PlainModes();
    PlainRest();
    PlainJoined(HELP_SHOW, HELP_NODE, HELP_COMP, HELP_PROC, HELP_CLEAR, HELP_DEBUG);
  }

  /** The command an Enter runs leaves the terminal outside any control sequence and
      with nothing below the cursor. */
  ghost predicate OutputSettles(t: Term, s: State, k: Key) {
    k.Enter? && s.line != [] ==> Settled(Interp(Interp(t, CRLF), k.output))
  }

  lemma {:induction false} MoveStep(t: Term, s: State, k: Key)
    requires Shows(t, s) && Defined(s, k) && (k.Left? || k.Right?)
    ensures Shows(Interp(t, Echo(s, k)), Press(s, k)) && OnlyRow(t, Interp(t, Echo(s, k)))
  {
    var m, line := s.moveLeft, s.line;
    RowIs(t, PROMPT, line, m);
    if Echo(s, k) == [] {
      assert Interp(t, []) == t;
    } else if k.Left? {
      LeftOn(t, t, PROMPT + line, t.col);
      RowFrom(Interp(t, MOVE_LEFT), t, PROMPT + line, PROMPT, line, m + 1);
    } else {
      RightOn(t, t, PROMPT + line, t.col);
      RowFrom(Interp(t, MOVE_RIGHT), t, PROMPT + line, PROMPT, line, m - 1);
    }
  }

  lemma {:induction false} EraseStep(t: Term, s: State)
    requires Shows(t, s) && AllGraphic(s.line) && Defined(s, Erase)
    ensures Shows(Interp(t, Echo(s, Erase)), Press(s, Erase)) && OnlyRow(t, Interp(t, Echo(s, Erase)))
  {
    if s.moveLeft == |s.line| {
      assert Interp(t, []) == t;
    } else if s.moveLeft == 0 {
      ShowsErasedEnd(t, PROMPT, s.line);
    } else {
      ShowsErasedInside(t, PROMPT, s.line, s.moveLeft);
    }
  }

  lemma {:induction false} TextStep(t: Term, s: State, k: Key)
    requires Shows(t, s) && Defined(s, k) && Ordinary(k) && k.Text?
    ensures Shows(Interp(t, Echo(s, k)), Press(s, k)) && OnlyRow(t, Interp(t, Echo(s, k)))
  {
    if InsideLine(s) {
      var c := k.bytes[0];
      ShowsInserted(t, PROMPT, s.line, s.moveLeft, c);
      assert INSERT_BLANK + [c] + [] == INSERT_BLANK + [c];
    } else {
      ShowsTyped(t, PROMPT, s.line, k.bytes);
    }
  }

  /** Editing inside one row keeps the agreement and touches no other row. */
  lemma {:induction false} EditStep(t: Term, s: State, k: Key)
    requires Shows(t, s) && Inv(s) && GraphicState(s) && Defined(s, k) && Ordinary(k)
    requires k.Text? || k.Erase? || k.Left? || k.Right? || k.Ignored?
    ensures Shows(Interp(t, Echo(s, k)), Press(s, k)) && OnlyRow(t, Interp(t, Echo(s, k)))
  {
    if k.Left? || k.Right? {
      MoveStep(t, s, k);
    } else if k.Erase? {
      EraseStep(t, s);
    } else if k.Text? {
      TextStep(t, s, k);
    } else {
      assert Interp(t, []) == t;
    }
  }

  lemma {:induction false} BrowseStep(t: Term, s: State, k: Key)
    requires Shows(t, s) && Inv(s) && GraphicState(s) && Defined(s, k) && Typed(k)
    requires k.Up? || k.Down?
    ensures Shows(Interp(t, Echo(s, k)), Press(s, k)) <==> KeepsScreen(s, k)
    ensures OnlyRow(t, Interp(t, Echo(s, k)))
  {
    PromptIsGraphic();
    if (if k.Up? then s.index == 0 else s.index == |s.history|) {
      assert Interp(t, []) == t;
      ShowsBoth(t, PROMPT, s.line, s.moveLeft, s.recall, 0);
      if |s.recall| <= |s.line| {
        SameAsPrefix(s.line, s.recall);
      }
    } else {
      var entry := Entry(s.history, if k.Up? then s.index - 1 else s.index + 1);
      ShowsLoaded(t, PROMPT, s.line, s.moveLeft, entry);
    }
  }

  /** Ctrl-C, Ctrl-L, `?` and TAB print a fresh prompt on any settled terminal. */
  lemma {:induction false} PromptAppears(t: Term, s: State, k: Key)
    requires Settled(t) && Defined(s, k) && Typed(k)
    requires k.Interrupt? || k.ClearScreen? || k.Help? || k.Complete?
    ensures RowShows(Interp(t, Echo(s, k)), PROMPT, [], 0)
  {
    PromptIsGraphic();
    match k
    case Interrupt =>
      PlainTextSettles(t, Ascii("^C"));
      InterpConcat(t, Ascii("^C"), NEW_PROMPT);
      PromptsAnew(Interp(t, Ascii("^C")), PROMPT);
    case ClearScreen =>
      ClearsPage(t);
      InterpConcat(t, CLEAR_TERM + LOC_START + CLEAR_LINE, NEW_PROMPT);
      PromptsAnew(Term(map[0 := []], 0, 0, Ground), PROMPT);
    case Help =>
      HelpIsPlain();
      PlainTextSettles(t, HELP_LINES);
      InterpConcat(t, HELP_LINES, CRLF + CLEAR_RIGHT_CHAR + PROMPT);
      PromptsCleared(Interp(t, HELP_LINES), PROMPT);
    case Complete =>
      PlainTextSettles(t, Ascii("help"));
      InterpConcat(t, Ascii("help"), CRLF + CLEAR_RIGHT_CHAR + PROMPT);
      PromptsCleared(Interp(t, Ascii("help")), PROMPT);
  }

  /** Ctrl-L wipes the page: afterwards the prompt is in the second row and every other
      row of the terminal is blank, whatever stood there. */
  lemma {:induction false} ClearsEverything(t: Term, s: State)
    requires Settled(t) && s.open
    ensures var u := Interp(t, Echo(s, ClearScreen));
      && u.row == 1 && u.col == |PROMPT| && SameText(RowOf(u, 1), PROMPT)
      && forall r: nat :: r != 1 ==> SameText(RowOf(u, r), [])
  {
    var home := Term(map[0 := []], 0, 0, Ground);
    ClearsPage(t);
    InterpConcat(t, CLEAR_TERM + LOC_START + CLEAR_LINE, NEW_PROMPT);
    PromptIsGraphic();
    PromptBelow(home, PROMPT);
    assert Interp(home, NEW_PROMPT) == Interp(t, Echo(s, ClearScreen));
  }

  /** CR LF and a prompt write one row below and leave every other row as it was. */
  lemma {:induction false} PromptBelow(t: Term, p: seq<byte>)
    requires Settled(t) && AllGraphic(p)
    ensures var u := Interp(t, CRLF + p);
      && u.row == t.row + 1 && u.col == |p| && SameText(RowOf(u, u.row), p)
      && forall r: nat :: r != u.row ==> RowOf(u, r) == RowOf(t, r)
  {
    var v := Interp(t, CRLF);
    InterpConcat(t, CRLF, p);
    DownARow(t);
    WriteOn(v, v, [], 0, p);
    var u := Interp(v, p);
    assert forall r: nat :: RowOf(v, r) == RowOf(t, r);
    assert SameText(Current(u), p);
  }

  /** Ctrl-C writes `^C` at the cursor and goes on below; no other row changes. */
  lemma {:induction false} InterruptShows(t: Term, s: State)
    requires Settled(t) && s.open
    ensures var u := Interp(t, Echo(s, Interrupt));
      && u.row == t.row + 1
      && SameText(RowOf(u, t.row), Overwrite(Current(t), t.col, [94, 67]))
      && SameText(RowOf(u, u.row), PROMPT)
      && forall r: nat :: r != t.row && r != u.row ==> RowOf(u, r) == RowOf(t, r)
  {
    var notice := Ascii("^C");
    assert notice == [94, 67];
    PromptIsGraphic();
    InterpConcat(t, notice, NEW_PROMPT);
    WriteOn(t, t, Current(t), t.col, notice);
    OnRowSettles(Interp(t, notice), t, Overwrite(Current(t), t.col, notice), t.col + 2);
    PromptBelow(Interp(t, notice), PROMPT);
  }

  /** These four establish the agreement, whether it held before or not, exactly under
      their condition. */
  lemma {:induction false} PromptStep(t: Term, s: State, k: Key)
    requires Settled(t) && Defined(s, k) && Typed(k)
    requires k.Interrupt? || k.ClearScreen? || k.Help? || k.Complete?
    ensures Shows(Interp(t, Echo(s, k)), Press(s, k)) <==> KeepsScreen(s, k)
  {
    PromptAppears(t, s, k);
    ShowsBoth(Interp(t, Echo(s, k)), PROMPT, [], 0, Press(s, k).line, s.moveLeft);
    SameAsBlank(Press(s, k).line);
  }

  /** Enter establishes the agreement on any settled terminal, unless the line is one it
      refuses. */
  lemma {:induction false} EnterStep(t: Term, s: State, k: Key)
    requires Settled(t) && Defined(s, k) && k.Enter?
    requires OutputSettles(t, s, k) && Press(s, k).open
    ensures Shows(Interp(t, Echo(s, k)), Press(s, k)) <==> !RefusesCommit(s, k)
  {
    PromptIsGraphic();
    if s.line == [] {
      PromptsAnew(t, PROMPT);
    } else if s.line[0] == CR {
      DownARow(t);
    } else {
      InterpConcat(t, CRLF + k.output, NEW_PROMPT);
      InterpConcat(t, CRLF, k.output);
      PromptsAnew(Interp(Interp(t, CRLF), k.output), PROMPT);
    }
  }

  /** For every key: the terminal agrees afterwards exactly under the key's condition. */
  lemma {:induction false} ScreenStep(t: Term, s: State, k: Key)
    requires Shows(t, s) && Inv(s) && GraphicState(s) && Defined(s, k) && Ordinary(k)
    requires OutputSettles(t, s, k) && Press(s, k).open
    ensures Shows(Interp(t, Echo(s, k)), Press(s, k)) <==> KeepsScreen(s, k)
  {
    if k.Up? || k.Down? {
      BrowseStep(t, s, k);
    } else if k.Interrupt? || k.ClearScreen? || k.Help? || k.Complete? {
      PromptStep(t, s, k);
    } else if k.Enter? {
      assert s.line != [] ==> Graphic(s.line[0]);
      EnterStep(t, s, k);
    } else {
      EditStep(t, s, k);
    }
  }

  /** One read that does lose it: Down on the fresh prompt after a command. */
  lemma DownOnFreshPrompt(s: State, output: seq<byte>)
    requires Inv(s) && s.open && s.line != [] && s.line[0] != CR
    requires !Leaves(s.line) && |s.history| < MAX_CMD_HISTORY_NUM
    ensures !KeepsScreen(Press(s, Enter(output)), Down)
  {
    DownAfterCommit(s, output);
  }

  lemma PlainOutputSettles(t: Term, s: State, k: Key)
    requires Settled(t) && k.Enter? && ESC !in k.output
    ensures OutputSettles(t, s, k)
  {
    DownARow(t);
    PlainTextSettles(Interp(t, CRLF), k.output);
  }

  lemma GraphicStep(s: State, k: Key)
    requires Inv(s) && GraphicState(s) && Defined(s, k) && Ordinary(k)
    ensures GraphicState(Press(s, k))
  {
  }

  // ---------- Settled terminals ----------

  lemma ControlSettles(t: Term)
    requires Settled(t)
    ensures Settled(Interp(t, MOVE_LEFT)) && Settled(Interp(t, MOVE_RIGHT))
    ensures Settled(Interp(t, CLEAR_RIGHT_CHAR)) && Settled(Interp(t, CLEAR_LEFT_CHAR))
    ensures Settled(Interp(t, INSERT_BLANK))
  {
    var row := Current(t);
    LeftOn(t, t, row, t.col);
    RightOn(t, t, row, t.col);
    ClearRightOn(t, t, row, t.col);
    ClearLeftOn(t, t, row, t.col);
    InsertOn(t, t, row, t.col);
    OnRowSettles(Interp(t, MOVE_LEFT), t, row, if t.col == 0 then 0 else t.col - 1);
    OnRowSettles(Interp(t, MOVE_RIGHT), t, row, t.col + 1);
    OnRowSettles(Interp(t, CLEAR_RIGHT_CHAR), t, EraseRight(row, t.col), t.col);
    OnRowSettles(Interp(t, CLEAR_LEFT_CHAR), t, EraseLeft(row, t.col), t.col);
    OnRowSettles(Interp(t, INSERT_BLANK), t, InsertBlanks(row, t.col, 1), t.col);
  }

  lemma {:induction false} LeftsSettle(t: Term, n: nat)
    requires Settled(t)
    ensures Settled(Interp(t, Repeat(MOVE_LEFT, n)))
    decreases n
  {
    if n > 0 {
      LeftsSettle(t, n - 1);
      InterpConcat(t, Repeat(MOVE_LEFT, n - 1), MOVE_LEFT);
      ControlSettles(Interp(t, Repeat(MOVE_LEFT, n - 1)));
    }
  }

  lemma GraphicIsPlain(bytes: seq<byte>)
    requires AllGraphic(bytes)
    ensures ESC !in bytes
  {
  }

  lemma {:induction false} EraseSettles(t: Term, s: State)
    requires Settled(t) && AllGraphic(s.line) && Defined(s, Erase)
    ensures Settled(Interp(t, EchoErase(s)))
  {
    var m, redrawn, lefts := s.moveLeft, EchoBackspace(s.line, s.moveLeft), EchoLefts(s.moveLeft);
    if |s.line| != m {
      InterpConcat(t, RUB_OUT + redrawn, lefts);
      InterpConcat(t, RUB_OUT, redrawn);
      PlainTextSettles(t, RUB_OUT);
      RedrawSettles(Interp(t, RUB_OUT), s.line, m);
      var u := Interp(Interp(t, RUB_OUT), redrawn);
      LeftsSettle(u, m);
      ControlSettles(u);
    }
  }

  lemma {:induction false} RedrawSettles(t: Term, line: seq<byte>, m: nat)
    requires Settled(t) && AllGraphic(line)
    ensures Settled(Interp(t, EchoBackspace(line, m)))
  {
    if line == [] || m >= |line| {
      assert Interp(t, []) == t;
    } else if m > 0 {
      var right := line[|line| - m..];
      GraphicIsPlain(right);
      InterpConcat(t, CLEAR_RIGHT_CHAR, right);
      ControlSettles(t);
      PlainTextSettles(Interp(t, CLEAR_RIGHT_CHAR), right);
    } else {
      PlainTextSettles(t, [SPACE]);
    }
  }

  lemma {:induction false} TextSettles(t: Term, s: State, bytes: seq<byte>)
    requires Settled(t) && AllGraphic(bytes) && bytes != []
    ensures Settled(Interp(t, EchoText(s, bytes)))
  {
    GraphicIsPlain(bytes);
    if !InsideLine(s) {
      PlainTextSettles(t, bytes);
    } else if s.moveLeft <= |s.line| {
      InterpConcat(t, INSERT_BLANK, [bytes[0]]);
      ControlSettles(t);
      PlainTextSettles(Interp(t, INSERT_BLANK), [bytes[0]]);
      assert EchoText(s, bytes) == INSERT_BLANK + [bytes[0]];
    } else {
      assert EchoText(s, bytes) == [];
      assert Interp(t, []) == t;
    }
  }

  lemma {:induction false} LoadSettles(t: Term, entry: seq<byte>)
    requires Settled(t) && AllGraphic(entry)
    ensures Settled(Interp(t, EchoLoad(entry)))
  {
    PromptIsGraphic();
    GraphicIsPlain(PROMPT);
    GraphicIsPlain(entry);
    var text := [CR] + PROMPT + entry;
    assert ESC !in [CR] && ESC !in [CR] + PROMPT && ESC !in text;
    InterpConcat(t, CLEAR_LEFT_CHAR, text);
    ControlSettles(t);
    PlainTextSettles(Interp(t, CLEAR_LEFT_CHAR), text);
  }

  lemma {:induction false} EnterSettles(t: Term, s: State, k: Key)
    requires Settled(t) && k.Enter? && OutputSettles(t, s, k)
    ensures Settled(Interp(t, EchoEnter(s, k.output)))
  {
    PromptIsGraphic();
    DownARow(t);
    if s.line == [] {
      PromptsAnew(t, PROMPT);
    } else if s.line[0] != CR && !Leaves(s.line) {
      InterpConcat(t, CRLF + k.output, NEW_PROMPT);
      InterpConcat(t, CRLF, k.output);
      PromptsAnew(Interp(Interp(t, CRLF), k.output), PROMPT);
    }
  }

  /** Whatever the row shows, no read leaves the terminal inside a control sequence or
      with text below the cursor. */
  lemma {:induction false} EchoSettles(t: Term, s: State, k: Key)
    requires Settled(t) && GraphicState(s) && Defined(s, k) && Ordinary(k)
    requires OutputSettles(t, s, k)
    ensures Settled(Interp(t, Echo(s, k)))
  {
    assert Interp(t, []) == t;
    if k.Up? || k.Down? {
      LoadSettles(t, Entry(s.history, if k.Down? then s.index + 1 else if s.index > 0 then s.index - 1 else 0));
    } else if k.Interrupt? || k.ClearScreen? || k.Help? || k.Complete? {
      PromptAppears(t, s, k);
    } else if k.Enter? {
      EnterSettles(t, s, k);
    } else if k.Erase? {
      EraseSettles(t, s);
    } else if k.Text? {
      TextSettles(t, s, k.bytes);
    } else {
      ControlSettles(t);
    }
  }

  // ---------- Whole sessions ----------

  ghost predicate OutputsSettle(t: Term, s: State, ks: seq<Key>)
    requires DefinedRun(s, ks) && TypedRun(ks)
    decreases |ks|
  {
    ks == [] ||
    (OutputSettles(t, s, ks[0]) &&
     OutputsSettle(Interp(t, Echo(s, ks[0])), Press(s, ks[0]), ks[1..]))
  }

  /** The terminal agrees with the editor before every read and at the end. */
  ghost predicate AgreesThroughout(t: Term, s: State, ks: seq<Key>)
    requires DefinedRun(s, ks) && TypedRun(ks)
    decreases |ks|
  {
    Shows(t, s) &&
    (ks == [] || AgreesThroughout(Interp(t, Echo(s, ks[0])), Press(s, ks[0]), ks[1..]))
  }

  /** What the commands of the run print holds no ESC. */
  predicate PlainOutputs(ks: seq<Key>) {
    forall i :: 0 <= i < |ks| && ks[i].Enter? ==> ESC !in ks[i].output
  }

  /** Such output settles throughout the run, whatever the row shows meanwhile. */
  lemma {:induction false} PlainOutputsSettle(t: Term, s: State, ks: seq<Key>)
    requires Settled(t) && Inv(s) && GraphicState(s)
    requires DefinedRun(s, ks) && TypedRun(ks) && OrdinaryRun(ks) && PlainOutputs(ks)
    ensures OutputsSettle(t, s, ks)
    decreases |ks|
  {
    if ks != [] {
      var k := ks[0];
      if k.Enter? {
        PlainOutputSettles(t, s, k);
      }
      EchoSettles(t, s, k);
      InvStep(s, k);
      GraphicStep(s, k);
      PlainOutputsSettle(Interp(t, Echo(s, k)), Press(s, k), ks[1..]);
    }
  }

  lemma {:induction false} RunSettles(t: Term, s: State, ks: seq<Key>)
    requires Settled(t) && Inv(s) && GraphicState(s)
    requires DefinedRun(s, ks) && TypedRun(ks) && OrdinaryRun(ks) && OutputsSettle(t, s, ks)
    ensures Settled(Interp(t, Sent(s, ks)))
    ensures Inv(Run(s, ks)) && GraphicState(Run(s, ks))
    decreases |ks|
  {
    if ks == [] {
      assert Interp(t, []) == t;
    } else {
      var k := ks[0];
      EchoSettles(t, s, k);
      InvStep(s, k);
      GraphicStep(s, k);
      InterpConcat(t, Echo(s, k), Sent(Press(s, k), ks[1..]));
      RunSettles(Interp(t, Echo(s, k)), Press(s, k), ks[1..]);
    }
  }

  /** The screen heals: after any run of ordinary reads, however the row and the line
      disagree by then, Enter brings them together, and so do Ctrl-C and Ctrl-L exactly
      with the cursor at the end. */
  lemma {:induction false} ScreenHeals(t: Term, s: State, ks: seq<Key>, k: Key)
    requires Settled(t) && Inv(s) && GraphicState(s)
    requires DefinedRun(s, ks) && TypedRun(ks) && OrdinaryRun(ks) && OutputsSettle(t, s, ks)
    requires k.Enter? || k.Interrupt? || k.ClearScreen?
    requires Run(s, ks).open && Press(Run(s, ks), k).open
    requires OutputSettles(Interp(t, Sent(s, ks)), Run(s, ks), k)
    ensures Shows(Interp(t, Sent(s, ks) + Echo(Run(s, ks), k)), Press(Run(s, ks), k))
            <==> !StrandsCursor(Run(s, ks), k)
  {
    var r := Run(s, ks);
    RunSettles(t, s, ks);
    InterpConcat(t, Sent(s, ks), Echo(r, k));
    if k.Enter? {
      assert r.line != [] ==> Graphic(r.line[0]);
      EnterStep(Interp(t, Sent(s, ks)), r, k);
    } else {
      PromptStep(Interp(t, Sent(s, ks)), r, k);
    }
  }

  predicate KeepsScreenThroughout(s: State, ks: seq<Key>)
    requires DefinedRun(s, ks)
    decreases |ks|
  {
    ks == [] || (KeepsScreen(s, ks[0]) && KeepsScreenThroughout(Press(s, ks[0]), ks[1..]))
  }

  predicate OrdinaryRun(ks: seq<Key>) {
    forall i :: 0 <= i < |ks| ==> Ordinary(ks[i])
  }

  lemma {:induction false} OpenBefore(s: State, ks: seq<Key>)
    requires DefinedRun(s, ks) && ks != [] && Run(s, ks).open
    ensures Press(s, ks[0]).open
  {
  }

  /** Over a whole run the terminal agrees at every step exactly if every key meets
      its condition. */
  lemma {:induction false} ScreenRun(t: Term, s: State, ks: seq<Key>)
    requires Shows(t, s) && Inv(s) && GraphicState(s)
    requires DefinedRun(s, ks) && TypedRun(ks) && OrdinaryRun(ks)
    requires OutputsSettle(t, s, ks) && Run(s, ks).open
    ensures AgreesThroughout(t, s, ks) <==> KeepsScreenThroughout(s, ks)
    ensures KeepsScreenThroughout(s, ks) ==> Shows(Interp(t, Sent(s, ks)), Run(s, ks))
    decreases |ks|
  {
    if ks == [] {
      assert Interp(t, []) == t;
    } else {
      var k, u, r := ks[0], Interp(t, Echo(s, ks[0])), Press(s, ks[0]);
      OpenBefore(s, ks);
      ScreenStep(t, s, k);
      InvStep(s, k);
      GraphicStep(s, k);
      InterpConcat(t, Echo(s, k), Sent(r, ks[1..]));
      if Shows(u, r) {
        ScreenRun(u, r, ks[1..]);
      }
    }
  }

  lemma WelcomeIsPlain()
    ensures ESC !in WELCOME
  {
  }

  /** The greeting shows the empty prompt on any settled terminal. */
  lemma {:induction false} BannerShows(t: Term)
    requires Settled(t)
    ensures Shows(Interp(t, BANNER), FRESH)
  {
    PromptIsGraphic();
    WelcomeIsPlain();
    PlainTextSettles(t, WELCOME);
    InterpConcat(t, WELCOME, NEW_PROMPT);
    PromptsAnew(Interp(t, WELCOME), PROMPT);
  }

  /** From the connection on: all bytes ever sent leave the prompt row showing the line. */
  lemma {:induction false} SessionScreen(t: Term, ks: seq<Key>)
    requires Settled(t)
    requires DefinedRun(FRESH, ks) && TypedRun(ks) && OrdinaryRun(ks)
    requires OutputsSettle(Interp(t, BANNER), FRESH, ks) && Run(FRESH, ks).open
    ensures KeepsScreenThroughout(FRESH, ks) ==>
              Shows(Interp(t, BANNER + Sent(FRESH, ks)), Run(FRESH, ks))
    ensures AgreesThroughout(Interp(t, BANNER), FRESH, ks) <==> KeepsScreenThroughout(FRESH, ks)
  {
    BannerShows(t);
    ScreenRun(Interp(t, BANNER), FRESH, ks);
    InterpConcat(t, BANNER, Sent(FRESH, ks));
  }
}
