/** What one read from the client does to the editing state and what it sends
    back, on values.  The class `TelnetMgr` computes exactly this in place. */
module LineEditor {
  import opened Bytes
  import opened CStrings
  import opened Seqs

  /** One read, classified.  `Enter` carries what the command it runs prints. */
  datatype Key =
    | Ignored
    | Interrupt
    | ClearScreen
    | Up
    | Down
    | Right
    | Left
    | Erase
    | Help
    | Complete
    | Enter(output: seq<byte>)
    | Text(bytes: seq<byte>)

  predicate IsArrow(chunk: seq<byte>, final: char) {
    |chunk| >= 3 && chunk[0] == ESC && chunk[1] == BRACKET && chunk[2] == final as int % 256
  }

  /** The tests of the input loop, in its order. */
  function Classify(chunk: seq<byte>, output: seq<byte>): (k: Key)
    requires chunk != []
    ensures Typed(k) || NUL in chunk
  {
    if chunk[0] == IAC || chunk[0] == DO then Ignored
    else if chunk == [CTRL_C] then Interrupt
    else if chunk[0] == CTRL_L then ClearScreen
    else if IsArrow(chunk, 'A') then Up
    else if IsArrow(chunk, 'B') then Down
    else if IsArrow(chunk, 'C') then Right
    else if IsArrow(chunk, 'D') then Left
    else if chunk[0] == BS || chunk[0] == DEL then Erase
    else if chunk[0] == QUESTION then Help
    else if chunk[0] == TAB then Complete
    else if chunk[0] == CR then Enter(output)
    else Text(chunk)
  }

  /** Text as it reaches the end of the test cascade. */
  predicate Typed(k: Key) {
    k.Text? ==>
      && k.bytes != [] && NUL !in k.bytes && k.bytes != [CTRL_C]
      && k.bytes[0] !in {IAC, DO, CTRL_L, BS, DEL, QUESTION, TAB, CR}
      && !IsArrow(k.bytes, 'A') && !IsArrow(k.bytes, 'B')
      && !IsArrow(k.bytes, 'C') && !IsArrow(k.bytes, 'D')
  }

  /** What a client sends for a key: ECMA-48 CUU, CUD, CUF and CUB for the arrows. */
  function KeyBytes(k: Key): seq<byte> {
    match k
    case Ignored => [IAC]
    case Interrupt => [CTRL_C]
    case ClearScreen => [CTRL_L]
    case Up => Ascii("\U{1b}[A")
    case Down => Ascii("\U{1b}[B")
    case Right => Ascii("\U{1b}[C")
    case Left => Ascii("\U{1b}[D")
    case Erase => [DEL]
    case Help => Ascii("?")
    case Complete => Ascii("\t")
    case Enter(_) => [CR]
    case Text(bytes) => bytes
  }

  /** Every key is told from every other. */
  lemma ClassifyKeyBytes(k: Key, output: seq<byte>)
    requires Typed(k) && (k.Enter? ==> k.output == output)
    ensures KeyBytes(k) != [] && Classify(KeyBytes(k), output) == k
  {
  }

  /** The dispatch by byte values, whatever follows in the same read: BS or DEL, Ctrl-L,
      `?`, TAB, CR and the arrows are told by their first bytes, Ctrl-C only alone. */
  lemma Dispatch(rest: seq<byte>, output: seq<byte>)
    ensures Classify([255] + rest, output) == Classify([253] + rest, output) == Ignored
    ensures Classify([3], output) == Interrupt
    ensures Classify([12] + rest, output) == ClearScreen
    ensures Classify([27, 91, 65] + rest, output) == Up
    ensures Classify([27, 91, 66] + rest, output) == Down
    ensures Classify([27, 91, 67] + rest, output) == Right
    ensures Classify([27, 91, 68] + rest, output) == Left
    ensures Classify([8] + rest, output) == Classify([127] + rest, output) == Erase
    ensures Classify([63] + rest, output) == Help
    ensures Classify([9] + rest, output) == Complete
    ensures Classify([13] + rest, output) == Enter(output)
  {
  }

  /** Every other read is text, as a whole. */
  lemma DispatchText(chunk: seq<byte>, output: seq<byte>)
    requires chunk != [] && chunk != [3]
    requires chunk[0] !in {255, 253, 12, 8, 127, 63, 9, 13}
    requires |chunk| >= 3 && chunk[0] == 27 && chunk[1] == 91 ==> !(65 <= chunk[2] <= 68)
    ensures Classify(chunk, output) == Text(chunk)
  {
  }

  /** `moveLeft` is the distance of the cursor from the end of the line, `recall`
      is `g_cmd`, and `index` is where history browsing stands. */
  datatype State = State(
    line: seq<byte>,
    moveLeft: nat,
    recall: seq<byte>,
    history: seq<seq<byte>>,
    index: nat,
    open: bool)

  const FRESH: State := State([], 0, [], [], 0, true)

  predicate Storable(line: seq<byte>) {
    |line| < MAX_CMD_LEN && NUL !in line
  }

  ghost predicate Inv(s: State) {
    && Storable(s.line) && Storable(s.recall)
    && s.index <= |s.history| <= MAX_CMD_HISTORY_NUM
    && forall i :: 0 <= i < |s.history| ==> Storable(s.history[i]) && s.history[i] != []
  }

  /** The part of a log of lines that the history has room for. */
  function Kept(log: seq<seq<byte>>): seq<seq<byte>> {
    if |log| <= MAX_CMD_HISTORY_NUM then log else log[..MAX_CMD_HISTORY_NUM]
  }

  /** The slot `i` of the history; slots never filled hold the empty string. */
  function Entry(history: seq<seq<byte>>, i: nat): seq<byte> {
    if i < |history| then history[i] else []
  }

  function InsertAt(line: seq<byte>, moveLeft: nat, c: byte): seq<byte>
    requires moveLeft <= |line|
  {
    line[..|line| - moveLeft] + [c] + line[|line| - moveLeft..]
  }

  function DeleteAt(line: seq<byte>, moveLeft: nat): seq<byte>
    requires moveLeft < |line|
  {
    line[..|line| - moveLeft - 1] + line[|line| - moveLeft..]
  }

  /** The line the prompt and one recalled line are printed from has room. */
  predicate Printable(entry: seq<byte>) {
    1 + |PROMPT| + |entry| < MAX_CMD_LEN
  }

  predicate InsideLine(s: State) {
    s.moveLeft > 0 && s.line != []
  }

  /** The reads for which the original stays inside its buffers. */
  predicate Defined(s: State, k: Key) {
    && s.open
    && match k
       case Up => 0 < s.index <= |s.history| ==> Printable(s.history[s.index - 1])
       case Down => s.index != |s.history| ==>
         s.index + 1 < MAX_CMD_HISTORY_NUM && Printable(Entry(s.history, s.index + 1))
       case Erase => s.line == [] || s.moveLeft <= |s.line|
       case Text(bytes) =>
         if InsideLine(s) then s.moveLeft <= |s.line| ==> |s.line| + 1 < MAX_CMD_LEN
         else |s.line| + |bytes| < MAX_CMD_LEN
       case _ => true
  }

  function Load(s: State, index: nat, entry: seq<byte>): State {
    s.(moveLeft := 0, index := index, recall := entry, line := entry)
  }

  /** A full history takes nothing more and leaves the browsing index where it is. */
  function Remember(s: State, line: seq<byte>): State {
    if |s.history| >= MAX_CMD_HISTORY_NUM then s
    else s.(history := s.history + [line], index := |s.history| + 1)
  }

  /** The commands that end the session. */
  predicate Leaves(line: seq<byte>): (b: bool)
    ensures b <==> line == [113, 117, 105, 116] || line == [101, 120, 105, 116]
  {
    line == QUIT || line == EXIT
  }

  function Commit(s: State): State {
    var t := s.(moveLeft := 0, recall := s.line);
    if s.line != [] && s.line[0] == CR then t
    else if Leaves(s.line) then Remember(t, s.line).(open := false)
    else Remember(t, s.line).(line := [])
  }

  function Entered(s: State): State {
    if s.line == [] then s.(moveLeft := 0) else Commit(s)
  }

  function Press(s: State, k: Key): State
    requires Defined(s, k)
  {
    match k
    case Ignored => s
    case Interrupt => s.(line := [])
    case ClearScreen => s.(line := [])
    case Up =>
      if s.index == 0 then Load(s, 0, s.recall)
      else Load(s, s.index - 1, Entry(s.history, s.index - 1))
    case Down =>
      if s.index == |s.history| then Load(s, s.index, s.recall)
      else Load(s, s.index + 1, Entry(s.history, s.index + 1))
    case Right => if s.moveLeft > 0 then s.(moveLeft := s.moveLeft - 1) else s
    case Left => if s.moveLeft >= |s.line| then s else s.(moveLeft := s.moveLeft + 1)
    case Erase =>
      if |s.line| == s.moveLeft || s.line == [] then s
      else s.(line := DeleteAt(s.line, s.moveLeft))
    case Help => s
    case Complete => s
    case Enter(_) => Entered(s)
    case Text(bytes) =>
      if !InsideLine(s) then s.(line := s.line + bytes)
      else if bytes != [] && s.moveLeft <= |s.line| then s.(line := InsertAt(s.line, s.moveLeft, bytes[0]))
      else s
  }

  predicate DefinedRun(s: State, ks: seq<Key>)
    decreases |ks|
  {
    ks == [] || (Defined(s, ks[0]) && DefinedRun(Press(s, ks[0]), ks[1..]))
  }

  function Run(s: State, ks: seq<Key>): State
    requires DefinedRun(s, ks)
    decreases |ks|
  {
    if ks == [] then s else Run(Press(s, ks[0]), ks[1..])
  }

  // ---------- What is sent back ----------

  /** `%d` */
  function Decimal(n: nat): seq<byte> {
    if n < 10 then [48 + n] else Decimal(n / 10) + [48 + n % 10]
  }

  const HELP_SHOW: seq<byte> := Ascii("\r\nshow\t\t--show command")
  const HELP_NODE: seq<byte> := Ascii("\r\nnode\t\t--enter node mode")
  const HELP_COMP: seq<byte> := Ascii("\r\ncomp\t\t--enter comp mode")
  const HELP_PROC: seq<byte> := Ascii("\r\nproc\t\t--enter proc mode")
  const HELP_CLEAR: seq<byte> := Ascii("\r\nCtrl + L\t--clear the terminal")
  const HELP_DEBUG: seq<byte> := Ascii("\r\ndebug\t\t--enter debug mode")
  const HELP_LINES: seq<byte> :=
    HELP_SHOW + HELP_NODE + HELP_COMP + HELP_PROC + HELP_CLEAR + HELP_DEBUG

  const WELCOME: seq<byte> := Ascii("\r\nWelcome to telnet debug terminal\r\n")
  const BANNER: seq<byte> := WELCOME + NEW_PROMPT

  function EchoBackspace(line: seq<byte>, m: nat): seq<byte> {
    if line == [] || m >= |line| then []
    else if m > 0 then CLEAR_RIGHT_CHAR + line[|line| - m..]
    else [SPACE]
  }

  function EchoLefts(m: nat): seq<byte> {
    if m > 0 then Repeat(MOVE_LEFT, m) else MOVE_LEFT
  }

  function EchoErase(s: State): seq<byte> {
    if |s.line| == s.moveLeft then []
    else RUB_OUT + EchoBackspace(s.line, s.moveLeft) + EchoLefts(s.moveLeft)
  }

  function EchoEnter(s: State, output: seq<byte>): seq<byte> {
    if s.line == [] then NEW_PROMPT
    else if s.line[0] == CR || Leaves(s.line) then CRLF
    else CRLF + output + NEW_PROMPT
  }

  function EchoInsert(line: seq<byte>, m: nat, c: byte): seq<byte> {
    if 0 < m <= |line| then INSERT_BLANK + [c] else []
  }

  /** After a byte that is not printable the cursor is sent back once more. */
  function EchoStepBack(m: nat, c: byte): seq<byte> {
    if SPACE <= c <= DEL then [] else [ESC, BRACKET] + Decimal(m) + ['D' as int % 256]
  }

  function EchoText(s: State, bytes: seq<byte>): seq<byte>
    requires bytes != []
  {
    if !InsideLine(s) then bytes
    else EchoInsert(s.line, s.moveLeft, bytes[0]) + EchoStepBack(s.moveLeft, bytes[0])
  }

  function EchoLoad(entry: seq<byte>): seq<byte> {
    CLEAR_LEFT_CHAR + ([CR] + PROMPT + entry)
  }

  function Echo(s: State, k: Key): seq<byte>
    requires Defined(s, k) && Typed(k)
  {
    match k
    case Ignored => []
    case Interrupt => Ascii("^C") + NEW_PROMPT
    case ClearScreen => (CLEAR_TERM + LOC_START + CLEAR_LINE) + NEW_PROMPT
    case Up => if s.index == 0 then [] else EchoLoad(Entry(s.history, s.index - 1))
    case Down => if s.index == |s.history| then [] else EchoLoad(Entry(s.history, s.index + 1))
    case Right => if s.moveLeft > 0 then MOVE_RIGHT else []
    case Left => if s.moveLeft >= |s.line| then [] else MOVE_LEFT
    case Erase => EchoErase(s)
    case Help => HELP_LINES + (CRLF + CLEAR_RIGHT_CHAR + PROMPT)
    case Complete => Ascii("help") + (CRLF + CLEAR_RIGHT_CHAR + PROMPT)
    case Enter(output) => EchoEnter(s, output)
    case Text(bytes) => EchoText(s, bytes)
  }

  predicate TypedRun(ks: seq<Key>) {
    forall i :: 0 <= i < |ks| ==> Typed(ks[i])
  }

  function Sent(s: State, ks: seq<Key>): seq<byte>
    requires DefinedRun(s, ks) && TypedRun(ks)
    decreases |ks|
  {
    if ks == [] then [] else Echo(s, ks[0]) + Sent(Press(s, ks[0]), ks[1..])
  }

  // ---------- Runs ----------

  lemma InvStep(s: State, k: Key)
    requires Inv(s) && Defined(s, k) && Typed(k)
    ensures Inv(Press(s, k))
  {
  }

  lemma {:induction false} RunPrefix(s: State, ks: seq<Key>, ls: seq<Key>)
    requires DefinedRun(s, ks + ls)
    ensures DefinedRun(s, ks)
    decreases |ks|
  {
    if ks != [] {
      assert (ks + ls)[1..] == ks[1..] + ls;
      RunPrefix(Press(s, ks[0]), ks[1..], ls);
    }
  }

  lemma {:induction false} RunConcat(s: State, ks: seq<Key>, ls: seq<Key>)
    requires DefinedRun(s, ks)
    ensures DefinedRun(s, ks + ls) <==> DefinedRun(Run(s, ks), ls)
    ensures DefinedRun(s, ks + ls) ==> Run(s, ks + ls) == Run(Run(s, ks), ls)
    decreases |ks|
  {
    if ks == [] {
      assert ks + ls == ls;
    } else {
      assert (ks + ls)[1..] == ks[1..] + ls;
      RunConcat(Press(s, ks[0]), ks[1..], ls);
    }
  }

  lemma {:induction false} RunSingle(s: State, k: Key)
    requires Defined(s, k)
    ensures DefinedRun(s, [k]) && Run(s, [k]) == Press(s, k)
  {
    var t := Press(s, k);
    assert [k][0] == k;
    assert [k][1..] == [];
    assert DefinedRun(t, []);
    assert DefinedRun(s, [k]);
    assert Run(t, []) == t;
  }

  /** One more key at the end of a run. */
  lemma {:induction false} RunThen(s: State, ks: seq<Key>, k: Key)
    requires DefinedRun(s, ks) && Defined(Run(s, ks), k)
    ensures DefinedRun(s, ks + [k]) && Run(s, ks + [k]) == Press(Run(s, ks), k)
  {
    var t := Run(s, ks);
    RunSingle(t, k);
    RunConcat(s, ks, [k]);
  }

  lemma {:induction false} InvRun(s: State, ks: seq<Key>)
    requires Inv(s) && DefinedRun(s, ks) && TypedRun(ks)
    ensures Inv(Run(s, ks))
    decreases |ks|
  {
    if ks != [] {
      InvStep(s, ks[0]);
      InvRun(Press(s, ks[0]), ks[1..]);
    }
  }

  /** A run up to key `i` and one key more. */
  lemma {:induction false} RunSnoc(s: State, ks: seq<Key>, i: nat)
    requires TypedRun(ks) && DefinedRun(s, ks) && i < |ks|
    ensures DefinedRun(s, ks[..i]) && DefinedRun(s, ks[..i + 1])
    ensures Defined(Run(s, ks[..i]), ks[i])
    ensures Run(s, ks[..i + 1]) == Press(Run(s, ks[..i]), ks[i])
    ensures Sent(s, ks[..i + 1]) == Sent(s, ks[..i]) + Echo(Run(s, ks[..i]), ks[i])
    decreases i
  {
    var k, more := ks[0], ks[1..];
    if i == 0 {
      assert ks[..0] == [] && ks[..1] == [k] && [k][1..] == [];
      assert [] + Echo(s, k) == Echo(s, k) == Echo(s, k) + [];
    } else {
      RunSnoc(Press(s, k), more, i - 1);
      assert ks[..i + 1][1..] == more[..i] && ks[..i][1..] == more[..i - 1];
      Reassociate(Echo(s, k), Sent(Press(s, k), more[..i - 1]), Echo(Run(s, ks[..i]), ks[i]));
    }
  }
}
