/** The client's terminal: a page of rows without right margin, driven byte by byte
    by the control functions of ECMA-48 the server uses: BS (8.3.5), CR (8.3.15),
    CUB (8.3.18), CUF (8.3.20), CUP (8.3.21), ED (8.3.39), EL (8.3.41), HT (8.3.60),
    ICH (8.3.64) and LF (8.3.74). */
module Terminal {
  import opened Bytes

  datatype Parser = Ground | Escape | Csi(params: seq<byte>)

  /** Rows that are not in `page`, and columns behind a row's end, are blank. */
  datatype Term = Term(page: map<nat, seq<byte>>, row: nat, col: nat, parser: Parser)

  // ---------- Rows ----------

  function Cell(row: seq<byte>, c: nat): byte {
    if c < |row| then row[c] else SPACE
  }

  ghost predicate SameText(a: seq<byte>, b: seq<byte>) {
    forall c: nat {:trigger Cell(a, c)} {:trigger Cell(b, c)} :: Cell(a, c) == Cell(b, c)
  }

  function Blanks(n: nat): (r: seq<byte>)
    ensures |r| == n && forall i :: 0 <= i < n ==> r[i] == SPACE
  {
    seq(n, _ => SPACE)
  }

  function Put(row: seq<byte>, at: nat, b: byte): (r: seq<byte>)
    ensures forall c: nat :: Cell(r, c) == if c == at then b else Cell(row, c)
  {
    if at < |row| then row[at := b] else row + Blanks(at - |row|) + [b]
  }

  function EraseRight(row: seq<byte>, at: nat): (r: seq<byte>)
    ensures forall c: nat :: Cell(r, c) == if c < at then Cell(row, c) else SPACE
  {
    if at < |row| then row[..at] else row
  }

  /** Up to the cursor and including its position. */
  function EraseLeft(row: seq<byte>, at: nat): (r: seq<byte>)
    ensures forall c: nat :: Cell(r, c) == if c <= at then SPACE else Cell(row, c)
  {
    if at + 1 < |row| then Blanks(at + 1) + row[at + 1..] else []
  }

  function InsertBlanks(row: seq<byte>, at: nat, n: nat): seq<byte> {
    if at < |row| then row[..at] + Blanks(n) + row[at..] else row
  }

  lemma CellInserted(row: seq<byte>, at: nat, n: nat, c: nat)
    ensures Cell(InsertBlanks(row, at, n), c) ==
            if c < at then Cell(row, c) else if c < at + n then SPACE else Cell(row, c - n)
  {
  }

  // ---------- The control functions ----------

  function RowOf(t: Term, r: nat): seq<byte> {
    if r in t.page then t.page[r] else []
  }

  function Current(t: Term): seq<byte> {
    RowOf(t, t.row)
  }

  function WithRow(t: Term, row: seq<byte>): (u: Term)
    ensures Current(u) == row
  {
    t.(page := t.page[t.row := row])
  }

  function Number(digits: seq<byte>): nat {
    if digits == [] then 0
    else
      var d := digits[|digits| - 1];
      Number(digits[..|digits| - 1]) * 10 + if 48 <= d <= 57 then d - 48 else 0
  }

  function FirstParam(ps: seq<byte>): (r: seq<byte>)
    ensures |r| <= |ps|
  {
    if ps == [] || ps[0] == ';' as int then [] else [ps[0]] + FirstParam(ps[1..])
  }

  function SecondParam(ps: seq<byte>): seq<byte> {
    var n := |FirstParam(ps)|;
    if n == |ps| then [] else FirstParam(ps[n + 1..])
  }

  /** Counts and positions are at least one. */
  function AtLeastOne(n: nat): nat {
    if n == 0 then 1 else n
  }

  /** A control sequence with parameter bytes `ps`; forms the server does not send
      have no effect. */
  function Exec(t: Term, ps: seq<byte>, final: byte): Term {
    var n := Number(FirstParam(ps));
    if final == '@' as int then WithRow(t, InsertBlanks(Current(t), t.col, AtLeastOne(n)))
    else if final == 'C' as int then t.(col := t.col + AtLeastOne(n))
    else if final == 'D' as int then t.(col := if t.col < AtLeastOne(n) then 0 else t.col - AtLeastOne(n))
    else if final == 'H' as int then
      t.(row := AtLeastOne(n) - 1, col := AtLeastOne(Number(SecondParam(ps))) - 1)
    else if final == 'J' as int && n == 2 then t.(page := map[])
    else if final == 'K' as int && n == 0 then WithRow(t, EraseRight(Current(t), t.col))
    else if final == 'K' as int && n == 1 then WithRow(t, EraseLeft(Current(t), t.col))
    else if final == 'K' as int && n == 2 then WithRow(t, [])
    else t
  }

  predicate Graphic(b: byte) {
    SPACE <= b < DEL
  }

  function Feed(t: Term, b: byte): Term {
    match t.parser
    case Ground =>
      if Graphic(b) then WithRow(t, Put(Current(t), t.col, b)).(col := t.col + 1)
      else if b == ESC then t.(parser := Escape)
      else if b == BS then t.(col := if t.col == 0 then 0 else t.col - 1)
      else if b == TAB then t.(col := (t.col / 8 + 1) * 8)
      else if b == LF then t.(row := t.row + 1)
      else if b == CR then t.(col := 0)
      else t
    case Escape => t.(parser := if b == BRACKET then Csi([]) else Ground)
    case Csi(ps) =>
      if 48 <= b < 64 then t.(parser := Csi(ps + [b])) else Exec(t.(parser := Ground), ps, b)
  }

  function Interp(t: Term, bytes: seq<byte>): Term
    decreases |bytes|
  {
    if bytes == [] then t else Interp(Feed(t, bytes[0]), bytes[1..])
  }

  lemma {:induction false} InterpConcat(t: Term, a: seq<byte>, b: seq<byte>)
    ensures Interp(t, a + b) == Interp(Interp(t, a), b)
    decreases |a|
  {
    if a == [] {
      assert a + b == b;
    } else {
      assert (a + b)[1..] == a[1..] + b;
      InterpConcat(Feed(t, a[0]), a[1..], b);
    }
  }

  lemma {:induction false} InterpOne(t: Term, b: byte)
    ensures Interp(t, [b]) == Feed(t, b)
  {
    assert [b][1..] == [];
    assert Interp(Feed(t, b), []) == Feed(t, b);
  }

  lemma {:induction false} InterpTwo(t: Term, b: byte, c: byte)
    ensures Interp(t, [b, c]) == Feed(Feed(t, b), c)
  {
    InterpConcat(t, [b], [c]);
    InterpOne(t, b);
    InterpOne(Feed(t, b), c);
    assert [b] + [c] == [b, c];
  }

  // ---------- The controls the server sends ----------

  predicate Parameters(ps: seq<byte>) {
    forall i :: 0 <= i < |ps| ==> 48 <= ps[i] < 64
  }

  lemma {:induction false} Collects(t: Term, seen: seq<byte>, ps: seq<byte>)
    requires t.parser == Csi(seen) && Parameters(ps)
    ensures Interp(t, ps) == t.(parser := Csi(seen + ps))
    decreases |ps|
  {
    if ps == [] {
      assert seen + ps == seen;
    } else {
      var u := Feed(t, ps[0]);
      Collects(u, seen + [ps[0]], ps[1..]);
      assert (seen + [ps[0]]) + ps[1..] == seen + ps;
    }
  }

  /** A control sequence is executed when its final byte arrives. */
  lemma {:induction false} CsiExecutes(t: Term, ps: seq<byte>, final: byte)
    requires t.parser.Ground? && Parameters(ps) && !(48 <= final < 64)
    ensures Interp(t, [ESC, BRACKET] + (ps + [final])) == Exec(t, ps, final)
  {
    InterpConcat(t, [ESC, BRACKET], ps + [final]);
    InterpTwo(t, ESC, BRACKET);
    var u := t.(parser := Csi([]));
    InterpConcat(u, ps, [final]);
    Collects(u, [], ps);
    assert [] + ps == ps;
    InterpOne(t.(parser := Csi(ps)), final);
    assert t.(parser := Csi(ps)).(parser := Ground) == t;
  }

  lemma {:induction false} Csi0(t: Term, final: byte)
    requires t.parser.Ground? && !(48 <= final < 64)
    ensures Interp(t, [ESC, BRACKET, final]) == Exec(t, [], final)
  {
    CsiExecutes(t, [], final);
    assert [ESC, BRACKET] + ([] + [final]) == [ESC, BRACKET, final];
  }

  lemma {:induction false} Csi1(t: Term, digit: byte, final: byte)
    requires t.parser.Ground? && 48 <= digit <= 57 && !(48 <= final < 64)
    ensures Interp(t, [ESC, BRACKET, digit, final]) == Exec(t, [digit], final)
    ensures Number(FirstParam([digit])) == digit - 48
  {
    CsiExecutes(t, [digit], final);
    assert [ESC, BRACKET] + ([digit] + [final]) == [ESC, BRACKET, digit, final];
    OneDigit(digit);
  }

  lemma {:induction false} OneDigit(digit: byte)
    requires 48 <= digit <= 57
    ensures FirstParam([digit]) == [digit] && Number([digit]) == digit - 48
  {
    assert [digit][1..] == [] && [digit][..0] == [];
  }

  lemma {:induction false} MovesLeft(t: Term)
    requires t.parser.Ground?
    ensures Interp(t, MOVE_LEFT) == t.(col := if t.col == 0 then 0 else t.col - 1)
  {
    Csi0(t, 'D' as int);
  }

  lemma {:induction false} MovesRight(t: Term)
    requires t.parser.Ground?
    ensures Interp(t, MOVE_RIGHT) == t.(col := t.col + 1)
  {
    Csi0(t, 'C' as int);
  }

  lemma {:induction false} ClearsRight(t: Term)
    requires t.parser.Ground?
    ensures Interp(t, CLEAR_RIGHT_CHAR) == WithRow(t, EraseRight(Current(t), t.col))
  {
    Csi0(t, 'K' as int);
  }

  lemma {:induction false} ClearsLeft(t: Term)
    requires t.parser.Ground?
    ensures Interp(t, CLEAR_LEFT_CHAR) == WithRow(t, EraseLeft(Current(t), t.col))
  {
    Csi1(t, '1' as int, 'K' as int);
  }

  lemma {:induction false} InsertsBlank(t: Term)
    requires t.parser.Ground?
    ensures Interp(t, INSERT_BLANK) == WithRow(t, InsertBlanks(Current(t), t.col, 1))
  {
    Csi1(t, '1' as int, '@' as int);
  }

  lemma {:induction false} ClearsPage(t: Term)
    requires t.parser.Ground?
    ensures Interp(t, CLEAR_TERM + LOC_START + CLEAR_LINE) == Term(map[0 := []], 0, 0, Ground)
  {
    InterpConcat(t, CLEAR_TERM + LOC_START, CLEAR_LINE);
    InterpConcat(t, CLEAR_TERM, LOC_START);
    Csi1(t, '2' as int, 'J' as int);
    var u := t.(page := map[]);
    GoesHome(u);
    Csi1(u.(row := 0, col := 0), '2' as int, 'K' as int);
  }

  lemma {:induction false} GoesHome(t: Term)
    requires t.parser.Ground?
    ensures Interp(t, LOC_START) == t.(row := 0, col := 0)
  {
    var zero: byte, semi: byte := 48, 59;
    var ps := [zero, semi, zero];
    CsiExecutes(t, ps, 'H' as int);
    assert LOC_START == [ESC, BRACKET] + (ps + ['H' as int]);
    HomeParams(zero, semi);
  }

  lemma {:induction false} HomeParams(zero: byte, semi: byte)
    requires zero == 48 && semi == 59
    ensures var ps := [zero, semi, zero];
      Number(FirstParam(ps)) == 0 && Number(SecondParam(ps)) == 0
  {
    var ps := [zero, semi, zero];
    OneDigit(zero);
    assert ps[1..][0] == semi;
    assert FirstParam(ps[1..]) == [];
    assert FirstParam(ps) == [zero];
    assert ps[2..] == [zero];
  }

  lemma {:induction false} NewLine(t: Term)
    requires t.parser.Ground?
    ensures Interp(t, CRLF) == t.(row := t.row + 1, col := 0)
  {
    InterpTwo(t, CR, LF);
  }

  // ---------- Writing ----------

  predicate AllGraphic(bytes: seq<byte>) {
    forall i :: 0 <= i < |bytes| ==> Graphic(bytes[i])
  }

  function Overwrite(row: seq<byte>, at: nat, bytes: seq<byte>): (r: seq<byte>)
    ensures forall c: nat :: Cell(r, c) ==
                             if at <= c < at + |bytes| then bytes[c - at] else Cell(row, c)
    decreases |bytes|
  {
    if bytes == [] then row else Overwrite(Put(row, at, bytes[0]), at + 1, bytes[1..])
  }

  lemma {:induction false} Writes(t: Term, bytes: seq<byte>)
    requires t.parser.Ground? && AllGraphic(bytes) && bytes != []
    ensures Interp(t, bytes) ==
      WithRow(t, Overwrite(Current(t), t.col, bytes)).(col := t.col + |bytes|)
    decreases |bytes|
  {
    var u := Feed(t, bytes[0]);
    if |bytes| == 1 {
      assert bytes[1..] == [];
      assert Interp(u, []) == u;
      assert Overwrite(Put(Current(t), t.col, bytes[0]), t.col + 1, []) == Put(Current(t), t.col, bytes[0]);
    } else {
      Writes(u, bytes[1..]);
    }
  }

  // ---------- Rows still to be used ----------

  /** Nothing stands below the cursor's row. */
  ghost predicate BelowBlank(t: Term) {
    forall r: nat :: r > t.row ==> SameText(RowOf(t, r), [])
  }

  ghost predicate Settled(t: Term) {
    t.parser.Ground? && BelowBlank(t)
  }

  /** Text without ESC, whatever it prints, leaves the terminal settled. */
  lemma {:induction false} PlainTextSettles(t: Term, bytes: seq<byte>)
    requires Settled(t) && ESC !in bytes
    ensures Settled(Interp(t, bytes))
    decreases |bytes|
  {
    if bytes != [] {
      var u := Feed(t, bytes[0]);
      assert forall r: nat :: r > t.row ==> RowOf(u, r) == RowOf(t, r);
      PlainTextSettles(u, bytes[1..]);
    }
  }

  // ---------- Following one row ----------

  /** `u` is `t` with its row turned into `row` and the cursor at `col`; every other
      row is as it was. */
  ghost predicate OnRow(u: Term, t: Term, row: seq<byte>, col: nat) {
    && u.parser.Ground? && u.row == t.row && u.col == col
    && SameText(Current(u), row)
    && forall r: nat :: r != t.row ==> RowOf(u, r) == RowOf(t, r)
  }

  lemma OnRowSettles(u: Term, t: Term, row: seq<byte>, col: nat)
    requires OnRow(u, t, row, col) && Settled(t)
    ensures Settled(u)
  {
    forall r: nat | r > u.row
      ensures SameText(RowOf(u, r), [])
    {
      assert RowOf(u, r) == RowOf(t, r);
    }
  }

  lemma LeftOn(u: Term, t: Term, row: seq<byte>, col: nat)
    requires OnRow(u, t, row, col)
    ensures OnRow(Interp(u, MOVE_LEFT), t, row, if col == 0 then 0 else col - 1)
  {
    MovesLeft(u);
  }

  lemma RightOn(u: Term, t: Term, row: seq<byte>, col: nat)
    requires OnRow(u, t, row, col)
    ensures OnRow(Interp(u, MOVE_RIGHT), t, row, col + 1)
  {
    MovesRight(u);
  }

  lemma ReturnOn(u: Term, t: Term, row: seq<byte>, col: nat)
    requires OnRow(u, t, row, col)
    ensures OnRow(Interp(u, [CR]), t, row, 0)
  {
    InterpOne(u, CR);
  }

  lemma ClearRightOn(u: Term, t: Term, row: seq<byte>, col: nat)
    requires OnRow(u, t, row, col)
    ensures OnRow(Interp(u, CLEAR_RIGHT_CHAR), t, EraseRight(row, col), col)
  {
    ClearsRight(u);
  }

  lemma ClearLeftOn(u: Term, t: Term, row: seq<byte>, col: nat)
    requires OnRow(u, t, row, col)
    ensures OnRow(Interp(u, CLEAR_LEFT_CHAR), t, EraseLeft(row, col), col)
  {
    ClearsLeft(u);
  }

  lemma InsertOn(u: Term, t: Term, row: seq<byte>, col: nat)
    requires OnRow(u, t, row, col)
    ensures OnRow(Interp(u, INSERT_BLANK), t, InsertBlanks(row, col, 1), col)
  {
    InsertsBlank(u);
    forall c: nat
      ensures Cell(InsertBlanks(Current(u), col, 1), c) == Cell(InsertBlanks(row, col, 1), c)
    {
      CellInserted(Current(u), col, 1, c);
      CellInserted(row, col, 1, c);
    }
  }

  lemma RubOutOn(u: Term, t: Term, row: seq<byte>, col: nat)
    requires OnRow(u, t, row, col) && col > 0
    ensures OnRow(Interp(u, RUB_OUT), t, Put(row, col - 1, SPACE), col - 1)
  {
    InterpConcat(u, [BS, SPACE], [BS]);
    InterpTwo(u, BS, SPACE);
    InterpOne(Feed(Feed(u, BS), SPACE), BS);
    assert [BS, SPACE] + [BS] == RUB_OUT;
  }

  lemma WriteOn(u: Term, t: Term, row: seq<byte>, col: nat, bytes: seq<byte>)
    requires OnRow(u, t, row, col) && AllGraphic(bytes)
    ensures OnRow(Interp(u, bytes), t, Overwrite(row, col, bytes), col + |bytes|)
  {
    if bytes != [] {
      Writes(u, bytes);
    } else {
      assert Interp(u, bytes) == u;
    }
  }

  lemma {:induction false} LeftsOn(u: Term, t: Term, row: seq<byte>, col: nat, n: nat)
    requires OnRow(u, t, row, col) && n <= col
    ensures OnRow(Interp(u, Repeat(MOVE_LEFT, n)), t, row, col - n)
    decreases n
  {
    if n == 0 {
      assert Interp(u, []) == u;
    } else {
      LeftsOn(u, t, row, col, n - 1);
      InterpConcat(u, Repeat(MOVE_LEFT, n - 1), MOVE_LEFT);
      LeftOn(Interp(u, Repeat(MOVE_LEFT, n - 1)), t, row, col - (n - 1));
    }
  }
}
