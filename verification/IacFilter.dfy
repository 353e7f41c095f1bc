/** The in-place telnet filter: `telnetd_remove_iac` against a recursive decoder,
    and the decoder against the grammar of the telnet input stream.  Commands and
    doubled IAC are those of RFC 854 (TELNET COMMAND STRUCTURE), CR LF and CR NUL
    those of its section THE NVT PRINTER AND KEYBOARD, and the nine-byte window size
    block is that of section 2 of RFC 1073. */
module IacFilter {
  import opened Bytes
  import opened Seqs

  // ---------- What the filter computes ----------

  /** What is left of `s` once the telnet commands are taken out.  Decoding stops
      at a command whose last byte has not arrived yet. */
  function Decode(s: seq<byte>): seq<byte>
  {
    if s == [] then []
    else if s[0] != IAC then
      if s[0] == CR && |s| > 1 && (s[1] == LF || s[1] == NUL)
      then [CR] + Decode(s[2..])
      else [s[0]] + Decode(s[1..])
    else if |s| < 2 then []
    else if s[1] == NOP then Decode(s[2..])
    else if s[1] == IAC then [IAC] + Decode(s[2..])
    else if |s| < 3 then []
    else if s[1] == SB && s[2] == NAWS then
      if |s| < 9 then [] else Decode(s[9..])
    else Decode(s[3..])
  }

  /** The decoder on every kind of input, byte values as RFC 854 and RFC 1073 number them. */
  lemma {:induction false} DecodeByNumbers(s: seq<byte>, b: byte, c: byte, body: seq<byte>)
    requires |body| == 6
    ensures b != 255 && !(b == 13 && s != [] && (s[0] == 10 || s[0] == 0)) ==>
              Decode([b] + s) == [b] + Decode(s)
    ensures Decode([13, 10] + s) == [13] + Decode(s) && Decode([13, 0] + s) == [13] + Decode(s)
    ensures Decode([255, 255] + s) == [255] + Decode(s)
    ensures Decode([255, 241] + s) == Decode(s)
    ensures b != 241 && b != 255 && !(b == 250 && c == 31) ==> Decode([255, b, c] + s) == Decode(s)
    ensures Decode([255, 250, 31] + body + s) == Decode(s)
  {
    assert ([b] + s)[1..] == s;
    assert ([13, 10] + s)[2..] == s && ([13, 0] + s)[2..] == s;
    assert ([255, 255] + s)[2..] == s && ([255, 241] + s)[2..] == s;
    assert ([255, b, c] + s)[3..] == s;
    assert ([255, 250, 31] + body + s)[9..] == s;
  }

  /** What waits for more bytes delivers nothing. */
  lemma {:induction false} DecodeWaits(b: byte, body: seq<byte>)
    requires b != 241 && b != 255 && |body| < 6
    ensures Decode([]) == [] && Decode([255]) == [] && Decode([255, b]) == []
    ensures Decode([255, 250, 31] + body) == []
  {
  }

  /** The decoder at read index `i`. */
  function DecodeFrom(s: seq<byte>, i: nat): seq<byte>
    requires i <= |s|
    decreases |s| - i
  {
    if i == |s| then []
    else if s[i] != IAC then
      if s[i] == CR && i + 1 < |s| && (s[i + 1] == LF || s[i + 1] == NUL)
      then [CR] + DecodeFrom(s, i + 2)
      else [s[i]] + DecodeFrom(s, i + 1)
    else if i + 1 >= |s| then []
    else if s[i + 1] == NOP then DecodeFrom(s, i + 2)
    else if s[i + 1] == IAC then [IAC] + DecodeFrom(s, i + 2)
    else if i + 2 >= |s| then []
    else if s[i + 1] == SB && s[i + 2] == NAWS then
      if i + 8 >= |s| then [] else DecodeFrom(s, i + 9)
    else DecodeFrom(s, i + 3)
  }

  lemma {:induction false} DecodeFromIsDecode(s: seq<byte>, i: nat)
    requires i <= |s|
    ensures DecodeFrom(s, i) == Decode(s[i..])
    decreases |s| - i
  {
    if i < |s| {
      DecodeFromIsDecode(s, i + 1);
      assert s[i..][1..] == s[i + 1..];
      if i + 2 <= |s| { DecodeFromIsDecode(s, i + 2); assert s[i..][2..] == s[i + 2..]; }
      if i + 3 <= |s| { DecodeFromIsDecode(s, i + 3); assert s[i..][3..] == s[i + 3..]; }
      if i + 9 <= |s| { DecodeFromIsDecode(s, i + 9); assert s[i..][9..] == s[i + 9..]; }
    }
  }

  /** The next byte of the result, and what comes behind it. */
  lemma NextKept(all: seq<byte>, at: nat, b: byte, more: seq<byte>)
    requires at <= |all| && all[at..] == [b] + more
    ensures at < |all| && all[at] == b && all[at + 1..] == more
  {
    assert |all[at..]| == |more| + 1;
    assert all[at] == all[at..][0];
    assert all[at + 1..] == all[at..][1..];
  }

  /** Behind the plain byte `cc` at `ptr`: the LF or NUL that follows a CR goes with it. */
  method PassPlain(buf: array<byte>, cc: byte, ptr: nat, len: nat, ghost input: seq<byte>) returns (next: nat)
    requires ptr < len == |input| <= buf.Length && input[ptr] == cc != IAC
    requires forall k :: ptr < k < len ==> buf[k] == input[k]
    ensures ptr < next <= len
    ensures DecodeFrom(input, ptr) == [cc] + DecodeFrom(input, next)
  {
    next := ptr + 1;
    if cc == CR && next < len && (buf[next] == LF || buf[next] == NUL) {
      next := next + 1;
    }
  }

  /** Behind the command at `ptr`, or `ptr` itself while the command is incomplete. */
  method PassCommand(buf: array<byte>, ptr: nat, len: nat, ghost input: seq<byte>) returns (next: nat)
    requires ptr + 1 < len == |input| <= buf.Length && input[ptr] == IAC && input[ptr + 1] != IAC
    requires forall k :: ptr <= k < len ==> buf[k] == input[k]
    ensures ptr <= next <= len
    ensures DecodeFrom(input, ptr) == if next == ptr then [] else DecodeFrom(input, next)
  {
    if buf[ptr + 1] == NOP {
      return ptr + 2;
    }
    if ptr + 2 >= len {
      return ptr;
    }
    if buf[ptr + 1] == SB && buf[ptr + 2] == NAWS {
      if ptr + 8 >= len {
        return ptr;
      }
      return ptr + 9;
    }
    return ptr + 3;
  }

  /** Two indices run over one array, which is overwritten while it is parsed.
      The kept bytes end up in front; everything behind them is left as it was. */
  method RemoveIac(buf: array<byte>, len: nat) returns (numToTty: nat)
    requires len <= buf.Length
    modifies buf
    ensures numToTty == |Decode(old(buf[..len]))| <= len
    ensures buf[..numToTty] == Decode(old(buf[..len]))
    ensures buf[numToTty..] == old(buf[numToTty..])
  {
    var ptr, toTty := 0, 0;
    ghost var input := buf[..len];
    ghost var all := Decode(input);
    DecodeFromIsDecode(input, 0);
    assert input[0..] == input && all[0..] == all;
    while ptr < len
      invariant 0 <= toTty <= ptr <= len
      invariant forall k :: toTty <= k < buf.Length ==> buf[k] == old(buf[k])
      invariant toTty <= |all| && all[toTty..] == DecodeFrom(input, ptr)
      invariant forall k :: 0 <= k < toTty ==> buf[k] == all[k]
    {
      if buf[ptr] != IAC {
        var cc := buf[ptr];
        buf[toTty] := cc;
        ptr := PassPlain(buf, cc, ptr, len, input);
        NextKept(all, toTty, cc, DecodeFrom(input, ptr));
        toTty := toTty + 1;
      } else if ptr + 1 >= len {
        break;
      } else if buf[ptr + 1] == IAC {
        buf[toTty] := buf[ptr + 1];
        ptr := ptr + 2;
        NextKept(all, toTty, IAC, DecodeFrom(input, ptr));
        toTty := toTty + 1;
      } else {
        var next := PassCommand(buf, ptr, len, input);
        if next == ptr {
          break;
        }
        ptr := next;
      }
    }
    assert DecodeFrom(input, ptr) == [];
    return toTty;
  }

  // ---------- The grammar of the input stream ----------

  /** One element of a telnet input stream as this server understands it. */
  datatype Token =
    | Plain(b: byte)
    | CrLf
    | CrNul
    | DoubledIac
    | Nop
    | Command(cmd: byte, opt: byte)
    | WindowSize(body: seq<byte>)

  predicate WellFormed(t: Token) {
    match t
    case Plain(b) => b != IAC
    case Command(cmd, opt) => cmd != NOP && cmd != IAC && !(cmd == SB && opt == NAWS)
    case WindowSize(body) => |body| == 6
    case _ => true
  }

  function Wire(t: Token): seq<byte> {
    match t
    case Plain(b) => [b]
    case CrLf => [CR, LF]
    case CrNul => [CR, NUL]
    case DoubledIac => [IAC, IAC]
    case Nop => [IAC, NOP]
    case Command(cmd, opt) => [IAC, cmd, opt]
    case WindowSize(body) => [IAC, SB, NAWS] + body
  }

  function Payload(t: Token): seq<byte> {
    match t
    case Plain(b) => [b]
    case CrLf => [CR]
    case CrNul => [CR]
    case DoubledIac => [IAC]
    case _ => []
  }

  function Serialize(ts: seq<Token>): seq<byte> {
    if ts == [] then [] else Wire(ts[0]) + Serialize(ts[1..])
  }

  function Delivered(ts: seq<Token>): seq<byte> {
    if ts == [] then [] else Payload(ts[0]) + Delivered(ts[1..])
  }

  /** A bare CR cannot be told from a CR LF or CR NUL pair when LF or NUL follows. */
  predicate Clash(t: Token, u: Token) {
    t == Plain(CR) && (u == Plain(LF) || u == Plain(NUL))
  }

  ghost predicate Canonical(ts: seq<Token>) {
    && (forall i :: 0 <= i < |ts| ==> WellFormed(ts[i]))
    && (forall i, j :: 0 <= i < |ts| && j == i + 1 && j < |ts| ==> !Clash(ts[i], ts[j]))
  }

  /** Nothing, or the start of a command that still misses bytes. */
  predicate Incomplete(r: seq<byte>) {
    || r == []
    || (r[0] == IAC &&
        (|| |r| == 1
         || (|r| == 2 && r[1] != NOP && r[1] != IAC)
         || (3 <= |r| < 9 && r[1] == SB && r[2] == NAWS)))
  }

  /** The first token of a sequence that holds a complete one. */
  function First(s: seq<byte>): (t: Token)
    requires !Incomplete(s)
    ensures WellFormed(t) && Wire(t) <= s && Wire(t) != []
  {
    if s[0] != IAC then
      if s[0] == CR && |s| > 1 && s[1] == LF then CrLf
      else if s[0] == CR && |s| > 1 && s[1] == NUL then CrNul
      else Plain(s[0])
    else if s[1] == NOP then Nop
    else if s[1] == IAC then DoubledIac
    else if s[1] == SB && s[2] == NAWS then
      assert s[..9] == [IAC, SB, NAWS] + s[3..9];
      WindowSize(s[3..9])
    else Command(s[1], s[2])
  }

  function Parse(s: seq<byte>): (r: (seq<Token>, seq<byte>))
    decreases |s|
  {
    if Incomplete(s) then ([], s)
    else
      var t := First(s);
      var (ts, rest) := Parse(s[|Wire(t)|..]);
      ([t] + ts, rest)
  }

  function Tokens(s: seq<byte>): seq<Token> { Parse(s).0 }

  /** The unprocessed suffix the filter stops at. */
  function Residue(s: seq<byte>): seq<byte> { Parse(s).1 }

  lemma {:induction false} DecodeFirst(s: seq<byte>)
    requires !Incomplete(s)
    ensures Decode(s) == Payload(First(s)) + Decode(s[|Wire(First(s))|..])
  {
  }

  lemma {:induction false} FirstTwo(s: seq<byte>)
    requires !Incomplete(s)
    ensures var rest := s[|Wire(First(s))|..];
      !Incomplete(rest) ==> !Clash(First(s), First(rest))
  {
  }

  lemma CanonicalCons(t: Token, ts: seq<Token>)
    requires Canonical(ts) && WellFormed(t)
    requires ts != [] ==> !Clash(t, ts[0])
    ensures Canonical([t] + ts)
  {
  }

  lemma SerializeCons(t: Token, ts: seq<Token>)
    ensures Serialize([t] + ts) == Wire(t) + Serialize(ts)
    ensures Delivered([t] + ts) == Payload(t) + Delivered(ts)
  {
    assert ([t] + ts)[1..] == ts;
  }

  lemma {:induction false} ParseSpells(s: seq<byte>)
    ensures Serialize(Tokens(s)) + Residue(s) == s
    ensures Incomplete(Residue(s)) && |Residue(s)| <= 8
    decreases |s|
  {
    if !Incomplete(s) {
      var t := First(s);
      var rest := s[|Wire(t)|..];
      ParseSpells(rest);
      SerializeCons(t, Tokens(rest));
      Reassociate(Wire(t), Serialize(Tokens(rest)), Residue(rest));
      assert Wire(t) + rest == s;
    }
  }

  lemma {:induction false} ParseIsCanonical(s: seq<byte>)
    ensures Canonical(Tokens(s))
    ensures Tokens(s) != [] ==> !Incomplete(s) && Tokens(s)[0] == First(s)
    decreases |s|
  {
    if !Incomplete(s) {
      var t := First(s);
      var rest := s[|Wire(t)|..];
      ParseIsCanonical(rest);
      FirstTwo(s);
      CanonicalCons(t, Tokens(rest));
    }
  }

  lemma {:induction false} ParseDelivers(s: seq<byte>)
    ensures Decode(s) == Delivered(Tokens(s))
    decreases |s|
  {
    if !Incomplete(s) {
      var t := First(s);
      var rest := s[|Wire(t)|..];
      ParseDelivers(rest);
      DecodeFirst(s);
      SerializeCons(t, Tokens(rest));
    }
  }

  /** Every byte sequence is a canonical token sequence followed by an incomplete
      command of at most eight bytes, and the decoder delivers exactly the payload. */
  lemma ParseIsSound(s: seq<byte>)
    ensures Serialize(Tokens(s)) + Residue(s) == s
    ensures Canonical(Tokens(s))
    ensures Incomplete(Residue(s)) && |Residue(s)| <= 8
    ensures Decode(s) == Delivered(Tokens(s))
    ensures Tokens(s) != [] ==> !Incomplete(s) && Tokens(s)[0] == First(s)
  {
    ParseSpells(s);
    ParseIsCanonical(s);
    ParseDelivers(s);
  }

  lemma {:induction false} ParseFirst(t: Token, rest: seq<byte>)
    requires !Incomplete(Wire(t) + rest) && First(Wire(t) + rest) == t
    ensures Parse(Wire(t) + rest) == ([t] + Tokens(rest), Residue(rest))
  {
    assert (Wire(t) + rest)[|Wire(t)|..] == rest;
  }

  /** The parse is the only one: no other canonical tokens spell the same bytes. */
  lemma {:induction false} ParseIsUnique(ts: seq<Token>, r: seq<byte>)
    requires Canonical(ts) && Incomplete(r)
    ensures Parse(Serialize(ts) + r) == (ts, r)
    decreases |ts|
  {
    if ts == [] {
      assert Serialize(ts) + r == r;
    } else {
      var t, more := ts[0], ts[1..];
      var rest := Serialize(more) + r;
      SplitFirst(ts);
      ParseIsUnique(more, r);
      NextByte(more, r);
      FirstReadsWire(t, rest);
      ParseFirst(t, rest);
      Reassociate(Wire(t), Serialize(more), r);
    }
  }

  /** The byte after a token is LF or NUL only when a bare LF or NUL token follows. */
  lemma {:induction false} NextByte(ts: seq<Token>, r: seq<byte>)
    requires Canonical(ts) && Incomplete(r)
    ensures var s := Serialize(ts) + r;
      s != [] && (s[0] == LF || s[0] == NUL) ==>
        ts != [] && (ts[0] == Plain(LF) || ts[0] == Plain(NUL))
  {
  }

  lemma FirstReadsWire(t: Token, rest: seq<byte>)
    requires WellFormed(t)
    requires t == Plain(CR) && rest != [] ==> rest[0] != LF && rest[0] != NUL
    ensures !Incomplete(Wire(t) + rest) && First(Wire(t) + rest) == t
  {
    var s := Wire(t) + rest;
    match t
    case WindowSize(body) => assert s[3..9] == body;
    case _ =>
  }

  /** Parser after printer: the filter returns exactly the payload, one CR per
      CR LF or CR NUL and one IAC per doubled IAC, and stops at `r`. */
  lemma {:induction false} DecodeSerialize(ts: seq<Token>, r: seq<byte>)
    requires Canonical(ts) && Incomplete(r)
    ensures Decode(Serialize(ts) + r) == Delivered(ts)
    ensures Residue(Serialize(ts) + r) == r
  {
    ParseIsUnique(ts, r);
    ParseIsSound(Serialize(ts) + r);
  }

  // ---------- Cutting the stream into reads ----------

  lemma {:induction false} SerializeConcat(ts: seq<Token>, us: seq<Token>)
    ensures Serialize(ts + us) == Serialize(ts) + Serialize(us)
    ensures Delivered(ts + us) == Delivered(ts) + Delivered(us)
  {
    if ts == [] {
      assert ts + us == us;
    } else {
      var t, more := ts[0], ts[1..];
      SerializeConcat(more, us);
      SplitFirst(ts);
      Reassociate([t], more, us);
      SerializeCons(t, more + us);
      Reassociate(Wire(t), Serialize(more), Serialize(us));
      Reassociate(Payload(t), Delivered(more), Delivered(us));
    }
  }

  /** `a` was consumed to its end and its last token is a CR with no partner yet. */
  predicate EndsInBareCr(a: seq<byte>) {
    Residue(a) == [] && Tokens(a) != [] && Tokens(a)[|Tokens(a)| - 1] == Plain(CR)
  }

  predicate StartsWithCrPartner(b: seq<byte>) {
    b != [] && (b[0] == LF || b[0] == NUL)
  }

  lemma CanonicalConcat(ts: seq<Token>, us: seq<Token>)
    requires Canonical(ts) && Canonical(us)
    requires ts != [] && us != [] ==> !Clash(ts[|ts| - 1], us[0])
    ensures Canonical(ts + us)
  {
  }

  /** Filtering two consecutive chunks, carrying the residue over, is filtering
      their concatenation unless the cut splits a CR from its LF or NUL. */
  lemma {:induction false} ChunksCompose(a: seq<byte>, b: seq<byte>)
    ensures Decode(a + b) == Decode(a) + Decode(Residue(a) + b)
            <==> !(EndsInBareCr(a) && StartsWithCrPartner(b))
  {
    if EndsInBareCr(a) && StartsWithCrPartner(b) {
      SplitPair(a, b);
      assert Residue(a) + b == b;
      assert |Decode(a + b)| != |Decode(a) + Decode(Residue(a) + b)|;
    } else {
      WholeCut(a, b);
    }
  }

  lemma {:induction false} DecodeInTwo(ts: seq<Token>, us: seq<Token>, r: seq<byte>)
    requires Canonical(ts + us) && Incomplete(r)
    ensures Decode(Serialize(ts) + (Serialize(us) + r)) == Delivered(ts) + Delivered(us)
  {
    SerializeConcat(ts, us);
    Reassociate(Serialize(ts), Serialize(us), r);
    DecodeSerialize(ts + us, r);
  }

  lemma {:induction false} WholeCut(a: seq<byte>, b: seq<byte>)
    requires !(EndsInBareCr(a) && StartsWithCrPartner(b))
    ensures Decode(a + b) == Decode(a) + Decode(Residue(a) + b)
  {
    var c := Residue(a) + b;
    var ts, us := Tokens(a), Tokens(c);
    ParseIsSound(a);
    ParseIsSound(c);
    assert Canonical(ts + us) by { CanonicalConcat(ts, us); }
    DecodeInTwo(ts, us, Residue(c));
    Reassociate(Serialize(ts), Residue(a), b);
  }

  lemma CanonicalPrefix(ts: seq<Token>, k: nat)
    requires Canonical(ts) && k <= |ts|
    ensures Canonical(ts[..k])
  {
  }

  /** When the cut does split a pair, the second half comes out as one more byte. */
  lemma {:induction false} SplitPair(a: seq<byte>, b: seq<byte>)
    requires EndsInBareCr(a) && StartsWithCrPartner(b)
    ensures Decode(a + b) == Decode(a) + Decode(b[1..])
    ensures Decode(b) == [b[0]] + Decode(b[1..])
  {
    var ts, us, r := Tokens(a), Tokens(b[1..]), Residue(b[1..]);
    ParseIsSound(a);
    ParseIsSound(b[1..]);
    SplitLast(ts);
    SplitFirst(b);
    assert a == Serialize(ts);
    JoinPair(a, b, ts[..|ts| - 1], us, r);
  }

  lemma {:induction false} AppendBareCr(front: seq<Token>)
    ensures Serialize(front + [Plain(CR)]) == Serialize(front) + [CR]
    ensures Delivered(front + [Plain(CR)]) == Delivered(front) + [CR]
  {
    SerializeConcat(front, [Plain(CR)]);
    assert Serialize([Plain(CR)]) == [CR] && Delivered([Plain(CR)]) == [CR];
  }

  lemma Regroup(x: seq<byte>, half: byte, u: seq<byte>, r: seq<byte>)
    ensures (x + [CR]) + ([half] + (u + r)) == x + (([CR, half] + u) + r)
  {
  }

  /** A CR token and a separate LF or NUL join into one token that delivers the CR. */
  lemma {:induction false} JoinPair(a: seq<byte>, b: seq<byte>, front: seq<Token>, us: seq<Token>, r: seq<byte>)
    requires StartsWithCrPartner(b)
    requires Canonical(front + [Plain(CR)]) && Canonical(us) && Incomplete(r)
    requires a == Serialize(front + [Plain(CR)]) && b == [b[0]] + (Serialize(us) + r)
    ensures Decode(a + b) == Delivered(front + [Plain(CR)]) + Delivered(us)
  {
    var pair := if b[0] == LF then CrLf else CrNul;
    assert Canonical(front + ([pair] + us)) by {
      CanonicalPrefix(front + [Plain(CR)], |front|);
      assert (front + [Plain(CR)])[..|front|] == front;
      CanonicalCons(pair, us);
      CanonicalConcat(front, [pair] + us);
    }
    DecodeInTwo(front, [pair] + us, r);
    SerializeCons(pair, us);
    AppendBareCr(front);
    Regroup(Serialize(front), b[0], Serialize(us), r);
    Reassociate(Delivered(front), [CR], Delivered(us));
  }
}
