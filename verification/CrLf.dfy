/** The sending side: `out_n_to_rn`, what undoes it, and what the telnet filter
    makes of its output. */
module CrLf {
  import opened Bytes
  import opened CStrings
  import opened Seqs
  import IacFilter

  function Expand(s: seq<byte>): seq<byte> {
    if s == [] then []
    else if s[0] == LF then CRLF + Expand(s[1..])
    else [s[0]] + Expand(s[1..])
  }

  function Count(s: seq<byte>, b: byte): nat {
    if s == [] then 0 else (if s[0] == b then 1 else 0) + Count(s[1..], b)
  }

  /** What a receiver of text does: each CR LF is one LF again. */
  function Collapse(t: seq<byte>): seq<byte> {
    if t == [] then []
    else if |t| > 1 && t[0] == CR && t[1] == LF then [LF] + Collapse(t[2..])
    else [t[0]] + Collapse(t[1..])
  }

  function LfToCr(s: seq<byte>): (r: seq<byte>)
    ensures |r| == |s|
    ensures forall i :: 0 <= i < |s| ==> r[i] == if s[i] == 10 then 13 else s[i]
  {
    seq(|s|, i requires 0 <= i < |s| => if s[i] == LF then CR else s[i])
  }

  lemma {:induction false} ExpandConcat(s: seq<byte>, t: seq<byte>)
    ensures Expand(s + t) == Expand(s) + Expand(t)
  {
    if s == [] {
      assert s + t == t;
    } else {
      assert (s + t)[1..] == s[1..] + t;
      ExpandConcat(s[1..], t);
      Reassociate(if s[0] == LF then CRLF else [s[0]], Expand(s[1..]), Expand(t));
    }
  }

  /** Byte 10 becomes 13 10 and every other byte stays. */
  lemma {:induction false} ExpandFirst(b: byte, s: seq<byte>)
    ensures Expand([b] + s) == (if b == 10 then [13, 10] else [b]) + Expand(s)
  {
    assert ([b] + s)[1..] == s;
  }

  lemma ExpandLength(s: seq<byte>)
    ensures |Expand(s)| == |s| + Count(s, LF)
  {
  }

  /** Collapsing undoes the expansion for every text, one that holds CR LF included. */
  lemma {:induction false} CollapseExpand(s: seq<byte>)
    ensures Collapse(Expand(s)) == s
  {
    if s != [] {
      CollapseExpand(s[1..]);
      SplitFirst(s);
      var rest := Expand(s[1..]);
      if s[0] == LF {
        assert (CRLF + rest)[2..] == rest;
      } else {
        assert ([s[0]] + rest)[1..] == rest;
      }
    }
  }

  lemma ExpandStep(s: seq<byte>, i: nat)
    requires i < |s|
    ensures Expand(s[..i + 1]) == Expand(s[..i]) + (if s[i] == LF then CRLF else [s[i]])
    ensures |Expand(s[..i + 1])| <= |Expand(s)|
  {
    assert s[..i + 1] == s[..i] + [s[i]];
    ExpandConcat(s[..i], [s[i]]);
    assert [s[i]][1..] == [];
    assert Expand([s[i]]) == if s[i] == LF then CRLF else [s[i]];
    assert s == s[..i + 1] + s[i + 1..];
    ExpandConcat(s[..i + 1], s[i + 1..]);
  }

  /** Fills `dst` with the expansion of the string in `src` and its terminator. */
  method OutNToRn(src: array<byte>, dst: array<byte>)
    requires src != dst && NUL in src[..]
    requires |Expand(CStr(src[..]))| < dst.Length
    modifies dst
    ensures var n := |Expand(CStr(src[..]))|;
      dst[..n] == Expand(CStr(src[..])) && dst[n] == 0 && dst[n + 1..] == old(dst[n + 1..])
  {
    var cp1, cp2 := 0, 0;
    ghost var text := CStr(src[..]);
    ghost var kept: seq<byte> := [];
    assert text[..0] == [];
    while src[cp1] != NUL
      invariant 0 <= cp1 <= |text| < src.Length
      invariant kept == Expand(text[..cp1]) && cp2 == |kept| < dst.Length
      invariant forall k :: 0 <= k < cp2 ==> dst[k] == kept[k]
      invariant forall k :: cp2 <= k < dst.Length ==> dst[k] == old(dst[k])
      decreases |text| - cp1
    {
      assert src[cp1] == src[..][cp1] == text[cp1];
      ExpandStep(text, cp1);
      if src[cp1] == LF {
        dst[cp2] := CR;
        cp2 := cp2 + 1;
        dst[cp2] := LF;
        cp2 := cp2 + 1;
        kept := kept + CRLF;
      } else {
        dst[cp2] := src[cp1];
        cp2 := cp2 + 1;
        kept := kept + [src[cp1]];
      }
      cp1 := cp1 + 1;
    }
    assert text[..cp1] == text;
    dst[cp2] := NUL;
  }

  // ---------- Sender and receiver together ----------

  lemma {:induction false} DecodeExpand(s: seq<byte>)
    requires NUL !in s && IAC !in s
    ensures IacFilter.Decode(Expand(s)) == LfToCr(s)
  {
    if s != [] {
      DecodeExpand(s[1..]);
      DecodeExpandFirst(s);
      assert LfToCr(s) == [if s[0] == LF then CR else s[0]] + LfToCr(s[1..]);
    }
  }

  lemma {:induction false} DecodeExpandFirst(s: seq<byte>)
    requires s != [] && NUL !in s && s[0] != IAC
    ensures IacFilter.Decode(Expand(s))
            == [if s[0] == LF then CR else s[0]] + IacFilter.Decode(Expand(s[1..]))
  {
    var rest := Expand(s[1..]);
    assert |s| > 1 ==> s[1] in s;
    if s[0] == LF {
      assert (CRLF + rest)[2..] == rest;
    } else {
      assert ([s[0]] + rest)[1..] == rest;
    }
  }

  lemma {:induction false} CollapseDrop(t: seq<byte>, k: nat)
    requires k <= |t|
    ensures |Collapse(t[k..])| <= |Collapse(t)|
    ensures k > 0 && t[0] != CR ==> |Collapse(t[k..])| < |Collapse(t)|
  {
    if k == 0 {
      assert t[0..] == t;
    } else {
      CollapseDrop(t[1..], k - 1);
      assert t[1..][k - 1..] == t[k..];
      if |t| > 1 {
        assert t[1..][1..] == t[2..];
      }
    }
  }

  /** The filter never delivers more than the text holds, and less at a command. */
  lemma {:induction false} DecodeDelivers(t: seq<byte>)
    ensures |IacFilter.Decode(t)| <= |Collapse(t)|
    ensures t != [] && t[0] == IAC ==> |IacFilter.Decode(t)| < |Collapse(t)|
    decreases |t|
  {
    if t != [] {
      DecodeDelivers(t[1..]);
      if |t| >= 2 { DecodeDelivers(t[2..]); CollapseDrop(t, 2); CollapseDrop(t[1..], 1); assert t[1..][1..] == t[2..]; }
      if |t| >= 3 { DecodeDelivers(t[3..]); CollapseDrop(t, 3); }
      if |t| >= 9 { DecodeDelivers(t[9..]); CollapseDrop(t, 9); }
    }
  }

  lemma {:induction false} DecodeExpandLoses(s: seq<byte>)
    requires NUL !in s && IAC in s
    ensures |IacFilter.Decode(Expand(s))| < |s|
  {
    if s[0] == IAC {
      DecodeDelivers(Expand(s));
      CollapseExpand(s);
    } else {
      DecodeExpandFirst(s);
      SplitFirst(s);
      DecodeExpandLoses(s[1..]);
    }
  }

  /** Filtering what `out_n_to_rn` wrote gives the text with each LF turned into CR
      exactly when the text holds no IAC byte. */
  lemma SenderThenFilter(s: seq<byte>)
    requires NUL !in s
    ensures IacFilter.Decode(Expand(s)) == LfToCr(s) <==> IAC !in s
  {
    if IAC in s {
      DecodeExpandLoses(s);
    } else {
      DecodeExpand(s);
    }
  }
}
