/** C strings in fixed-size buffers, and the libc calls the server makes on them. */
module CStrings {
  import opened Bytes

  /** `strlen`, or the size of the buffer when it holds no terminator. */
  function StrLen(s: seq<byte>): (n: nat)
    ensures n <= |s|
    ensures forall i :: 0 <= i < n ==> s[i] != NUL
    ensures n < |s| ==> s[n] == NUL
  {
    if s == [] || s[0] == NUL then 0 else 1 + StrLen(s[1..])
  }

  function CStr(s: seq<byte>): (r: seq<byte>)
    ensures NUL !in r && r <= s
    ensures |r| < |s| ==> s[|r|] == NUL
  {
    s[..StrLen(s)]
  }

  function Zeros(n: nat): (r: seq<byte>)
    ensures |r| == n && forall i :: 0 <= i < n ==> r[i] == NUL
  {
    seq(n, _ => NUL)
  }

  /** `line` at the start of an otherwise zeroed buffer of `size` bytes. */
  function Padded(line: seq<byte>, size: nat): (r: seq<byte>)
    requires |line| <= size
    ensures |r| == size
  {
    line + Zeros(size - |line|)
  }

  /** A terminator at `n` with no earlier one determines the string. */
  lemma StrLenIs(s: seq<byte>, n: nat)
    requires n < |s| && s[n] == NUL && forall i :: 0 <= i < n ==> s[i] != NUL
    ensures StrLen(s) == n && CStr(s) == s[..n]
  {
  }

  lemma CStrOfPadded(line: seq<byte>, size: nat)
    requires NUL !in line && |line| < size
    ensures StrLen(Padded(line, size)) == |line| && CStr(Padded(line, size)) == line
  {
    StrLenIs(Padded(line, size), |line|);
  }

  /** A string ends where it did when it is copied into a zeroed buffer. */
  lemma StringInPadded(raw: seq<byte>, size: nat)
    requires |raw| < size
    ensures NUL in Padded(raw, size)
    ensures StrLen(Padded(raw, size)) == StrLen(raw) && CStr(Padded(raw, size)) == CStr(raw)
  {
    PaddedStarts(raw, size);
    StrLenIs(Padded(raw, size), StrLen(raw));
  }

  lemma PaddedStarts(raw: seq<byte>, size: nat)
    requires |raw| < size
    ensures Padded(raw, size)[StrLen(raw)] == NUL
    ensures Padded(raw, size)[..StrLen(raw)] == raw[..StrLen(raw)]
  {
  }

  /** `sprintf(dst, "%s", line)`: the bytes behind the terminator stay. */
  function Stored(dst: seq<byte>, line: seq<byte>): (r: seq<byte>)
    requires |line| < |dst|
    ensures |r| == |dst|
  {
    line + [NUL] + dst[|line| + 1..]
  }

  lemma StoredCells(dst: seq<byte>, line: seq<byte>)
    requires |line| < |dst|
    ensures var r := Stored(dst, line);
      r[..|line|] == line && r[|line|] == 0 && r[|line| + 1..] == dst[|line| + 1..]
  {
  }

  lemma PaddedCells(line: seq<byte>, size: nat)
    requires |line| <= size
    ensures var r := Padded(line, size);
      r[..|line|] == line && forall i :: |line| <= i < size ==> r[i] == 0
  {
  }

  lemma CStrOfStored(dst: seq<byte>, line: seq<byte>)
    requires NUL !in line && |line| < |dst|
    ensures CStr(Stored(dst, line)) == line
  {
    StrLenIs(Stored(dst, line), |line|);
  }

  lemma StoredInZeros(line: seq<byte>, size: nat)
    requires |line| < size
    ensures Stored(Zeros(size), line) == Padded(line, size)
  {
  }

  method Memset(a: array<byte>)
    modifies a
    ensures a[..] == Zeros(a.Length)
  {
    for i := 0 to a.Length
      invariant forall k :: 0 <= k < i ==> a[k] == NUL
    {
      a[i] := NUL;
    }
  }

  method Strlen(a: array<byte>) returns (n: nat)
    requires NUL in a[..]
    ensures n == StrLen(a[..]) < a.Length
  {
    n := 0;
    while a[n] != NUL
      invariant n < a.Length
      invariant forall i :: 0 <= i < n ==> a[i] != NUL
      decreases a.Length - n
    {
      assert exists i :: 0 <= i < a.Length && a[..][i] == NUL;
      n := n + 1;
    }
    StrLenIs(a[..], n);
  }

  /** `memmove` inside one buffer: the source range is read before it is written. */
  method Memmove(a: array<byte>, dst: nat, src: nat, n: nat)
    requires dst + n <= a.Length && src + n <= a.Length
    modifies a
    ensures a[..] == old(a[..dst]) + old(a[src..src + n]) + old(a[dst + n..])
  {
    forall i | 0 <= i < n {
      a[dst + i] := a[src + i];
    }
  }

  /** `strcpy` or `sprintf("%s")` from a string that fits. */
  method Strcpy(a: array<byte>, line: seq<byte>)
    requires |line| < a.Length
    modifies a
    ensures a[..] == Stored(old(a[..]), line)
  {
    for i := 0 to |line|
      invariant forall k :: 0 <= k < i ==> a[k] == line[k]
      invariant forall k :: i <= k < a.Length ==> a[k] == old(a[k])
    {
      a[i] := line[i];
    }
    a[|line|] := NUL;
  }
}
