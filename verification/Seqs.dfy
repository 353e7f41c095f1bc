/** Facts about sequences, stated on plain variables so that they stay cheap. */
module Seqs {

  lemma Reassociate<T>(x: seq<T>, y: seq<T>, z: seq<T>)
    ensures (x + y) + z == x + (y + z)
  {
  }

  lemma SplitLast<T>(s: seq<T>)
    requires s != []
    ensures s == s[..|s| - 1] + [s[|s| - 1]]
  {
  }

  lemma SplitFirst<T>(s: seq<T>)
    requires s != []
    ensures s == [s[0]] + s[1..]
  {
  }

  /** Three pieces written one after the other. */
  lemma Written3<T>(was: seq<T>, x: seq<T>, y: seq<T>, z: seq<T>)
    ensures ((was + x) + y) + z == was + (x + y + z)
  {
  }
}
