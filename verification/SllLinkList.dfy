/** The intrusive singly linked list, refined to the sequence of nodes that
    following `next` from the head visits. */
module SllLinkList {
  import opened Seqs

  datatype Ret = RetSuccess | RetError

  class Node {
    var next: Node?

    constructor ()
      ensures next == null
    {
      next := null;
    }
  }

  /** Following `next` from `head` visits exactly `s` and then ends. */
  ghost predicate Chain(head: Node?, s: seq<Node>)
    reads s
  {
    && (head == null <==> s == [])
    && (s != [] ==> head == s[0] && s[|s| - 1].next == null)
    && (forall i, j {:trigger s[i].next, s[j]} :: 0 <= i && j == i + 1 && j < |s| ==> s[i].next == s[j])
  }

  lemma ChainTail(head: Node?, s: seq<Node>)
    requires Chain(head, s) && s != []
    ensures Chain(s[0].next, s[1..])
  {
    forall i, j | 0 <= i && j == i + 1 && j < |s[1..]|
      ensures s[1..][i].next == s[1..][j]
    {
      assert s[i + 1].next == s[j + 1];
    }
    if |s| > 1 {
      assert s[0].next == s[1];
    }
  }

  /** The heap determines the chain. */
  lemma {:induction false} ChainUnique(head: Node?, s: seq<Node>, t: seq<Node>)
    requires Chain(head, s) && Chain(head, t)
    ensures s == t
    decreases |s|
  {
    if s != [] {
      ChainTail(head, s);
      ChainTail(head, t);
      ChainUnique(s[0].next, s[1..], t[1..]);
      SplitFirst(s);
      SplitFirst(t);
    }
  }

  lemma {:induction false} ChainDrop(head: Node?, s: seq<Node>, i: nat)
    requires Chain(head, s) && i < |s|
    ensures Chain(s[i], s[i..])
    decreases i
  {
    if i == 0 {
      assert s[0..] == s;
    } else {
      ChainTail(head, s);
      ChainDrop(s[0].next, s[1..], i - 1);
      assert s[1..][i - 1..] == s[i..];
    }
  }

  ghost predicate NoRepeats<T>(s: seq<T>) {
    forall i, j :: 0 <= i < j < |s| ==> s[i] != s[j]
  }

  /** A chain that ends is acyclic: no node occurs in it twice. */
  lemma ChainHasNoRepeats(head: Node?, s: seq<Node>)
    requires Chain(head, s)
    ensures NoRepeats(s)
  {
    forall i, j | 0 <= i < j < |s|
      ensures s[i] != s[j]
    {
      ChainDrop(head, s, i);
      ChainDrop(head, s, j);
      if s[i] == s[j] {
        ChainUnique(s[i], s[i..], s[j..]);
      }
    }
  }

  /** `x` in the list after the first `k` nodes. */
  function Inserted<T>(s: seq<T>, k: nat, x: T): (r: seq<T>)
    requires k <= |s|
    ensures |r| == |s| + 1 && r[k] == x && r[..k] == s[..k] && r[k + 1..] == s[k..]
  {
    s[..k] + [x] + s[k..]
  }

  /** `s` without its first `x`. */
  function Removed<T(==)>(s: seq<T>, x: T): seq<T>
  {
    if s == [] then []
    else if s[0] == x then s[1..]
    else [s[0]] + Removed(s[1..], x)
  }

  lemma {:induction false} RemovedAt<T>(s: seq<T>, k: nat)
    requires k < |s| && s[k] !in s[..k]
    ensures Removed(s, s[k]) == s[..k] + s[k + 1..]
  {
    if k > 0 {
      assert s[0] == s[..k][0];
      assert s[1..][..k - 1] == s[..k][1..];
      RemovedAt(s[1..], k - 1);
    }
  }

  lemma {:induction false} RemovedAbsent<T>(s: seq<T>, x: T)
    requires x !in s
    ensures Removed(s, x) == s
  {
    if s != [] {
      RemovedAbsent(s[1..], x);
    }
  }

  /** In a chain, removal takes out every trace of the node and nothing else. */
  lemma RemovedIsGone<T>(s: seq<T>, x: T)
    requires NoRepeats(s)
    ensures NoRepeats(Removed(s, x))
    ensures forall y :: y in Removed(s, x) <==> y in s && y != x
  {
    if x in s {
      var k :| 0 <= k < |s| && s[k] == x;
      RemovedAt(s, k);
      forall y | y in s && y != x
        ensures y in s[..k] + s[k + 1..]
      {
        var i :| 0 <= i < |s| && s[i] == y;
        assert i < k ==> s[..k][i] == y;
        assert i > k ==> s[k + 1..][i - k - 1] == y;
      }
    } else {
      RemovedAbsent(s, x);
    }
  }

  /** Removing a node undoes any insertion of it. */
  lemma RemoveUndoesInsert<T>(s: seq<T>, k: nat, x: T)
    requires k <= |s| && x !in s
    ensures Removed(Inserted(s, k, x), x) == s
  {
    var t := Inserted(s, k, x);
    assert t[..k] == s[..k];
    RemovedAt(t, k);
    assert t[k + 1..] == s[k..];
  }

  /** What removal leaves of a chain, whether the node is in it or not. */
  lemma RemovedFrom(head: Node?, s: seq<Node>, x: Node)
    requires Chain(head, s)
    ensures x !in s ==> Removed(s, x) == s
    ensures forall k :: 0 <= k < |s| && s[k] == x ==> Removed(s, x) == s[..k] + s[k + 1..]
  {
    if x !in s {
      RemovedAbsent(s, x);
    }
    ChainHasNoRepeats(head, s);
    forall k | 0 <= k < |s| && s[k] == x
      ensures Removed(s, x) == s[..k] + s[k + 1..]
    {
      RemovedAt(s, k);
    }
  }

  class LinkList {
    var head: Node?
    var tail: Node?
    ghost var nodes: seq<Node>

    /** The last node is found by walking; nothing is said about `tail`. */
    ghost predicate Valid()
      reads this, nodes
    {
      Chain(head, nodes)
    }

    constructor ()
      ensures Valid() && nodes == [] && tail == null
    {
      head, tail, nodes := null, null, [];
    }

    method InsertAtHead(node: Node) returns (ret: Ret)
      requires Valid() && node !in nodes
      modifies this, node
      ensures Valid() && ret == RetSuccess
      ensures nodes == [node] + old(nodes)
      ensures tail == if old(tail) == null then node else old(tail)
    {
      node.next := head;
      head := node;
      if tail == null {
        tail := node;
      }
      nodes := [node] + nodes;
      return RetSuccess;
    }

    /** Positions count from one, and smaller ones mean one: the node goes behind
        the `index`-th node.  Behind the end nothing happens, with success. */
    method InsertAtIndex(node: Node, index: int) returns (ret: Ret)
      requires Valid() && node !in nodes
      modifies this, node, nodes
      ensures Valid() && tail == old(tail)
      ensures ret == if old(nodes) == [] then RetError else RetSuccess
      ensures var k := if index < 1 then 1 else index;
        if old(nodes) != [] && k <= |old(nodes)| then
          && |nodes| == |old(nodes)| + 1 && nodes[k] == node
          && nodes[..k] == old(nodes)[..k] && nodes[k + 1..] == old(nodes)[k..]
        else nodes == old(nodes) && node.next == old(node.next)
    {
      if head == null {
        return RetError;
      }
      var i := 1;
      var tmp := head;
      while tmp != null && i < index
        invariant 1 <= i && (i == 1 || i <= index)
        invariant if i <= |nodes| then tmp == nodes[i - 1] else tmp == null && i == |nodes| + 1
        decreases |nodes| + 1 - i
      {
        assert i < |nodes| ==> nodes[i - 1].next == nodes[i];
        tmp := tmp.next;
        i := i + 1;
      }
      if tmp != null {
        InsertBehind(tmp, node, i);
      }
      return RetSuccess;
    }

    /** Links `node` behind the `k`-th node. */
    method InsertBehind(p: Node, node: Node, ghost k: nat)
      requires Valid() && node !in nodes
      requires 1 <= k <= |nodes| && p == nodes[k - 1]
      modifies this`nodes, p, node
      ensures Valid() && nodes == Inserted(old(nodes), k, node)
    {
      ChainHasNoRepeats(head, nodes);
      node.next := p.next;
      p.next := node;
      nodes := Inserted(nodes, k, node);
    }

    method InsertAtTail(node: Node) returns (ret: Ret)
      requires Valid() && node !in nodes
      modifies this, node, nodes
      ensures Valid() && ret == RetSuccess
      ensures nodes == old(nodes) + [node]
      ensures tail == if old(nodes) == [] then node else old(tail)
    {
      if head == null {
        head, tail := node, node;
        node.next := null;
        nodes := [node];
        return RetSuccess;
      }
      var tmp := head;
      ghost var i := 0;
      while tmp.next != null
        invariant i < |nodes| && tmp == nodes[i]
        invariant i + 1 < |nodes| ==> tmp.next == nodes[i + 1]
        decreases |nodes| - i
      {
        tmp := tmp.next;
        i := i + 1;
      }
      ChainHasNoRepeats(head, nodes);
      tmp.next := node;
      node.next := null;
      nodes := nodes + [node];
      return RetSuccess;
    }

    method Empty() returns (empty: bool)
      requires Valid()
      ensures empty <==> nodes == []
    {
      return head == null;
    }

    method GetTail() returns (last: Node?)
      requires Valid()
      ensures last == if nodes == [] then null else nodes[|nodes| - 1]
    {
      if head == null {
        return null;
      }
      last := head;
      ghost var i := 0;
      while last.next != null
        invariant last != null
        invariant i < |nodes| && last == nodes[i]
        invariant i + 1 < |nodes| ==> last.next == nodes[i + 1]
        decreases |nodes| - i
      {
        last := last.next;
        i := i + 1;
      }
    }

    method HeadRemove() returns (ret: Ret)
      requires Valid()
      modifies this
      ensures Valid() && tail == old(tail)
      ensures ret == if old(nodes) == [] then RetError else RetSuccess
      ensures nodes == if old(nodes) == [] then [] else old(nodes)[1..]
    {
      if head == null {
        return RetError;
      }
      ChainTail(head, nodes);
      head := head.next;
      nodes := nodes[1..];
      return RetSuccess;
    }

    /** On a list of one node the original follows a null predecessor. */
    method TailRemove() returns (ret: Ret)
      requires Valid() && |nodes| != 1
      modifies this, nodes
      ensures Valid() && head == old(head) && tail == old(tail)
      ensures ret == if old(nodes) == [] then RetError else RetSuccess
      ensures nodes == if old(nodes) == [] then [] else old(nodes)[..|old(nodes)| - 1]
    {
      if head == null {
        return RetError;
      }
      var node := head;
      var pre: Node? := null;
      ghost var i := 0;
      while node.next != null
        invariant i < |nodes| && node == nodes[i]
        invariant i + 1 < |nodes| ==> node.next == nodes[i + 1]
        invariant if i == 0 then pre == null else pre == nodes[i - 1]
        decreases |nodes| - i
      {
        pre := node;
        node := node.next;
        i := i + 1;
      }
      ChainHasNoRepeats(head, nodes);
      pre.next := null;
      nodes := nodes[..|nodes| - 1];
      return RetSuccess;
    }

    /** Removes exactly `node`; without it the list stays as it is. */
    method NodeRemove(node: Node) returns (ret: Ret)
      requires Valid()
      modifies this, nodes
      ensures Valid() && tail == old(tail)
      ensures ret == if node in old(nodes) then RetSuccess else RetError
      ensures nodes == Removed(old(nodes), node)
      ensures node !in old(nodes) ==> nodes == old(nodes)
      ensures forall k :: 0 <= k < |old(nodes)| && old(nodes)[k] == node ==>
                            nodes == old(nodes)[..k] + old(nodes)[k + 1..]
    {
      RemovedFrom(head, nodes, node);
      if head == null {
        return RetError;
      }
      ChainHasNoRepeats(head, nodes);
      if node == head {
        ret := HeadRemove();
        return RetSuccess;
      }
      var last := GetTail();
      if node == last {
        RemovedAt(nodes, |nodes| - 1);
        ret := TailRemove();
        return RetSuccess;
      }
      ret := UnlinkInner(node);
    }

    /** Pointing `p` past its successor takes the successor out. */
    method Unlink(p: Node, node: Node, ghost k: nat)
      requires Valid() && NoRepeats(nodes)
      requires k + 2 < |nodes| && p == nodes[k] && node == nodes[k + 1]
      modifies this`nodes, p
      ensures Valid() && nodes == old(nodes)[..k + 1] + old(nodes)[k + 2..]
    {
      assert nodes[k + 1].next == nodes[k + 2];
      p.next := node.next;
      nodes := nodes[..k + 1] + nodes[k + 2..];
    }

    /** The search loop of `NodeRemove`: the node is neither first nor last. */
    method UnlinkInner(node: Node) returns (ret: Ret)
      requires Valid() && nodes != []
      requires node != nodes[0] && node != nodes[|nodes| - 1]
      modifies nodes, this
      ensures Valid() && tail == old(tail)
      ensures ret == if node in old(nodes) then RetSuccess else RetError
      ensures nodes == Removed(old(nodes), node)
    {
      var p := head;
      ghost var i := 0;
      while p != null
        invariant if i < |nodes| then p == nodes[i] else p == null && i == |nodes|
        invariant forall j :: 0 <= j <= i && j < |nodes| ==> nodes[j] != node
        decreases |nodes| - i
      {
        assert i + 1 < |nodes| ==> nodes[i].next == nodes[i + 1];
        if p.next == node {
          ChainHasNoRepeats(head, nodes);
          RemovedAt(nodes, i + 1);
          Unlink(p, node, i);
          return RetSuccess;
        }
        p := p.next;
        i := i + 1;
      }
      RemovedAbsent(nodes, node);
      return RetError;
    }
  }
}
