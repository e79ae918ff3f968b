/** The circular singly linked list of CircularLinkedListDemo.java: `head` points
    at the first node, each node's `next` at the following one, and the last
    node's `next` back at `head`. */
module CircularLinkedListDemo {

  import opened Int32

  class Node {
    var data: int
    var next: Node?

    constructor (d: int)
      ensures data == d && next == null
    {
      data := d;
      next := null;
    }
  }

  ghost function NodeSet(nodes: seq<Node>): set<Node> {
    set i | 0 <= i < |nodes| :: nodes[i]
  }

  /** `nodes` closes into a ring: each node links to the following one, and the
      last links back to the first. */
  ghost predicate Ring(nodes: seq<Node>)
    reads NodeSet(nodes)
  {
    && (forall i :: 0 <= i < |nodes| - 1 ==> nodes[i].next == nodes[i + 1])
    && (|nodes| > 0 ==> nodes[|nodes| - 1].next == nodes[0])
  }

  ghost predicate DistinctNodes(nodes: seq<Node>) {
    forall i, j :: 0 <= i < j < |nodes| ==> nodes[i] != nodes[j]
  }

  /** In a ring of distinct nodes, following `next` from the k-th node reaches
      the (k+1)-th, and gets back to the first node exactly from the last. */
  lemma NextOf(nodes: seq<Node>, k: int)
    requires Ring(nodes) && DistinctNodes(nodes) && 0 <= k < |nodes|
    ensures k < |nodes| - 1 ==> nodes[k].next == nodes[k + 1]
    ensures nodes[k].next == nodes[0] <==> k == |nodes| - 1
  {
    if k < |nodes| - 1 {
      assert nodes[0] != nodes[k + 1];
    }
  }

  lemma NodeSetInsert(nodes: seq<Node>, k: int, n: Node)
    requires 0 <= k <= |nodes|
    ensures NodeSet(nodes[..k] + [n] + nodes[k..]) == NodeSet(nodes) + {n}
  {
    var t := nodes[..k] + [n] + nodes[k..];
    forall x | x in NodeSet(nodes)
      ensures x in NodeSet(t)
    {
      var i :| 0 <= i < |nodes| && nodes[i] == x;
      if i < k { assert t[i] == x; } else { assert t[i + 1] == x; }
    }
    assert t[k] == n;
  }

  lemma NodeSetRemove(nodes: seq<Node>, k: int)
    requires DistinctNodes(nodes) && 0 <= k < |nodes|
    ensures NodeSet(nodes[..k] + nodes[k + 1..]) == NodeSet(nodes) - {nodes[k]}
  {
    var t := nodes[..k] + nodes[k + 1..];
    forall x | x in NodeSet(nodes) && x != nodes[k]
      ensures x in NodeSet(t)
    {
      var i :| 0 <= i < |nodes| && nodes[i] == x;
      if i < k { assert t[i] == x; } else { assert t[i - 1] == x; }
    }
    forall i | 0 <= i < |t|
      ensures t[i] == nodes[if i < k then i else i + 1]
    {
    }
  }

  /** Linking a fresh node in after the k-th node of a ring (the k-th node's
      `next` now the new node, the new node's `next` the old successor, every
      other link as it was) gives the ring `t` with the node inserted at k + 1. */
  lemma RingInsert(nodes: seq<Node>, k: int, n: Node, s: seq<int>, t: seq<Node>)
    requires DistinctNodes(nodes) && n !in NodeSet(nodes) && 0 <= k < |nodes|
    requires forall i :: 0 <= i < |nodes| - 1 && i != k ==> nodes[i].next == nodes[i + 1]
    requires k != |nodes| - 1 ==> nodes[|nodes| - 1].next == nodes[0]
    requires nodes[k].next == n
    requires n.next == if k + 1 < |nodes| then nodes[k + 1] else nodes[0]
    requires |s| == |nodes| && forall i :: 0 <= i < |nodes| ==> nodes[i].data == s[i]
    requires t == nodes[..k + 1] + [n] + nodes[k + 1..]
    ensures Ring(t) && DistinctNodes(t)
    ensures forall i :: 0 <= i < |t| ==> t[i].data == Inserted(s, n.data, k + 1)[i]
  {
    var r := Inserted(s, n.data, k + 1);
    forall i | 0 <= i < |t| - 1
      ensures t[i].next == t[i + 1]
    {
      if i < k {
        assert t[i] == nodes[i] && t[i + 1] == nodes[i + 1];
      } else if i > k + 1 {
        assert t[i] == nodes[i - 1] && t[i + 1] == nodes[i];
      } else if i == k + 1 {
        assert t[i] == n && t[i + 1] == nodes[k + 1];
      }
    }
    forall i, j | 0 <= i < j < |t|
      ensures t[i] != t[j]
    {
      if i == k + 1 {
        assert t[j] == nodes[j - 1];
      } else if j == k + 1 {
        assert t[i] == nodes[i];
      }
    }
    forall i | 0 <= i < |t|
      ensures t[i].data == r[i]
    {
      if i <= k {
        assert t[i] == nodes[i] && r[i] == s[i];
      } else if i > k + 1 {
        assert t[i] == nodes[i - 1] && r[i] == s[i - 1];
      }
    }
  }

  /** Relinking the last node of a ring to a fresh node that links to the old
      first node gives the ring `t` with the new node in front. */
  lemma RingPrepend(nodes: seq<Node>, n: Node, s: seq<int>, t: seq<Node>)
    requires DistinctNodes(nodes) && n !in NodeSet(nodes) && |nodes| > 0
    requires forall i :: 0 <= i < |nodes| - 1 ==> nodes[i].next == nodes[i + 1]
    requires nodes[|nodes| - 1].next == n && n.next == nodes[0]
    requires |s| == |nodes| && forall i :: 0 <= i < |nodes| ==> nodes[i].data == s[i]
    requires t == [n] + nodes
    ensures Ring(t) && DistinctNodes(t)
    ensures forall i :: 0 <= i < |t| ==> t[i].data == ([n.data] + s)[i]
  {
    forall i | 0 <= i < |t| - 1
      ensures t[i].next == t[i + 1]
    {
      if i > 0 {
        assert t[i] == nodes[i - 1] && t[i + 1] == nodes[i];
      }
    }
    forall i, j | 0 <= i < j < |t|
      ensures t[i] != t[j]
    {
      if i == 0 {
        assert t[j] == nodes[j - 1];
      }
    }
  }

  lemma NodeSetSingleton(n: Node)
    ensures NodeSet([n]) == {n}
  {
    assert [n][0] == n;
    forall x | x in NodeSet([n])
      ensures x == n
    {
    }
  }

  /** The node reached from `n` by following `next` `steps` times, within the
      nodes of `nodes` (a node outside them, or null, stops the walk). */
  ghost function Walk(nodes: seq<Node>, n: Node?, steps: nat): (m: Node?)
    reads NodeSet(nodes)
    decreases steps
  {
    if steps == 0 then n
    else
      var m := Walk(nodes, n, steps - 1);
      if m == null || m !in NodeSet(nodes) then m else m.next
  }

  /** In a ring, j steps from the first node reach the j-th node, and |nodes|
      steps get back to the first. */
  lemma {:induction false} WalkIndex(nodes: seq<Node>, j: nat)
    requires Ring(nodes) && 0 < |nodes| && j <= |nodes|
    ensures Walk(nodes, nodes[0], j) == if j == |nodes| then nodes[0] else nodes[j]
  {
    if j > 0 {
      WalkIndex(nodes, j - 1);
      assert nodes[j - 1] in NodeSet(nodes);
    }
  }

  class CircularLinkedList {
    var head: Node?
    /** The nodes in list order, starting at `head`. */
    ghost var nodes: seq<Node>
    ghost var Repr: set<Node>
    /** The values in list order, from `head` once round the ring. */
    ghost var Contents: seq<int>

    ghost predicate Valid()
      reads this, Repr
    {
      && Repr == NodeSet(nodes)
      && DistinctNodes(nodes)
      && (if nodes == [] then head == null else head == nodes[0])
      && Ring(nodes)
      && |Contents| == |nodes|
      && (forall i :: 0 <= i < |nodes| ==> nodes[i].data == Contents[i])
    }

    constructor ()
      ensures Valid() && Contents == [] && head == null
    {
      head := null;
      nodes, Repr, Contents := [], {}, [];
    }

    /** `insertAt(data, pos)`: a single self-linked node into an empty list;
        `pos == 1` makes the new node the head (relinking the last node to it);
        any other `pos` walks at most `pos - 2` links from the head (stopping at
        the last node) and links the new node in after the node reached. */
    method InsertAt(data: int, pos: int) returns (ghost added: Node)
      requires Valid() && InRange(pos)
      modifies this, Repr
      ensures Valid() && fresh(added) && Repr == old(Repr) + {added}
      ensures Contents == Inserted(old(Contents), data, InsertIndex(|old(Contents)|, pos))
    {
      if head == null {
        added := InsertIntoEmpty(data);
        return;
      }
      if pos == 1 {
        added := InsertAsHead(data);
        return;
      }
      var temp, k := FindInsertPoint(pos);
      added := InsertAfter(temp, k, data);
    }

    /** The walk of `insertAt` for `pos != 1`: from the head, at most
        `pos - 2` links, stopping early at the last node. The node reached is
        the one the new node goes after. */
    method FindInsertPoint(pos: int) returns (temp: Node, ghost k: int)
      requires Valid() && head != null && InRange(pos) && pos != 1
      ensures 0 <= k < |nodes| && temp == nodes[k]
      ensures k + 1 == InsertIndex(|nodes|, pos)
    {
      temp := head;
      k := 0;
      var i := 1;
      // Java's `pos - 1` in the loop condition is an int expression and wraps.
      while i < Wrap(pos - 1) && temp.next != head
        invariant 1 <= i && k == i - 1 && k < |nodes| && temp == nodes[k]
        invariant i <= Wrap(pos - 1) || i == 1
        decreases |nodes| - k
      {
        NextOf(nodes, k);
        temp := temp.next;
        i, k := i + 1, k + 1;
      }
      NextOf(nodes, k);
    }

    /** The empty-list branch of `insertAt`: the new node links to itself. */
    method InsertIntoEmpty(data: int) returns (ghost added: Node)
      requires Valid() && head == null
      modifies this
      ensures Valid() && fresh(added) && Repr == old(Repr) + {added}
      ensures Contents == [data]
    {
      var newNode := new Node(data);
      head := newNode;
      newNode.next := head;
      nodes, Repr, Contents := [newNode], {newNode}, [data];
      NodeSetSingleton(newNode);
      added := newNode;
    }

    /** The `pos == 1` branch of `insertAt`: the last node is relinked to the
        new node, which links to the old head and becomes the head. */
    method InsertAsHead(data: int) returns (ghost added: Node)
      requires Valid() && head != null
      modifies this, Repr
      ensures Valid() && fresh(added) && Repr == old(Repr) + {added}
      ensures Contents == [data] + old(Contents)
    {
      ghost var was := Contents;
      ghost var n0 := nodes;
      var newNode := new Node(data);
      var last := FindLast();
      NodeSetInsert(n0, 0, newNode);
      assert n0[..0] + [newNode] + n0[0..] == [newNode] + n0;
      last.next := newNode;
      newNode.next := head;
      head := newNode;
      nodes, Repr, Contents := [newNode] + n0, Repr + {newNode}, [data] + was;
      added := newNode;
      RingPrepend(n0, newNode, was, nodes);
    }

    /** The walking branch of `insertAt`, once the walk stops at `temp`, the
        k-th node: the new node is linked in right after it. */
    method InsertAfter(temp: Node, ghost k: int, data: int) returns (ghost added: Node)
      requires Valid() && 0 <= k < |nodes| && temp == nodes[k]
      modifies this, Repr
      ensures Valid() && fresh(added) && Repr == old(Repr) + {added}
      ensures Contents == Inserted(old(Contents), data, k + 1)
    {
      ghost var was := Contents;
      ghost var n0 := nodes;
      var newNode := new Node(data);
      NextOf(n0, k);
      NodeSetInsert(n0, k + 1, newNode);
      assert temp in NodeSet(n0);
      newNode.next := temp.next;
      temp.next := newNode;
      nodes, Repr, Contents := n0[..k + 1] + [newNode] + n0[k + 1..], Repr + {newNode}, Inserted(was, data, k + 1);
      added := newNode;
      RingInsert(n0, k, newNode, was, nodes);
    }

    /** Following `next` from `head` gets back to `head` after exactly
        |Contents| steps, and not before. */
    lemma RingCloses()
      requires Valid() && head != null
      ensures Walk(nodes, head, |Contents|) == head
      ensures forall j :: 0 < j < |Contents| ==> Walk(nodes, head, j) != head
    {
      WalkIndex(nodes, |nodes|);
      forall j | 0 < j < |nodes|
        ensures Walk(nodes, head, j) != head
      {
        WalkIndex(nodes, j);
      }
    }

    /** The last node: the one whose `next` is `head`. */
    method FindLast() returns (last: Node)
      requires Valid() && head != null
      ensures last == nodes[|nodes| - 1]
    {
      last := head;
      ghost var k := 0;
      while last.next != head
        invariant 0 <= k < |nodes| && last == nodes[k]
        decreases |nodes| - k
      {
        NextOf(nodes, k);
        last := last.next;
        k := k + 1;
      }
      NextOf(nodes, k);
    }

    /** `deleteNode(key)`: unlinks the first node, counted from the head, whose
        value is `key`. Deleting the head of a one-node list empties it;
        deleting the head of a longer one moves `head` to `head.next`. An empty
        list, or one without `key`, is left as it is. */
    method DeleteNode(key: int)
      requires Valid()
      modifies this, Repr
      ensures Valid() && Repr <= old(Repr)
      ensures Contents == DeleteFirst(old(Contents), key)
    {
      if head == null {
        return;
      }
      ghost var was := Contents;
      var curr := head;
      var prev: Node? := null;
      ghost var k := 0;
      // The do-while walk; the unlinking it does on a match follows the loop.
      while true
        invariant 0 <= k < |nodes| && curr == nodes[k]
        invariant prev == if k == 0 then null else nodes[k - 1]
        invariant key !in was[..k]
        modifies {}
        decreases |nodes| - k
      {
        if curr.data == key {
          break;
        }
        assert was[..k + 1] == was[..k] + [was[k]];
        NextOf(nodes, k);
        prev := curr;
        curr := curr.next;
        k := k + 1;
        if curr == head {
          break;
        }
      }
      if curr.data != key {
        assert k == |nodes| && was[..k] == was;
        DeleteFirstAbsent(was, key);
        return;
      }
      DeleteFirstAt(was, key, k);
      if prev == null {
        UnlinkHead();
      } else {
        UnlinkAfter(prev, k);
      }
    }

    /** The head branch of `deleteNode`: the last node is found; if it is the
        head itself the list becomes empty, otherwise it is relinked to
        `head.next`, which becomes the new head. */
    method UnlinkHead()
      requires Valid() && head != null
      modifies this, Repr
      ensures Valid() && Repr <= old(Repr)
      ensures nodes == old(nodes)[1..]
      ensures Contents == old(Contents)[1..]
    {
      var last := FindLast();
      if last == head {
        head := null;
        nodes, Repr, Contents := [], {}, [];
      } else {
        NodeSetRemove(nodes, 0);
        NextOf(nodes, 0);
        last.next := head.next;
        head := head.next;
        Repr := Repr - {nodes[0]};
        nodes, Contents := nodes[1..], Contents[1..];
      }
    }

    /** The other branch of `deleteNode`: `prev.next = curr.next` unlinks the
        k-th node, whose predecessor is `prev`. */
    method UnlinkAfter(prev: Node, ghost k: int)
      requires Valid() && 0 < k < |nodes| && prev == nodes[k - 1]
      modifies this, Repr
      ensures Valid() && Repr <= old(Repr)
      ensures Contents == RemovedAt(old(Contents), k)
    {
      NodeSetRemove(nodes, k);
      NextOf(nodes, k - 1);
      NextOf(nodes, k);
      prev.next := prev.next.next;
      Repr := Repr - {nodes[k]};
      nodes, Contents := nodes[..k] + nodes[k + 1..], RemovedAt(Contents, k);
    }

    /** `modifyNode(oldData, newData)`: overwrites the value of the first node,
        counted from the head, holding `oldData`; without such a node nothing
        changes. */
    method ModifyNode(oldData: int, newData: int)
      requires Valid()
      modifies this, Repr
      ensures Valid() && Repr == old(Repr) && nodes == old(nodes) && head == old(head)
      ensures Contents == ReplaceFirst(old(Contents), oldData, newData)
    {
      if head == null {
        return;
      }
      ghost var was := Contents;
      var temp := head;
      ghost var k := 0;
      // The do-while walk; the overwrite it does on a match follows the loop.
      while true
        invariant 0 <= k < |nodes| && temp == nodes[k]
        invariant oldData !in was[..k]
        modifies {}
        decreases |nodes| - k
      {
        if temp.data == oldData {
          break;
        }
        assert was[..k + 1] == was[..k] + [was[k]];
        NextOf(nodes, k);
        temp := temp.next;
        k := k + 1;
        if temp == head {
          break;
        }
      }
      if temp.data != oldData {
        assert k == |nodes| && was[..k] == was;
        ReplaceFirstAbsent(was, oldData, newData);
        return;
      }
      ReplaceFirstAt(was, oldData, newData, k);
      SetData(temp, k, newData);
    }

    /** The overwrite `temp.data = newData` of `modifyNode`, on the k-th node. */
    method SetData(temp: Node, ghost k: int, newData: int)
      requires Valid() && 0 <= k < |nodes| && temp == nodes[k]
      modifies this, temp
      ensures Valid() && Repr == old(Repr) && nodes == old(nodes) && head == old(head)
      ensures Contents == old(Contents)[k := newData]
    {
      temp.data := newData;
      Contents := Contents[k := newData];
    }

    /** `display`: the values visited from the head once round the ring. */
    method Display() returns (shown: seq<int>)
      requires Valid()
      ensures shown == Contents
    {
      shown := [];
      if head == null {
        return;
      }
      var temp := head;
      ghost var k := 0;
      while true
        invariant 0 <= k < |nodes| && temp == nodes[k]
        invariant shown == Contents[..k]
        decreases |nodes| - k
      {
        shown := shown + [temp.data];
        NextOf(nodes, k);
        temp := temp.next;
        k := k + 1;
        if temp == head {
          break;
        }
      }
    }
  }

  /** Where `insertAt` puts the new element in a list of n: at the front for
      `pos == 1` or an empty list, otherwise after `Wrap(pos - 1) - 1` steps,
      but at least one and at most n. */
  function InsertIndex(n: nat, pos: int): (idx: nat)
    requires InRange(pos)
    ensures idx <= n
    ensures n == 0 || pos == 1 ==> idx == 0
    ensures n > 0 && 1 < pos ==> idx == if pos - 1 < n then pos - 1 else n
    ensures n > 0 && MIN < pos < 1 ==> idx == 1
    ensures n > 0 && pos == MIN ==> idx == if n <= MAX then n else MAX
  {
    assert Wrap(MIN - 1) == MAX;
    if n == 0 || pos == 1 then 0
    else var p := Wrap(pos - 1); if p <= 1 then 1 else if p < n then p else n
  }

  /** `s` with `x` inserted so that it lands at index `idx`. */
  function Inserted(s: seq<int>, x: int, idx: nat): (r: seq<int>)
    requires idx <= |s|
  {
    s[..idx] + [x] + s[idx..]
  }

  /** Inserting grows the list by one element, places it at `idx`, and leaves
      the old elements in their old order around it. */
  lemma InsertedShape(s: seq<int>, x: int, idx: nat)
    requires idx <= |s|
    ensures |Inserted(s, x, idx)| == |s| + 1
    ensures Inserted(s, x, idx)[idx] == x
    ensures RemovedAt(Inserted(s, x, idx), idx) == s
    ensures multiset(Inserted(s, x, idx)) == multiset(s) + multiset{x}
  {
    var r := Inserted(s, x, idx);
    assert r[..idx] == s[..idx] && r[idx + 1..] == s[idx..];
    assert s == s[..idx] + s[idx..];
  }

  function RemovedAt(s: seq<int>, i: nat): seq<int>
    requires i < |s|
  {
    s[..i] + s[i + 1..]
  }

  /** The list with its first `key` taken out, if it has one. */
  function DeleteFirst(s: seq<int>, key: int): (r: seq<int>)
  {
    if s == [] then []
    else if s[0] == key then s[1..]
    else [s[0]] + DeleteFirst(s[1..], key)
  }

  /** DeleteFirst removes exactly one `key` when there is one, and otherwise nothing. */
  lemma {:induction false} DeleteFirstCount(s: seq<int>, key: int)
    ensures key in s ==> multiset(DeleteFirst(s, key)) == multiset(s) - multiset{key}
    ensures key in s ==> |DeleteFirst(s, key)| == |s| - 1
    ensures key !in s ==> DeleteFirst(s, key) == s
  {
    if s != [] {
      var rest := s[1..];
      assert s == [s[0]] + rest;
      assert multiset(s) == multiset{s[0]} + multiset(rest);
      if s[0] != key {
        DeleteFirstCount(rest, key);
        var r := DeleteFirst(rest, key);
        assert DeleteFirst(s, key) == [s[0]] + r;
        assert multiset([s[0]] + r) == multiset{s[0]} + multiset(r);
        assert key in s <==> key in rest;
      }
    }
  }

  /** When the first `key` is at k, DeleteFirst cuts out index k. */
  lemma {:induction false} DeleteFirstAt(s: seq<int>, key: int, k: nat)
    requires k < |s| && s[k] == key && key !in s[..k]
    ensures DeleteFirst(s, key) == RemovedAt(s, k)
  {
    if k > 0 {
      assert s[1..][..k - 1] == s[..k][1..];
      DeleteFirstAt(s[1..], key, k - 1);
    }
  }

  lemma {:induction false} DeleteFirstAbsent(s: seq<int>, key: int)
    requires key !in s
    ensures DeleteFirst(s, key) == s
  {
    if s != [] {
      DeleteFirstAbsent(s[1..], key);
    }
  }

  /** The list with its first `oldData` overwritten by `newData`, if it has one. */
  function ReplaceFirst(s: seq<int>, oldData: int, newData: int): (r: seq<int>)
    ensures |r| == |s|
  {
    if s == [] then []
    else if s[0] == oldData then [newData] + s[1..]
    else [s[0]] + ReplaceFirst(s[1..], oldData, newData)
  }

  /** ReplaceFirst changes exactly the first occurrence and nothing else. */
  lemma {:induction false} ReplaceFirstAt(s: seq<int>, oldData: int, newData: int, k: nat)
    requires k < |s| && s[k] == oldData && oldData !in s[..k]
    ensures ReplaceFirst(s, oldData, newData) == s[k := newData]
  {
    if k > 0 {
      assert s[1..][..k - 1] == s[..k][1..];
      ReplaceFirstAt(s[1..], oldData, newData, k - 1);
    }
  }

  lemma {:induction false} ReplaceFirstAbsent(s: seq<int>, oldData: int, newData: int)
    requires oldData !in s
    ensures ReplaceFirst(s, oldData, newData) == s
  {
    if s != [] {
      ReplaceFirstAbsent(s[1..], oldData, newData);
    }
  }

  /** ReplaceFirst changes one `oldData` into `newData` when there is one. */
  lemma {:induction false} ReplaceFirstCount(s: seq<int>, oldData: int, newData: int)
    ensures oldData in s ==>
      multiset(ReplaceFirst(s, oldData, newData)) == multiset(s) - multiset{oldData} + multiset{newData}
    ensures oldData !in s ==> ReplaceFirst(s, oldData, newData) == s
  {
    if s != [] {
      var rest := s[1..];
      assert s == [s[0]] + rest;
      assert multiset(s) == multiset{s[0]} + multiset(rest);
      if s[0] == oldData {
        assert ReplaceFirst(s, oldData, newData) == [newData] + rest;
      } else {
        ReplaceFirstCount(rest, oldData, newData);
        var r := ReplaceFirst(rest, oldData, newData);
        assert ReplaceFirst(s, oldData, newData) == [s[0]] + r;
        assert multiset([s[0]] + r) == multiset{s[0]} + multiset(r);
        assert oldData in s <==> oldData in rest;
      }
    }
  }
}
