/** The bookended doubly linked list that run queues, wait channels and zombie lists are made of. */
module ThreadList {
  import opened Common

  /** A list node: the one embedded in a thread, or a bookend, whose `self` is None. */
  class Node {
    var prev: Node?
    var next: Node?
    const self: Option<ThreadId>

    constructor (self: Option<ThreadId>)
      ensures prev == null && next == null && this.self == self
    {
      prev, next := null, null;
      this.self := self;
    }
  }

  /** The nodes of `spine` are linked to each other in order, both ways, and to nothing else. */
  ghost predicate Linked(spine: seq<Node>)
    reads spine
  {
    && |spine| >= 2
    && (forall i, j :: 0 <= i < j < |spine| ==> spine[i] != spine[j])
    && (forall i :: 0 <= i < |spine| - 1 ==> spine[i].next == spine[i + 1])
    && (forall i :: 1 <= i < |spine| ==> spine[i].prev == spine[i - 1])
    && spine[0].prev == null && spine[|spine| - 1].next == null
  }

  class List {
    const head: Node
    const tail: Node
    var count: nat
    ghost var spine: seq<Node>   // head, the threads on the list, tail

    ghost predicate Valid()
      reads this, spine
    {
      && Linked(spine)
      && spine[0] == head && spine[|spine| - 1] == tail
      && head.self == None && tail.self == None
      && (forall i :: 1 <= i < |spine| - 1 ==> spine[i].self.Some?)
      && count == |spine| - 2
    }

    ghost function Contents(): (s: seq<Node>)
      requires Valid()
      reads this, spine
    {
      spine[1..|spine| - 1]
    }

    constructor ()
      ensures Valid() && Contents() == [] && fresh(head) && fresh(tail)
    {
      var h := new Node(None);
      var t := new Node(None);
      head, tail := h, t;
      count := 0;
      spine := [h, t];
      new;
      head.next := tail;
      tail.prev := head;
    }

    method IsEmpty() returns (empty: bool)
      requires Valid()
      ensures empty <==> Contents() == []
    {
      empty := count == 0;
    }

    /** Link `addee` in after the node at position `i`. Does not update the count. */
    method InsertAfterNode(onlist: Node, addee: Node, ghost i: nat)
      requires Linked(spine) && i < |spine| - 1 && spine[i] == onlist
      requires addee.prev == null && addee.next == null
      modifies this`spine, spine, addee
      ensures spine == old(spine[..i + 1] + [addee] + spine[i + 1..])
      ensures Linked(spine)
    {
      assert addee !in spine by { OffEveryList(addee, spine); }
      assert spine[i].next == spine[i + 1];
      addee.prev := onlist;
      addee.next := onlist.next;
      addee.prev.next := addee;
      addee.next.prev := addee;
      spine := spine[..i + 1] + [addee] + spine[i + 1..];
    }

    /** Link `addee` in before the node at position `i`. Does not update the count. */
    method InsertBeforeNode(addee: Node, onlist: Node, ghost i: nat)
      requires Linked(spine) && 0 < i < |spine| && spine[i] == onlist
      requires addee.prev == null && addee.next == null
      modifies this`spine, spine, addee
      ensures spine == old(spine[..i] + [addee] + spine[i..])
      ensures Linked(spine)
    {
      assert addee !in spine by { OffEveryList(addee, spine); }
      assert spine[i].prev == spine[i - 1];
      addee.prev := onlist.prev;
      addee.next := onlist;
      addee.prev.next := addee;
      addee.next.prev := addee;
      spine := spine[..i] + [addee] + spine[i..];
    }

    /** Unlink the node at position `i`, which is not a bookend. Does not update the count. */
    method RemoveNode(node: Node, ghost i: nat)
      requires Linked(spine) && 0 < i < |spine| - 1 && spine[i] == node
      modifies this`spine, spine
      ensures spine == old(spine[..i] + spine[i + 1..])
      ensures Linked(spine)
      ensures node.prev == null && node.next == null
    {
      assert spine[i].prev == spine[i - 1] && spine[i].next == spine[i + 1];
      node.prev.next := node.next;
      node.next.prev := node.prev;
      node.prev := null;
      node.next := null;
      spine := spine[..i] + spine[i + 1..];
    }

    method AddHead(t: Node)
      requires Valid() && t.prev == null && t.next == null && t.self.Some?
      modifies this, spine, t
      ensures Valid() && Contents() == [t] + old(Contents())
    {
      InsertAfterNode(head, t, 0);
      count := count + 1;
    }

    method AddTail(t: Node)
      requires Valid() && t.prev == null && t.next == null && t.self.Some?
      modifies this, spine, t
      ensures Valid() && Contents() == old(Contents()) + [t]
    {
      InsertBeforeNode(t, tail, |spine| - 1);
      count := count + 1;
    }

    method RemHead() returns (r: Node?)
      requires Valid()
      modifies this, spine
      ensures Valid()
      ensures old(Contents()) == [] ==> r == null && Contents() == []
      ensures old(Contents()) != [] ==>
                && r == old(Contents()[0]) && Contents() == old(Contents()[1..])
                && r.prev == null && r.next == null
    {
      var node := head.next;
      assert node == spine[1] && (|spine| > 2 ==> spine[1].next == spine[2]);
      if node.next == null {
        return null;
      }
      RemoveNode(node, 1);
      count := count - 1;
      return node;
    }

    method RemTail() returns (r: Node?)
      requires Valid()
      modifies this, spine
      ensures Valid()
      ensures old(Contents()) == [] ==> r == null && Contents() == []
      ensures old(Contents()) != [] ==>
                && r == old(Contents()[|Contents()| - 1])
                && Contents() == old(Contents()[..|Contents()| - 1])
                && r.prev == null && r.next == null
    {
      var node := tail.prev;
      assert node == spine[|spine| - 2] && (|spine| > 2 ==> spine[|spine| - 2].prev == spine[|spine| - 3]);
      if node.prev == null {
        return null;
      }
      RemoveNode(node, |spine| - 2);
      count := count - 1;
      return node;
    }

    method InsertAfter(onlist: Node, addee: Node, ghost k: nat)
      requires Valid() && k < |Contents()| && Contents()[k] == onlist
      requires addee.prev == null && addee.next == null && addee.self.Some?
      modifies this, spine, addee
      ensures Valid() && Contents() == old(Contents()[..k + 1] + [addee] + Contents()[k + 1..])
    {
      ghost var was, i := spine, k + 1;
      InsertAfterNode(onlist, addee, i);
      InsertedInside(was, i, addee, spine);
      count := count + 1;
    }

    method InsertBefore(addee: Node, onlist: Node, ghost k: nat)
      requires Valid() && k < |Contents()| && Contents()[k] == onlist
      requires addee.prev == null && addee.next == null && addee.self.Some?
      modifies this, spine, addee
      ensures Valid() && Contents() == old(Contents()[..k] + [addee] + Contents()[k..])
    {
      ghost var was := spine;
      InsertBeforeNode(addee, onlist, k + 1);
      InsertedInside(was, k, addee, spine);
      count := count + 1;
    }

    method Remove(t: Node, ghost k: nat)
      requires Valid() && k < |Contents()| && Contents()[k] == t
      modifies this, spine
      ensures Valid() && Contents() == old(Contents()[..k] + Contents()[k + 1..])
      ensures t.prev == null && t.next == null
    {
      RemoveNode(t, k + 1);
      count := count - 1;
    }
  }

  /** A node put between the bookends, behind k others. */
  lemma InsertedInside(s: seq<Node>, k: nat, n: Node, s': seq<Node>)
    requires k + 1 < |s| && |s| >= 2 && s' == s[..k + 1] + [n] + s[k + 1..]
    ensures s'[1..|s'| - 1] == s[1..|s| - 1][..k] + [n] + s[1..|s| - 1][k..]
    ensures |s'| == |s| + 1 && s'[0] == s[0] && s'[|s'| - 1] == s[|s| - 1]
    ensures (forall i | 1 <= i < |s| - 1 :: s[i].self.Some?) && n.self.Some? ==>
              forall i | 1 <= i < |s'| - 1 :: s'[i].self.Some?
  {
    var i, end := k + 1, |s| - 1;
    assert s[1..end][..k] == s[1..i] && s[1..end][k..] == s[i..end];
    assert s'[1..end + 1] == s[1..i] + [n] + s[i..end];
    assert forall j | 0 <= j < |s'| :: s'[j] == if j < i then s[j] else if j == i then n else s[j - 1];
  }

  /** A node whose links are clear is on no list: what the assertions before insertion stand for. */
  lemma OffEveryList(n: Node, spine: seq<Node>)
    requires Linked(spine) && n.prev == null && n.next == null
    ensures n !in spine
  {
    forall i | 0 <= i < |spine| ensures spine[i] != n {
      if i == 0 {
        assert spine[0].next == spine[1];
      } else {
        assert spine[i].prev == spine[i - 1];
      }
    }
  }

  /** Two lists that share one node end in the same bookend: following `next` from
      the shared node stays shared until the end of either. */
  lemma SharedNodeSharedTail(s: seq<Node>, t: seq<Node>, i: nat, j: nat)
    requires Linked(s) && Linked(t) && i < |s| && j < |t| && s[i] == t[j]
    ensures s[|s| - 1] == t[|t| - 1]
    decreases |s| - i
  {
    assert i < |s| - 1 ==> s[i].next == s[i + 1];
    assert j < |t| - 1 ==> t[j].next == t[j + 1];
    if i < |s| - 1 {
      SharedNodeSharedTail(s, t, i + 1, j + 1);
    }
  }

  /** A thread is on at most one list at a time. */
  lemma OnOneListOnly(l1: List, l2: List, n: Node)
    requires l1.Valid() && l2.Valid() && l1.tail != l2.tail
    ensures !(n in l1.Contents() && n in l2.Contents())
  {
    if n in l1.Contents() && n in l2.Contents() {
      var i :| 0 <= i < |l1.Contents()| && l1.Contents()[i] == n;
      var j :| 0 <= j < |l2.Contents()| && l2.Contents()[j] == n;
      SharedNodeSharedTail(l1.spine, l2.spine, i + 1, j + 1);
    }
  }
}
