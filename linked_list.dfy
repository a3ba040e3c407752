/**
 * A singly linked list with a head node and a tail node (src/linked-list.js).
 *
 * The list's abstract value is the ghost sequence `contents`; the ghost
 * sequence `nodes` lists the chain of nodes reachable from `head`, in order,
 * so that `nodes[i].data == contents[i]`. `Valid()` is the structural
 * invariant: `tail` is null exactly when `head` is, and otherwise `tail` is
 * the last node of the chain and has no successor.
 */
module LinkedLists {

  /** The JavaScript `undefined` an accessor returns on an empty list is `None`. */
  datatype Option<T> = None | Some(value: T)

  /**
   * The position of the first element of `s` that satisfies `p`, scanning
   * from the front, or `None` when no element does.
   */
  function FirstMatch<T>(s: seq<T>, p: T -> bool): (r: Option<nat>)
    ensures r.None? <==> forall i :: 0 <= i < |s| ==> !p(s[i])
    ensures r.Some? ==> r.value < |s| && p(s[r.value])
    ensures r.Some? ==> forall i :: 0 <= i < r.value ==> !p(s[i])
  {
    if s == [] then None
    else if p(s[0]) then Some(0)
    else match FirstMatch(s[1..], p)
      case None => None
      case Some(k) => Some(k + 1)
  }

  /** A node holds one payload and a link to its successor, if any. */
  class Node<T> {
    var data: T
    var next: Node?<T>

    constructor (data: T)
      ensures this.data == data && next == null
    {
      this.data := data;
      this.next := null;
    }
  }

  class LinkedList<T> {
    var head: Node?<T>
    var tail: Node?<T>

    ghost var contents: seq<T>
    ghost var nodes: seq<Node<T>>
    ghost var Repr: set<object>

    /**
     * The chain from `head` is exactly `nodes`, without repetition, its last
     * node has no successor and is `tail`, and the payloads are `contents`.
     */
    ghost predicate Valid()
      reads this, Repr
      ensures Valid() ==> this in Repr
      ensures Valid() ==> (head == null <==> tail == null)
      ensures Valid() && tail != null ==> tail.next == null
    {
      this in Repr &&
      (forall i :: 0 <= i < |nodes| ==> nodes[i] in Repr) &&
      |nodes| == |contents| &&
      (forall i, j :: 0 <= i < j < |nodes| ==> nodes[i] != nodes[j]) &&
      (forall i :: 0 <= i < |nodes| ==> nodes[i].data == contents[i]) &&
      (forall i :: 0 <= i < |nodes| - 1 ==> nodes[i].next == nodes[i + 1]) &&
      if |nodes| == 0 then head == null && tail == null
      else head == nodes[0] && tail == nodes[|nodes| - 1] && tail.next == null
    }

    constructor ()
      ensures Valid() && fresh(Repr)
      ensures contents == [] && head == null && tail == null
    {
      head := null;
      tail := null;
      contents := [];
      nodes := [];
      Repr := {this};
    }

    /** Adds `d` at the end of the list. */
    method Append(d: T)
      requires Valid()
      modifies Repr
      ensures Valid() && fresh(Repr - old(Repr))
      ensures contents == old(contents) + [d]
      ensures tail != null && fresh(tail) && tail.data == d
      ensures nodes == old(nodes) + [tail]
      ensures old(head) == null ==> head == tail
      ensures old(head) != null ==> head == old(head)
    {
      var newNode := new Node(d);
      if head == null {
        head := newNode;
        tail := newNode;
        contents, nodes, Repr := [d], [newNode], Repr + {newNode};
        return;
      }
      tail.next := newNode;
      tail := newNode;
      contents, nodes, Repr := contents + [d], nodes + [newNode], Repr + {newNode};
    }

    /** Adds `d` at the front of the list. */
    method Prepend(d: T)
      requires Valid()
      modifies Repr
      ensures Valid() && fresh(Repr - old(Repr))
      ensures contents == [d] + old(contents)
      ensures head != null && fresh(head) && head.data == d
      ensures nodes == [head] + old(nodes)
      ensures old(tail) == null ==> tail == head
      ensures old(tail) != null ==> tail == old(tail)
    {
      var newNode := new Node(d);
      if head != null {
        newNode.next := head;
      }
      head := newNode;
      if tail == null {
        tail := newNode;
      }
      contents, nodes, Repr := [d] + contents, [newNode] + nodes, Repr + {newNode};
    }

    /** Counts the nodes by walking the chain from `head`. */
    method Size() returns (count: nat)
      requires Valid()
      ensures count == |contents|
    {
      count := 0;
      var current := head;
      while current != null
        invariant count <= |nodes|
        invariant current == if count < |nodes| then nodes[count] else null
        decreases |nodes| - count
      {
        count := count + 1;
        current := current.next;
      }
    }

    /**
     * The payload of the first node. In the source this accessor is named
     * `head` and is shadowed by the field of the same name.
     */
    function FirstData(): (r: Option<T>)
      reads this, Repr
      requires Valid()
      ensures r == if contents == [] then None else Some(contents[0])
    {
      if head != null then Some(head.data) else None
    }

    /**
     * The payload of the last node. In the source this accessor is named
     * `tail` and is shadowed by the field of the same name.
     */
    function LastData(): (r: Option<T>)
      reads this, Repr
      requires Valid()
      ensures r == if contents == [] then None else Some(contents[|contents| - 1])
    {
      if tail != null then Some(tail.data) else None
    }

    /** Unlinks the first node and returns its payload; `None` on an empty list. */
    method Pop() returns (r: Option<T>)
      requires Valid()
      modifies this
      ensures Valid() && Repr == old(Repr)
      ensures old(contents) == [] ==> r == None && unchanged(this)
      ensures old(contents) != [] ==>
        r == Some(old(contents)[0]) && contents == old(contents)[1..] &&
        nodes == old(nodes)[1..]
      ensures contents == [] ==> head == null && tail == null
      ensures contents != [] ==> tail == old(tail)
    {
      if head == null {
        return None;
      }
      var data := head.data;
      head := head.next;
      if head == null {
        tail := null;
      }
      contents, nodes := contents[1..], nodes[1..];
      return Some(data);
    }

    /**
     * Unlinks the first node whose payload satisfies `p` and reports whether
     * one was found; `tail` is repaired when the unlinked node was the last.
     */
    method Remove(p: T -> bool) returns (removed: bool)
      requires Valid()
      modifies Repr
      ensures Valid() && Repr == old(Repr)
      ensures removed <==> FirstMatch(old(contents), p).Some?
      ensures !removed ==> contents == old(contents) && unchanged(Repr)
      ensures removed ==>
        var k := FirstMatch(old(contents), p).value;
        contents == old(contents)[..k] + old(contents)[k + 1..] &&
        nodes == old(nodes)[..k] + old(nodes)[k + 1..] &&
        (|old(nodes)| == 1 ==> head == null && tail == null) &&
        (0 < k == |old(nodes)| - 1 ==> tail == old(nodes)[k - 1]) &&
        (k < |old(nodes)| - 1 ==> tail == old(tail))
    {
      if head == null {
        return false;
      }
      if p(head.data) {
        assert FirstMatch(contents, p) == Some(0);
        assert contents[..0] + contents[1..] == contents[1..];
        assert nodes[..0] + nodes[1..] == nodes[1..];
        UnlinkHead();
        return true;
      }
      removed := RemoveAfterHead(p);
    }

    /**
     * The scan of `Remove` past a head that does not match: walks from the
     * head to the node whose successor is the first to satisfy `p`, and
     * unlinks that successor. The source's loop returns from inside; this
     * one stops at that node and unlinks after the loop.
     */
    method RemoveAfterHead(p: T -> bool) returns (removed: bool)
      requires Valid() && contents != [] && !p(contents[0])
      modifies Repr
      ensures Valid() && Repr == old(Repr)
      ensures removed <==> FirstMatch(old(contents), p).Some?
      ensures !removed ==> contents == old(contents) && unchanged(Repr)
      ensures removed ==>
        var k := FirstMatch(old(contents), p).value;
        0 < k &&
        contents == old(contents)[..k] + old(contents)[k + 1..] &&
        nodes == old(nodes)[..k] + old(nodes)[k + 1..] &&
        (k == |old(nodes)| - 1 ==> tail == old(nodes)[k - 1]) &&
        (k < |old(nodes)| - 1 ==> tail == old(tail))
    {
      var current := head;
      ghost var i := 0;
      while current.next != null && !p(current.next.data)
        invariant i < |nodes|
        invariant current == nodes[i]
        invariant current.next == if i + 1 < |nodes| then nodes[i + 1] else null
        invariant forall j :: 0 <= j <= i ==> !p(contents[j])
        decreases |nodes| - i
      {
        current := current.next;
        i := i + 1;
      }
      if current.next == null {
        assert FirstMatch(contents, p) == None;
        return false;
      }
      assert FirstMatch(contents, p) == Some(i + 1);
      UnlinkAfter(current, i + 1);
      return true;
    }

    /**
     * The head case of `Remove`: the successor of the head becomes the head,
     * and `tail` is cleared when no successor exists.
     */
    method UnlinkHead()
      requires Valid() && head != null
      modifies this
      ensures Valid() && Repr == old(Repr)
      ensures contents == old(contents)[1..] && nodes == old(nodes)[1..]
      ensures |old(nodes)| == 1 ==> head == null && tail == null
      ensures |old(nodes)| > 1 ==> tail == old(tail)
    {
      head := head.next;
      tail := if head != null then tail else null;
      contents, nodes := contents[1..], nodes[1..];
    }

    /**
     * The unlinking step of `Remove`: skips the successor of `prev`, the
     * node at position `k`, and makes `prev` the tail when that successor
     * was the tail.
     */
    method UnlinkAfter(prev: Node<T>, ghost k: nat)
      requires Valid() && 0 < k < |nodes| && prev == nodes[k - 1]
      modifies Repr
      ensures Valid() && Repr == old(Repr)
      ensures contents == old(contents)[..k] + old(contents)[k + 1..]
      ensures nodes == old(nodes)[..k] + old(nodes)[k + 1..]
      ensures head == old(head)
      ensures k == |old(nodes)| - 1 ==> tail == old(nodes)[k - 1]
      ensures k < |old(nodes)| - 1 ==> tail == old(tail)
    {
      ghost var n := |nodes|;
      assert prev.next == nodes[k];
      // The successor is the tail exactly when it is the last node.
      assert prev.next == tail <==> k == n - 1;
      if prev.next == tail {
        tail := prev;
      }
      prev.next := prev.next.next;
      contents := contents[..k] + contents[k + 1..];
      nodes := nodes[..k] + nodes[k + 1..];
    }

    /**
     * The forward traversal of the source's iterator, collecting the payload
     * of each node from `head` to `tail`.
     */
    method Items() returns (xs: seq<T>)
      requires Valid()
      ensures xs == contents
    {
      xs := [];
      var current := head;
      while current != null
        invariant |xs| <= |nodes|
        invariant xs == contents[..|xs|]
        invariant current == if |xs| < |nodes| then nodes[|xs|] else null
        decreases |nodes| - |xs|
      {
        xs := xs + [current.data];
        current := current.next;
      }
    }
  }
}
