/** The intrusive doubly linked list of src/intrusive_list.h. The links live in the elements;
    each element names the list that owns it. */
module IntrusiveList {
  import opened Sets

  /** A cache line's entry: the list links and the line it stands for. */
  class Entry {
    var next: Entry?
    var prev: Entry?
    var owner: InList?
    const lineId: nat

    constructor (lineId: nat)
      ensures next == null && prev == null && owner == null
      ensures this.lineId == lineId
    {
      next, prev, owner := null, null, null;
      this.lineId := lineId;
    }

    ghost predicate Unlinked()
      reads this
    {
      next == null && prev == null && owner == null
    }
  }

  /** r is s without its element at position k. */
  ghost predicate Dropped<T>(s: seq<T>, k: nat, r: seq<T>)
  {
    && k < |s| && |r| == |s| - 1
    && forall i :: 0 <= i < |r| ==> r[i] == s[if i < k then i else i + 1]
  }

  lemma DropAt<T>(s: seq<T>, k: nat) returns (r: seq<T>)
    requires k < |s| && Distinct(s)
    ensures r == s[..k] + s[k + 1..]
    ensures Dropped(s, k, r) && Distinct(r)
  {
    r := s[..k] + s[k + 1..];
  }

  lemma DropFirst<T>(s: seq<T>) returns (r: seq<T>)
    requires s != [] && Distinct(s)
    ensures r == s[1..] && Dropped(s, 0, r) && Distinct(r)
  {
    r := s[1..];
  }

  lemma DropLast<T>(s: seq<T>) returns (r: seq<T>)
    requires s != [] && Distinct(s)
    ensures r == s[..|s| - 1] && Dropped(s, |s| - 1, r) && Distinct(r)
  {
    r := s[..|s| - 1];
  }

  class InList {
    var head: Entry?
    var tail: Entry?
    var elems: nat

    ghost var nodes: seq<Entry>  // front to back

    ghost predicate Linked(s: seq<Entry>)
      reads s
    {
      && (s != [] ==> s[0].prev == null && s[|s| - 1].next == null)
      && (forall i {:trigger s[i].prev} :: 1 <= i < |s| ==> s[i].prev == s[i - 1])
      && (forall i {:trigger s[i].next} :: 0 <= i < |s| - 1 ==> s[i].next == s[i + 1])
    }

    /** Links, ends, size and ownership all agree with one sequence of distinct elements. */
    ghost predicate Valid()
      reads this, nodes
    {
      && elems == |nodes|
      && head == (if nodes == [] then null else nodes[0])
      && tail == (if nodes == [] then null else nodes[|nodes| - 1])
      && (forall i {:trigger nodes[i].owner} :: 0 <= i < |nodes| ==> nodes[i].owner == this)
      && Linked(nodes)
      && Distinct(nodes)
    }

    constructor ()
      ensures Valid() && nodes == []
    {
      head, tail, elems, nodes := null, null, 0, [];
    }

    method PushFront(e: Entry)
      requires Valid() && e.Unlinked()
      modifies this, nodes`prev, e`next, e`owner
      ensures Valid() && nodes == [e] + old(nodes)
    {
      if head == null {
        head := e;
        tail := e;
      } else {
        e.next := head;
        head.prev := e;
        head := e;
      }
      e.owner := this;
      elems := elems + 1;
      nodes := [e] + nodes;
    }

    method PushBack(e: Entry)
      requires Valid() && e.Unlinked()
      modifies this, nodes`next, e`prev, e`owner
      ensures Valid() && nodes == old(nodes) + [e]
    {
      if head == null {
        head := e;
        tail := e;
        e.owner := this;
      } else {
        tail.next := e;
        e.prev := tail;
        e.owner := this;
        tail := e;
      }
      elems := elems + 1;
      nodes := nodes + [e];
    }

    /** The unlinking common to PopFront, PopBack and Remove (InListNode::unlink). */
    method Unlink(e: Entry, ghost k: nat, ghost rest: seq<Entry>)
      requires k < |nodes| && nodes[k] == e && e.owner == this && Distinct(nodes)
      requires Linked(nodes) && Dropped(nodes, k, rest)
      modifies nodes`prev, nodes`next, e`owner
      ensures e.Unlinked()
      ensures Linked(rest)
    {
      if e.next != null { e.next.prev := e.prev; }
      if e.prev != null { e.prev.next := e.next; }
      e.next := null;
      e.prev := null;
      e.owner := null;
    }

    method PopFront()
      requires Valid()
      modifies this, nodes`prev, nodes`next, (if head == null then {} else {head})`owner
      ensures Valid()
      ensures old(nodes) == [] ==> nodes == []
      ensures old(nodes) != [] ==> nodes == old(nodes)[1..] && old(nodes)[0].Unlinked()
    {
      if head == null { return; }
      ghost var rest := DropFirst(nodes);
      var e := head;
      assert e.next == if rest == [] then null else rest[0];
      head := e.next;
      Unlink(e, 0, rest);
      if head == null { tail := null; }
      elems := elems - 1;
      nodes := rest;
    }

    method PopBack()
      requires Valid()
      modifies this, nodes`prev, nodes`next, (if tail == null then {} else {tail})`owner
      ensures Valid()
      ensures old(nodes) == [] ==> nodes == []
      ensures old(nodes) != [] ==>
        nodes == old(nodes)[..|old(nodes)| - 1] && old(nodes)[|old(nodes)| - 1].Unlinked()
    {
      if head == null { return; }
      ghost var rest := DropLast(nodes);
      var e := tail;
      assert e.prev == if rest == [] then null else rest[|rest| - 1];
      tail := e.prev;
      Unlink(e, |nodes| - 1, rest);
      if tail == null { head := null; }
      elems := elems - 1;
      nodes := rest;
    }

    method Remove(e: Entry, ghost k: nat)
      requires Valid() && k < |nodes| && nodes[k] == e
      modifies this, nodes`prev, nodes`next, e`owner
      ensures Valid() && e.Unlinked()
      ensures nodes == old(nodes)[..k] + old(nodes)[k + 1..]
    {
      ghost var rest := DropAt(nodes, k);
      assert e.prev == if k == 0 then null else nodes[k - 1];
      assert e.next == if k == |nodes| - 1 then null else nodes[k + 1];
      if e == head { head := e.next; }
      if e == tail { tail := e.prev; }
      Unlink(e, k, rest);
      elems := elems - 1;
      nodes := rest;
    }
  }
}
