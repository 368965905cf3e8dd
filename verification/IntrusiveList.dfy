/** The doubly linked list that holds buckets and peers, on the heap.  Each operation is proved to be
    the corresponding operation on the sequence of the list's nodes. */
module IntrusiveList {
  import opened Records

  /** `struct list_node` */
  class Node {
    var prev: Node?
    var next: Node?

    constructor ()
      ensures prev == null && next == null
    {
      prev, next := null, null;
    }
  }

  /** The node at position `i`, null outside the list. */
  function At(ns: seq<Node>, i: int): Node? {
    if 0 <= i < |ns| then ns[i] else null
  }

  /** Node `i` points at its neighbours. */
  ghost predicate LinkedAt(ns: seq<Node>, i: nat)
    requires i < |ns|
    reads ns
  {
    ns[i].prev == At(ns, i - 1) && ns[i].next == At(ns, i + 1)
  }

  /** `struct list` */
  class List {
    var count: int
    var first: Node?
    var last: Node?
    ghost var nodes: seq<Node>

    /** The links spell out `nodes`, forwards and backwards, and the nodes are distinct. */
    ghost predicate Valid()
      reads this, nodes
    {
      && count == |nodes|
      && first == (if nodes == [] then null else nodes[0])
      && last == (if nodes == [] then null else nodes[|nodes| - 1])
      && (forall i, j :: 0 <= i < j < |nodes| ==> nodes[i] != nodes[j])
      && (forall i :: 0 <= i < |nodes| ==> LinkedAt(nodes, i))
    }

    /** `EMPTY_LIST_INITIALIZER` */
    constructor ()
      ensures Valid() && nodes == []
    {
      count, first, last, nodes := 0, null, null, [];
    }

    /** `list_append` */
    method Append(n: Node)
      requires Valid() && n !in nodes
      modifies this, nodes, n
      ensures Valid() && nodes == old(nodes) + [n]
    {
      ghost var m := |nodes|;
      assert m > 0 ==> LinkedAt(nodes, m - 1);
      var tail := last;
      if tail != null {
        tail.next := n;
      }
      n.prev := tail;
      n.next := null;
      if count == 0 {
        first := n;
      }
      last := n;
      count := count + 1;
      nodes := nodes + [n];
      forall i | 0 <= i < |nodes|
        ensures LinkedAt(nodes, i)
      {
        assert i < m ==> old(LinkedAt(nodes, i));
      }
    }

    /** `list_remove`, of the node at position `k` */
    method Remove(n: Node, ghost k: nat)
      requires Valid() && k < |nodes| && nodes[k] == n
      modifies this, nodes
      ensures Valid() && nodes == old(nodes)[..k] + old(nodes)[k + 1..]
      ensures n !in nodes && n.prev == null && n.next == null
    {
      assert LinkedAt(nodes, k);
      if n.prev != null {
        n.prev.next := n.next;
      } else {
        first := n.next;
      }
      if n.next != null {
        n.next.prev := n.prev;
      } else {
        last := n.prev;
      }
      n.prev := null;
      n.next := null;
      count := count - 1;
      nodes := nodes[..k] + nodes[k + 1..];
      forall i | 0 <= i < |nodes|
        ensures LinkedAt(nodes, i)
      {
        assert old(LinkedAt(nodes, if i < k then i else i + 1));
      }
    }

    /** `list_pop_head` */
    method PopHead() returns (n: Node?)
      requires Valid()
      modifies this, nodes
      ensures Valid()
      ensures old(nodes) == [] ==> n == null && nodes == []
      ensures old(nodes) != [] ==>
        n == old(nodes)[0] && nodes == old(nodes)[1..] && n.prev == null && n.next == null
    {
      n := first;
      if n == null {
        return;
      }
      assert LinkedAt(nodes, 0);
      first := n.next;
      if first != null {
        first.prev := null;
      }
      count := count - 1;
      if count == 1 || count == 0 {
        last := first;
      }
      n.prev := null;
      n.next := null;
      nodes := nodes[1..];
      forall i | 0 <= i < |nodes|
        ensures LinkedAt(nodes, i)
      {
        assert old(LinkedAt(nodes, i + 1));
      }
    }

    /** `list_insert_before`, before the node at position `k` */
    method InsertBefore(n: Node, inserted: Node, ghost k: nat)
      requires Valid() && k < |nodes| && nodes[k] == n && inserted !in nodes
      modifies this, nodes, inserted
      ensures Valid() && nodes == old(nodes)[..k] + [inserted] + old(nodes)[k..]
    {
      assert LinkedAt(nodes, k);
      inserted.prev := n.prev;
      inserted.next := n;
      if n.prev != null {
        n.prev.next := inserted;
      } else {
        first := inserted;
      }
      n.prev := inserted;
      count := count + 1;
      nodes := nodes[..k] + [inserted] + nodes[k..];
      forall i | 0 <= i < |nodes|
        ensures LinkedAt(nodes, i)
      {
        assert i != k ==> old(LinkedAt(nodes, if i < k then i else i - 1));
      }
    }

    /** `list_empty`: it terminates, and unlinks every node. */
    method Empty()
      requires Valid()
      modifies this, nodes
      ensures Valid() && nodes == []
      ensures forall n :: n in old(nodes) ==> n.prev == null && n.next == null
    {
      ghost var all := nodes;
      while count > 0
        invariant Valid() && |nodes| <= |all| && nodes == all[|all| - |nodes|..]
        invariant forall i :: 0 <= i < |all| - |nodes| ==> all[i].prev == null && all[i].next == null
        decreases |nodes|
      {
        var _ := PopHead();
      }
    }

    /** `list_foreach_entry`: starting from the node at position `k`, it visits that node and all
        those after it, once each and in order. */
    method Foreach(start: Node, ghost k: nat) returns (visited: seq<Node>)
      requires Valid() && k < |nodes| && nodes[k] == start
      ensures visited == nodes[k..]
    {
      visited := [];
      var pos: Node? := start;
      while pos != null
        invariant k + |visited| <= |nodes| && visited == nodes[k..k + |visited|]
        invariant pos == if k + |visited| == |nodes| then null else nodes[k + |visited|]
        decreases |nodes| - |visited|
      {
        assert LinkedAt(nodes, k + |visited|);
        visited := visited + [pos];
        pos := pos.next;
      }
    }
  }

  // ---------------------------------------------------------------- the records that embed the nodes

  /** What follows `x` in a sequence of records, if anything does. */
  function After<T(==)>(entries: seq<T>, x: T): Option<T> {
    if |entries| <= 1 then None
    else if entries[0] == x then Some(entries[1])
    else After(entries[1..], x)
  }

  /** The sequence without the first occurrence of `x`. */
  function Without<T(==)>(entries: seq<T>, x: T): seq<T> {
    if entries == [] then []
    else if entries[0] == x then entries[1..]
    else [entries[0]] + Without(entries[1..], x)
  }

  ghost predicate Distinct<T>(entries: seq<T>) {
    forall i, j :: 0 <= i < j < |entries| ==> entries[i] != entries[j]
  }

  lemma {:induction false} AfterAt<T>(entries: seq<T>, k: nat)
    requires k < |entries| && Distinct(entries)
    ensures After(entries, entries[k]) == if k + 1 < |entries| then Some(entries[k + 1]) else None
  {
    if k > 0 {
      AfterAt(entries[1..], k - 1);
    }
  }

  lemma {:induction false} WithoutAt<T>(entries: seq<T>, k: nat)
    requires k < |entries| && Distinct(entries)
    ensures Without(entries, entries[k]) == entries[..k] + entries[k + 1..]
  {
    if k > 0 {
      WithoutAt(entries[1..], k - 1);
      assert entries[..k] == [entries[0]] + entries[1..][..k - 1];
      assert entries[k + 1..] == entries[1..][k..];
    }
  }

  /** `list_entry`: `owner` says which record embeds each node; the list holds `entries`. */
  ghost predicate Embeds<T>(l: List, entries: seq<T>, owner: map<Node, T>)
    reads l
  {
    Owns(l.nodes, entries, owner)
  }

  ghost predicate Owns<T>(nodes: seq<Node>, entries: seq<T>, owner: map<Node, T>) {
    && |entries| == |nodes|
    && forall i :: 0 <= i < |entries| ==> nodes[i] in owner && owner[nodes[i]] == entries[i]
  }

  lemma OwnsWithout<T>(nodes: seq<Node>, entries: seq<T>, owner: map<Node, T>, k: nat)
    requires Owns(nodes, entries, owner) && Distinct(entries) && k < |entries|
    ensures Owns(nodes[..k] + nodes[k + 1..], Without(entries, entries[k]), owner)
  {
    WithoutAt(entries, k);
  }

  /** Appending a record's node appends the record. */
  method AppendEntry<T>(l: List, n: Node, ghost e: T, ghost entries: seq<T>, ghost owner: map<Node, T>)
    requires l.Valid() && Embeds(l, entries, owner) && n !in l.nodes
    modifies l, l.nodes, n
    ensures l.Valid() && Embeds(l, entries + [e], owner[n := e])
  {
    l.Append(n);
  }

  /** Removing a record's node removes that record and leaves the others in order. */
  method RemoveEntry<T(==)>(l: List, n: Node, ghost k: nat, ghost entries: seq<T>, ghost owner: map<Node, T>)
    requires l.Valid() && Embeds(l, entries, owner) && Distinct(entries) && k < |entries| && l.nodes[k] == n
    modifies l, l.nodes
    ensures l.Valid() && Embeds(l, Without(entries, entries[k]), owner)
  {
    OwnsWithout(l.nodes, entries, owner, k);
    l.Remove(n, k);
  }

  /** Following a record's link leads to the record that comes after it. */
  method NextEntry<T(==)>(l: List, n: Node, ghost k: nat, ghost entries: seq<T>, ghost owner: map<Node, T>)
    returns (next: Node?)
    requires l.Valid() && Embeds(l, entries, owner) && Distinct(entries) && k < |entries| && l.nodes[k] == n
    ensures next == null <==> After(entries, entries[k]).None?
    ensures next != null ==> next in owner && Some(owner[next]) == After(entries, entries[k])
  {
    AfterAt(entries, k);
    assert LinkedAt(l.nodes, k);
    next := n.next;
  }
}
