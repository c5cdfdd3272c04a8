/** The intrusive doubly linked lists of include/tools.h.

    A list is a record of head, tail and length; the nodes are allocated by the callers and
    hold a data pointer.  `nodes` is the ghost sequence of the nodes from head to tail: every
    operation is proved to refine an operation on that sequence. */
module Dlink {
  import opened Seqs

  class Node<T> {
    var data: T
    var prev: Node?<T>
    var next: Node?<T>

    /** make_dlink_node(): a node that is in no list. */
    constructor (data: T)
      ensures this.data == data && prev == null && next == null
    {
      this.data := data;
      prev, next := null, null;
    }
  }

  /** s without its element at index k. */
  ghost function Without<A>(s: seq<A>, k: nat): (r: seq<A>)
    requires k < |s|
    ensures |r| == |s| - 1
    ensures forall i :: 0 <= i < k ==> r[i] == s[i]
    ensures forall i :: k <= i < |r| ==> r[i] == s[i + 1]
  {
    s[..k] + s[k + 1..]
  }

  lemma WithoutMembers<A>(s: seq<A>, k: nat)
    requires Distinct(s) && k < |s|
    ensures Distinct(Without(s, k))
    ensures forall x :: x in Without(s, k) <==> x in s && x != s[k]
  {
    var r := Without(s, k);
    forall x | x in s && x != s[k]
      ensures x in r
    {
      var i :| 0 <= i < |s| && s[i] == x;
      if i < k {
        assert r[i] == x;
      } else {
        assert r[i - 1] == x;
      }
    }
  }

  lemma DistinctConcat<A>(s: seq<A>, t: seq<A>)
    requires Distinct(s) && Distinct(t)
    requires forall x :: x in s ==> x !in t
    ensures Distinct(s + t)
  {
    forall i, j | 0 <= i < j < |s + t|
      ensures (s + t)[i] != (s + t)[j]
    {
      if i < |s| <= j {
        assert s[i] in s;
      }
    }
  }

  /** The data of a sequence of nodes, in order. */
  ghost function DataOf<T>(ns: seq<Node<T>>): (r: seq<T>)
    reads ns
    ensures |r| == |ns|
    ensures forall i :: 0 <= i < |r| ==> r[i] == ns[i].data
  {
    seq(|ns|, i requires 0 <= i < |ns| reads ns => ns[i].data)
  }

  class List<T(==)> {
    var head: Node?<T>
    var tail: Node?<T>
    var length: nat
    ghost var nodes: seq<Node<T>>

    /** head and tail are the ends of `nodes`, prev and next walk it in both directions, and
        length counts it. */
    ghost predicate Valid()
      reads this, nodes
    {
      && length == |nodes|
      && (nodes == [] ==> head == null && tail == null)
      && (nodes != [] ==> head == nodes[0] && tail == nodes[|nodes| - 1])
      && (nodes != [] ==> nodes[0].prev == null && nodes[|nodes| - 1].next == null)
      && (forall i {:trigger nodes[i].prev} :: 1 <= i < |nodes| ==> nodes[i].prev == nodes[i - 1])
      && (forall i {:trigger nodes[i].next} :: 0 <= i < |nodes| - 1 ==> nodes[i].next == nodes[i + 1])
      && Distinct(nodes)
    }

    ghost function Data(): (r: seq<T>)
      reads this, nodes
      ensures |r| == |nodes|
      ensures forall i :: 0 <= i < |r| ==> r[i] == nodes[i].data
    {
      DataOf(nodes)
    }

    constructor ()
      ensures Valid() && nodes == []
    {
      head, tail, length, nodes := null, null, 0, [];
    }

    method Add(data: T, m: Node<T>)
      requires Valid() && m !in nodes
      modifies this, if nodes != [] then {nodes[0]} else {}, m
      ensures Valid() && nodes == [m] + old(nodes)
      ensures m.data == data && forall n :: n in old(nodes) ==> n.data == old(n.data)
      ensures Data() == [data] + old(Data())
    {
      m.data := data;
      m.prev := null;
      m.next := head;
      if head != null {
        head.prev := m;
      } else if tail == null {
        tail := m;
      }
      head := m;
      length := length + 1;
      nodes := [m] + nodes;
    }

    method AddTail(data: T, m: Node<T>)
      requires Valid() && m !in nodes
      modifies this, if nodes != [] then {nodes[|nodes| - 1]} else {}, m
      ensures Valid() && nodes == old(nodes) + [m]
      ensures m.data == data && forall n :: n in old(nodes) ==> n.data == old(n.data)
      ensures Data() == old(Data()) + [data]
    {
      m.data := data;
      m.next := null;
      m.prev := tail;
      if tail != null {
        tail.next := m;
      } else if head == null {
        head := m;
      }
      tail := m;
      length := length + 1;
      nodes := nodes + [m];
    }

    method AddBefore(b: Node<T>, data: T, m: Node<T>, ghost k: nat)
      requires Valid() && m !in nodes && k < |nodes| && nodes[k] == b
      modifies this, nodes, m
      ensures Valid() && nodes == old(nodes)[..k] + [m] + old(nodes)[k..]
      ensures m.data == data && forall n :: n in old(nodes) ==> n.data == old(n.data)
    {
      if b == head {
        assert k == 0;
        Add(data, m);
        assert nodes == old(nodes)[..k] + [m] + old(nodes)[k..];
      } else {
        assert b.prev == nodes[k - 1];
        m.data := data;
        b.prev.next := m;
        m.prev := b.prev;
        b.prev := m;
        m.next := b;
        length := length + 1;
        nodes := nodes[..k] + [m] + nodes[k..];
        assert nodes[k] == m && nodes[k + 1] == b;
      }
    }

    method Delete(m: Node<T>, ghost k: nat)
      requires Valid() && k < |nodes| && nodes[k] == m
      modifies this, nodes
      ensures Valid() && nodes == Without(old(nodes), k)
      ensures m.next == null && m.prev == null
      ensures forall n :: n in old(nodes) ==> n.data == old(n.data)
      ensures Data() == Without(old(Data()), k)
    {
      WithoutMembers(nodes, k);
      Unlink(m, k);
      length := length - 1;
      nodes := Without(nodes, k);
    }

    /** The pointer updates of a deletion. */
    method Unlink(m: Node<T>, ghost k: nat)
      requires Valid() && k < |nodes| && nodes[k] == m
      modifies this`head, this`tail, nodes
      ensures m.next == null && m.prev == null
      ensures forall n :: n in nodes ==> n.data == old(n.data)
      ensures
        var rest := Without(nodes, k);
        && (if rest == [] then head == null && tail == null
            else head == rest[0] && tail == rest[|rest| - 1] && head.prev == null && tail.next == null)
        && (forall i {:trigger rest[i].prev} :: 1 <= i < |rest| ==> rest[i].prev == rest[i - 1])
        && (forall i {:trigger rest[i].next} :: 0 <= i < |rest| - 1 ==> rest[i].next == rest[i + 1])
    {
      if m.next != null {
        assert k < |nodes| - 1;
        m.next.prev := m.prev;
      } else {
        assert tail == m;
        tail := m.prev;
      }
      if m.prev != null {
        assert k > 0;
        m.prev.next := m.next;
      } else {
        assert head == m;
        head := m.next;
      }
      m.next, m.prev := null, null;
    }

    /** The first node that holds `data`, or null when none does. */
    method Find(data: T) returns (p: Node?<T>, ghost k: nat)
      requires Valid()
      ensures k <= |nodes| && data !in Data()[..k]
      ensures p == null <==> k == |nodes|
      ensures p != null ==> nodes[k] == p && p.data == data
    {
      p, k := head, 0;
      while p != null
        invariant k <= |nodes|
        invariant p == if k < |nodes| then nodes[k] else null
        invariant data !in Data()[..k]
        decreases |nodes| - k
      {
        if p.data == data {
          return;
        }
        p := p.next;
        k := k + 1;
      }
    }

    /** Unlinks the first node that holds `data` and returns it. */
    method FindDelete(data: T) returns (m: Node?<T>, ghost k: nat)
      requires Valid()
      modifies this, nodes
      ensures Valid() && k <= old(|nodes|) && data !in old(Data())[..k]
      ensures forall n :: n in old(nodes) ==> n.data == old(n.data)
      ensures m == null <==> k == old(|nodes|)
      ensures m == null ==> nodes == old(nodes) && Data() == old(Data())
      ensures m != null ==> old(nodes)[k] == m && m.data == data && m.next == null && m.prev == null
      ensures m != null ==> nodes == Without(old(nodes), k) && Data() == Without(old(Data()), k)
    {
      m, k := Find(data);
      if m != null {
        Delete(m, k);
      }
    }

    /** Moves all nodes of `from` in front of this list. */
    method MoveFrom(from: List<T>)
      requires from != this && Valid() && from.Valid()
      requires forall n :: n in from.nodes ==> n !in nodes
      modifies this, from, nodes, from.nodes
      ensures Valid() && from.Valid()
      ensures nodes == old(from.nodes) + old(nodes) && from.nodes == []
      ensures forall n :: n in nodes ==> n.data == old(n.data)
    {
      if from.head == null {
        return;
      }
      if head == null {
        head, tail := from.head, from.tail;
        from.head, from.tail := null, null;
        length := from.length;
        from.length := 0;
        nodes, from.nodes := from.nodes, [];
        assert Valid();
        return;
      }
      ghost var all, n := from.nodes + nodes, |from.nodes|;
      DistinctConcat(from.nodes, nodes);
      assert all[0] == from.head && all[n - 1] == from.tail && all[n] == head && all[|all| - 1] == tail;
      from.tail.next := head;
      from.head.prev := head.prev;
      head.prev := from.tail;
      assert all[0].prev == null && all[|all| - 1].next == null;
      assert forall i {:trigger all[i].prev} :: 1 <= i < |all| ==> all[i].prev == all[i - 1];
      assert forall i {:trigger all[i].next} :: 0 <= i < |all| - 1 ==> all[i].next == all[i + 1];
      head := from.head;
      from.head, from.tail := null, null;
      length := length + from.length;
      from.length := 0;
      nodes, from.nodes := all, [];
    }
  }
}
