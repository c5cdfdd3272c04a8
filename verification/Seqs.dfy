/** Sequences as list contents. */
module Seqs {

  ghost predicate Distinct<A>(s: seq<A>) {
    forall i, j :: 0 <= i < j < |s| ==> s[i] != s[j]
  }

  ghost function Members<A>(s: seq<A>): set<A> {
    set a | a in s
  }

  /** s without its first x: what dlinkFindDelete() does to the contents of a list. */
  function Remove<A(==)>(s: seq<A>, x: A): seq<A> {
    if s == [] then [] else if s[0] == x then s[1..] else [s[0]] + Remove(s[1..], x)
  }

  lemma ConsMembers<A>(a: A, s: seq<A>)
    ensures Members([a] + s) == {a} + Members(s)
    ensures Distinct([a] + s) <==> Distinct(s) && a !in Members(s)
  {
    var t := [a] + s;
    assert t[0] == a && t[1..] == s;
    assert forall i :: 0 <= i < |s| ==> s[i] == t[i + 1];
    if Distinct(s) && a !in Members(s) {
      assert forall i :: 0 <= i < |s| ==> s[i] in Members(s);
    }
    if a in Members(s) {
      var i :| 0 <= i < |s| && s[i] == a;
      assert t[i + 1] == t[0];
    }
    if !Distinct(s) {
      var i, j :| 0 <= i < j < |s| && s[i] == s[j];
      assert t[i + 1] == t[j + 1];
    }
  }

  lemma {:induction false} DistinctSize<A>(s: seq<A>)
    requires Distinct(s)
    ensures |Members(s)| == |s|
  {
    if s != [] {
      assert s == [s[0]] + s[1..];
      ConsMembers(s[0], s[1..]);
      DistinctSize(s[1..]);
    }
  }

  lemma {:induction false} RemoveMembers<A>(s: seq<A>, x: A)
    requires Distinct(s)
    ensures Distinct(Remove(s, x)) && Members(Remove(s, x)) == Members(s) - {x}
    ensures x !in s ==> Remove(s, x) == s
  {
    if s != [] {
      var t := s[1..];
      assert s == [s[0]] + t;
      ConsMembers(s[0], t);
      RemoveMembers(t, x);
      if s[0] != x {
        ConsMembers(s[0], Remove(t, x));
      }
    }
  }

  /** Two sets that differ at most in x differ in size by whether each holds x. */
  lemma CountChange<A>(s: set<A>, t: set<A>, x: A)
    requires s - {x} == t - {x}
    ensures |t| - |s| == (if x in t then 1 else 0) - (if x in s then 1 else 0)
  {
    assert s == if x in s then (s - {x}) + {x} else s - {x};
    assert t == if x in t then (s - {x}) + {x} else s - {x};
  }

  lemma DifferenceSize<A>(s: set<A>, t: set<A>)
    ensures |s - t| == |s| <==> s !! t
  {
    assert s == (s - t) + s * t;
    if s !! t {
      assert s - t == s;
    }
  }

  /** s without its first element that satisfies p. */
  function RemoveFirst<A>(p: A -> bool, s: seq<A>): seq<A> {
    if s == [] then [] else if p(s[0]) then s[1..] else [s[0]] + RemoveFirst(p, s[1..])
  }

  lemma {:induction false} RemoveFirstAt<A>(p: A -> bool, s: seq<A>, k: nat)
    requires k < |s| && p(s[k]) && forall j :: 0 <= j < k ==> !p(s[j])
    ensures RemoveFirst(p, s) == s[..k] + s[k + 1..]
  {
    if k > 0 {
      RemoveFirstAt(p, s[1..], k - 1);
      assert s[..k] == [s[0]] + s[1..][..k - 1];
      assert s[k + 1..] == s[1..][k..];
    }
  }

  lemma {:induction false} RemoveFirstNone<A>(p: A -> bool, s: seq<A>)
    requires forall j :: 0 <= j < |s| ==> !p(s[j])
    ensures RemoveFirst(p, s) == s
  {
    if s != [] {
      RemoveFirstNone(p, s[1..]);
    }
  }

  lemma Regroup<A>(a: seq<A>, b: seq<A>, c: seq<A>)
    ensures a + (b + c) == a + b + c
  {
  }

  lemma SubsetSize<A>(s: set<A>, t: set<A>)
    requires s <= t
    ensures |s| <= |t| && (|s| == |t| ==> s == t)
  {
    assert t == s + (t - s);
  }

  predicate Listed<A(==)>(list: seq<A>, x: A) {
    x in list
  }

  lemma RemoveIsExact<A>(list: seq<A>, x: A)
    requires Distinct(list)
    ensures Distinct(Remove(list, x)) && |Remove(list, x)| <= |list|
    ensures forall y :: Listed(Remove(list, x), y) <==> Listed(list, y) && y != x
  {
    RemoveMembers(list, x);
    RemoveShortens(list, x);
    assert forall y :: y in Remove(list, x) <==> y in Members(Remove(list, x));
    assert forall y :: y in list <==> y in Members(list);
  }

  lemma {:induction false} RemoveShortens<A>(list: seq<A>, x: A)
    ensures |Remove(list, x)| <= |list|
  {
    if list != [] {
      RemoveShortens(list[1..], x);
    }
  }
}
