/** What the flood of GLINE lines leaves behind when nothing is in flight any more
    (modules/m_gline.c:149-212, src/s_conf.c:3301-3504). */
module FloodOutcome {
  import opened Options
  import opened Masks
  import opened Gline
  import opened GlineNet
  import opened Flood

  /** Of two masks of which one names the other, a server that takes both has no neighbour that takes only one. */
  ghost predicate TakenAlike(net: Network, masks: set<Mask>) {
    forall s: Peer, t: Peer, m, n :: m in masks && n in masks && Matching(m, n) ==> TakenAlikeOver(net, s, t, m, n)
  }

  ghost predicate TakenAlikeOver(net: Network, s: Peer, t: Peer, m: Mask, n: Mask) {
    Takes(net, s, m) && Takes(net, s, n) && Linked(net, s, t) ==> (Takes(net, t, m) <==> Takes(net, t, n))
  }

  /** Where s misreads a mask of its neighbour t as r, and t would take r: either t reads the split form, or s takes
      the mask itself, so that t gets it back from s and misreads it likewise. */
  ghost predicate Echoed(net: Network, masks: set<Mask>) {
    forall s: Peer, t: Peer, m :: s < |net.servers| && t < |net.servers| && m in masks ==> EchoedOver(net, s, t, m)
  }

  ghost predicate EchoedOver(net: Network, s: Peer, t: Peer, m: Mask)
    requires s < |net.servers| && t < |net.servers|
  {
    var r := Reading(net, s, Split, m);
    Linked(net, t, s) && Linked(net, s, t) && Takes(net, t, m) && r.Some? && r.value != m && Takes(net, t, r.value) ==>
      Reading(net, t, Split, r.value) == r || (Takes(net, s, m) && Reading(net, t, Split, m) == r)
  }

  ghost predicate Over(st: State) {
    st.flight == multiset{}
  }

  lemma HeardThrough(m: Mask, n: Mask, table: seq<Mask>)
    requires Matching(m, n) && Heard(n, table)
    ensures Found(m, table)
  {
    if n in table {
      var i :| 0 <= i < |table| && table[i] == n;
    } else {
      var i :| 0 <= i < |table| && Matching(n, table[i]);
      MatchingTransitive(m, n, table[i]);
    }
  }

  /** What has been heard was placed, or an entry that it names was. */
  lemma PlacedFor(net: Network, masks: set<Mask>, st: State, s: Peer, m: Mask) returns (k: nat)
    requires Within(net, masks, st) && Logged(net, st) && s < |net.servers| && Heard(m, st.tables[s])
    ensures k < |st.log| && st.log[k] != [] && Last(st.log[k]).at == s && Last(st.log[k]).mask in masks
    ensures Last(st.log[k]).mask == m || Matching(m, Last(st.log[k]).mask)
  {
    var i :| 0 <= i < |st.tables[s]| && (st.tables[s][i] == m || Matching(m, st.tables[s][i]));
    assert HasTrail(st, s, st.tables[s][i]);
    k :| 0 <= k < |st.log| && st.log[k] != [] && Last(st.log[k]) == Hold(s, st.tables[s][i]);
  }

  /** What a server has heard, its neighbours have as they read it in the split form. */
  lemma SplitIsHeard(net: Network, masks: set<Mask>, st: State, s: Peer, t: Peer, m: Mask)
    requires WellFormedNet(net) && ClosedMasks(net, masks) && TakenAlike(net, masks) && Invariant(net, masks, st) && Over(st)
    requires Linked(net, s, t) && s < |net.servers| && t < |net.servers| && m in masks && Heard(m, st.tables[s])
    requires Takes(net, s, m) && Reading(net, t, Split, m).Some?
    ensures Heard(Reading(net, t, Split, m).value, st.tables[t])
  {
    var k := PlacedFor(net, masks, st, s, m);
    AllWasTold(net, st, k, t);
    var e := Last(st.log[k]).mask;
    if e != m {
      PlacedIsTaken(net, masks, st, k);
      assert TakenAlikeOver(net, s, t, m, e);
      SplitReadAlike(net, t, m, e);
      HeardThrough(Reading(net, t, Split, m).value, Reading(net, t, Split, e).value, st.tables[t]);
    }
  }

  /** When the flood is over, every neighbour that takes an entry has it. */
  lemma {:induction false} Settled(net: Network, masks: set<Mask>, st: State, k: nat, t: Peer)
    requires WellFormedNet(net) && ClosedMasks(net, masks) && TakenAlike(net, masks) && Echoed(net, masks)
    requires Invariant(net, masks, st) && Over(st) && k < |st.log| && t < |net.servers|
    requires Linked(net, Last(st.log[k]).at, t) && Takes(net, t, Last(st.log[k]).mask)
    ensures Heard(Last(st.log[k]).mask, st.tables[t])
    decreases k
  {
    AllWasTold(net, st, k, t);
    if CameFrom(st.log[k], t) && Reading(net, t, Split, Last(st.log[k]).mask) != Some(Last(st.log[k]).mask) {
      var j := CameBack(net, masks, st, k, t);
      Settled(net, masks, st, j, Last(st.log[k]).at);
      SplitIsHeard(net, masks, st, Last(st.log[k]).at, t, Last(st.log[j]).mask);
    }
  }

  lemma AllWasTold(net: Network, st: State, k: nat, t: Peer)
    requires |st.tables| == |net.servers| && Spreading(net, st) && Over(st) && k < |st.log| && t < |net.servers|
    requires st.log[k] != [] && Linked(net, Last(st.log[k]).at, t)
    ensures Takes(net, t, Last(st.log[k]).mask) ==> Heard(Last(st.log[k]).mask, st.tables[t]) || CameFrom(st.log[k], t)
    ensures
      var r := Reading(net, t, Split, Last(st.log[k]).mask);
      r.Some? ==> Heard(r.value, st.tables[t])
  {
    assert Told(net, st, st.log[k], t) && ToldSplit(net, st, st.log[k], t);
  }

  /** The placement before the last one of a trail. */
  lemma PlacedBefore(net: Network, st: State, k: nat) returns (j: nat)
    requires |st.tables| == |net.servers| && Logged(net, st) && k < |st.log| && |st.log[k]| >= 2
    ensures j < k && st.log[j] != [] && Last(st.log[j]) == st.log[k][|st.log[k]| - 2]
  {
    assert Continues(st, k);
    var q := st.log[k];
    j :| 0 <= j < k && st.log[j] == q[..|q| - 1];
  }

  /** An entry that came from t by a misreading comes back to t. */
  lemma CameBack(net: Network, masks: set<Mask>, st: State, k: nat, t: Peer) returns (j: nat)
    requires WellFormedNet(net) && ClosedMasks(net, masks) && Echoed(net, masks)
    requires Within(net, masks, st) && Logged(net, st) && k < |st.log| && t < |net.servers| && CameFrom(st.log[k], t)
    requires Linked(net, Last(st.log[k]).at, t) && Takes(net, t, Last(st.log[k]).mask)
    ensures j < k && st.log[j] != [] && Last(st.log[j]).at == t && Last(st.log[j]).mask in masks
    ensures
      var b, m := Last(st.log[k]), Last(st.log[j]).mask;
      && b.at < |net.servers| && Linked(net, t, b.at)
      && (Reading(net, t, Split, b.mask) == Some(b.mask)
          || (Takes(net, b.at, m) && Reading(net, t, Split, m) == Some(b.mask)))
  {
    j := CameFromPlace(net, masks, st, k, t);
    ComesBack(net, masks, Last(st.log[k]).at, t, Last(st.log[j]).mask, Last(st.log[k]).mask);
  }

  /** The place at t from which a misreading came. */
  lemma CameFromPlace(net: Network, masks: set<Mask>, st: State, k: nat, t: Peer) returns (j: nat)
    requires WellFormedNet(net) && ClosedMasks(net, masks) && Within(net, masks, st) && Logged(net, st)
    requires k < |st.log| && CameFrom(st.log[k], t)
    ensures j < k && st.log[j] != [] && Last(st.log[j]).at == t && Last(st.log[j]).mask in masks
    ensures
      var b, m := Last(st.log[k]), Last(st.log[j]).mask;
      && b.at < |net.servers| && Linked(net, t, b.at) && Takes(net, t, m) && m != b.mask
      && Reading(net, b.at, Split, m) == Some(b.mask)
  {
    j := PlacedBefore(net, st, k);
    PlacedIsTaken(net, masks, st, j);
    MisreadInSplit(net, st.introduced, st.log[k]);
  }

  lemma ComesBack(net: Network, masks: set<Mask>, s: Peer, t: Peer, m: Mask, r: Mask)
    requires Echoed(net, masks) && s < |net.servers| && t < |net.servers| && m in masks && r != m
    requires Linked(net, t, s) && Linked(net, s, t) && Takes(net, t, m) && Takes(net, t, r)
    requires Reading(net, s, Split, m) == Some(r)
    ensures Reading(net, t, Split, r) == Some(r) || (Takes(net, s, m) && Reading(net, t, Split, m) == Some(r))
  {
    assert EchoedOver(net, s, t, m);
  }

  lemma MisreadInSplit(net: Network, introduced: set<(Peer, Mask)>, q: Trail)
    requires Chain(net, introduced, q) && |q| >= 2 && q[|q| - 2].mask != Last(q).mask && Readable(net, q[|q| - 2].mask)
    ensures Last(q).at < |net.servers| && Linked(net, q[|q| - 2].at, Last(q).at)
    ensures Reading(net, Last(q).at, Split, q[|q| - 2].mask) == Some(Last(q).mask)
  {
    JoinedReading(net, Last(q).at, q[|q| - 2].mask);
  }

  /** What a server has placed it takes. */
  lemma PlacedIsTaken(net: Network, masks: set<Mask>, st: State, k: nat)
    requires WellFormedNet(net) && ClosedMasks(net, masks) && Within(net, masks, st) && Logged(net, st) && k < |st.log|
    ensures Takes(net, Last(st.log[k]).at, Last(st.log[k]).mask)
  {
    var q := st.log[k];
    if |q| > 1 {
      var j := PlacedBefore(net, st, k);
      ChainLinks(net, st.introduced, q);
      FollowerTakes(net, q);
    } else {
      assert Chain(net, st.introduced, q);
    }
  }

  lemma ChainLinks(net: Network, introduced: set<(Peer, Mask)>, q: Trail)
    requires Chain(net, introduced, q) && |q| >= 2
    ensures Follows(net, q)
  {
  }

  lemma FollowerTakes(net: Network, q: Trail)
    requires WellFormedNet(net) && |q| >= 2 && Readable(net, q[|q| - 2].mask) && Follows(net, q)
    ensures Takes(net, Last(q).at, Last(q).mask)
  {
    var a, b := q[|q| - 2], Last(q);
    if Reading(net, b.at, Joined, a.mask) == Some(b.mask) {
      ReadingIsReadable(net, b.at, Joined, a.mask);
    } else {
      ReadingIsReadable(net, b.at, Split, a.mask);
    }
  }

  /** The end of every chain is held. */
  lemma {:induction false} ChainIsHeld(net: Network, masks: set<Mask>, st: State, q: Trail)
    requires WellFormedNet(net) && ClosedMasks(net, masks) && TakenAlike(net, masks) && Echoed(net, masks)
    requires Invariant(net, masks, st) && Over(st) && Chain(net, st.introduced, q)
    ensures Last(q).at < |net.servers| && Last(q).mask in masks && Heard(Last(q).mask, st.tables[Last(q).at])
    ensures Takes(net, Last(q).at, Last(q).mask)
    decreases |q|
  {
    if |q| > 1 {
      var a, b := q[|q| - 2], Last(q);
      ChainIsHeld(net, masks, st, q[..|q| - 1]);
      assert Last(q[..|q| - 1]) == a;
      assert Follows(net, q);
      FollowerTakes(net, q);
      if Reading(net, b.at, Split, a.mask) == Some(b.mask) {
        SplitIsHeard(net, masks, st, a.at, b.at, a.mask);
      } else {
        JoinedReading(net, b.at, a.mask);
        JoinedIsHeard(net, masks, st, a.at, b.at, a.mask);
      }
    }
  }

  lemma JoinedIsHeard(net: Network, masks: set<Mask>, st: State, s: Peer, t: Peer, m: Mask)
    requires WellFormedNet(net) && ClosedMasks(net, masks) && TakenAlike(net, masks) && Echoed(net, masks)
    requires Invariant(net, masks, st) && Over(st)
    requires Linked(net, s, t) && s < |net.servers| && t < |net.servers| && m in masks && Heard(m, st.tables[s])
    requires Takes(net, s, m) && Takes(net, t, m)
    ensures Heard(m, st.tables[t])
  {
    var k := PlacedFor(net, masks, st, s, m);
    PlacedIsTaken(net, masks, st, k);
    assert TakenAlikeOver(net, s, t, m, Last(st.log[k]).mask);
    Settled(net, masks, st, k, t);
    if Last(st.log[k]).mask != m {
      HeardThrough(m, Last(st.log[k]).mask, st.tables[t]);
    }
  }

  ghost predicate AllReadable(net: Network, base: set<(Peer, Mask)>) {
    forall b :: b in base ==> Readable(net, b.1)
  }

  /** The masks that can turn up when those of `base` are introduced. */
  function Arising(net: Network, base: set<(Peer, Mask)>): set<Mask> {
    Closure(net, MasksOf(base))
  }

  lemma ArisingIsClosed(net: Network, base: set<(Peer, Mask)>)
    requires WellFormedNet(net) && AllReadable(net, base)
    ensures ClosedMasks(net, Arising(net, base))
  {
    ClosureIsClosed(net, MasksOf(base));
    forall m | m in Arising(net, base)
      ensures Readable(net, m) && m.WellFormed()
    {
      ClosureIsReadable(net, MasksOf(base), m);
      assert GoodToken(net.tokens, m.host);
    }
  }

  lemma RunFromEmpty(net: Network, masks: set<Mask>, base: set<(Peer, Mask)>, es: seq<Event>)
    requires WellFormedNet(net) && ClosedMasks(net, masks) && MasksOf(base) <= masks
    requires IsRun(net, Empty(net), es) && IntroducesOnly(es, base)
    ensures Invariant(net, masks, Final(net, Empty(net), es))
  {
    EmptySatisfies(net, masks);
    forall i | 0 <= i < |es| && es[i].Introduce?
      ensures es[i].mask in masks
    {
      assert (es[i].at, es[i].mask) in base;
    }
    RunSatisfies(net, masks, Empty(net), es);
  }

  /** The chain by which an entry came to s. */
  ghost predicate CameBy(net: Network, introduced: set<(Peer, Mask)>, s: Peer, u: Mask) {
    exists q :: Chain(net, introduced, q) && Last(q).at == s && Matching(u, Last(q).mask)
  }

  lemma HeldCameBy(net: Network, st: State, u: Mask, s: Peer)
    requires |st.tables| == |net.servers| && Logged(net, st) && s < |net.servers| && Found(u, st.tables[s])
    ensures CameBy(net, st.introduced, s, u)
  {
    var i :| 0 <= i < |st.tables[s]| && Matching(u, st.tables[s][i]);
    assert HasTrail(st, s, st.tables[s][i]);
    var k :| 0 <= k < |st.log| && st.log[k] != [] && Last(st.log[k]) == Hold(s, st.tables[s][i]);
    assert Chain(net, st.introduced, st.log[k]);
  }

  /** In every run, whatever a server holds came to it from an introduction over links, each server having placed
      what it read in a line of the one before; and each mask names at most one entry. */
  lemma NothingIsMadeUp(net: Network, base: set<(Peer, Mask)>, es: seq<Event>, u: Mask, s: Peer)
    requires WellFormedNet(net) && AllReadable(net, base)
    requires IsRun(net, Empty(net), es) && IntroducesOnly(es, base) && s < |net.servers|
    ensures
      var st := Final(net, Empty(net), es);
      && |st.tables| == |net.servers|
      && (Found(u, st.tables[s]) ==> CameBy(net, st.introduced, s, u))
      && (forall i, j :: 0 <= i < |st.tables[s]| && 0 <= j < |st.tables[s]| && Matching(u, st.tables[s][i]) ==>
            Matching(u, st.tables[s][j]) ==> i == j)
  {
    var st := Final(net, Empty(net), es);
    ArisingIsClosed(net, base);
    RunFromEmpty(net, Arising(net, base), base, es);
    if Found(u, st.tables[s]) {
      HeldCameBy(net, st, u, s);
    }
    var table := st.tables[s];
    forall i, j | 0 <= i < |table| && 0 <= j < |table| && Matching(u, table[i]) && Matching(u, table[j])
      ensures i == j
    {
      OneEntry(table, u, i, j);
    }
  }

  /** When the flood is over, a server holds a G-line named by u exactly when such a chain ends there.  `masks` are the
      introduced ones and what can be read of them, as in Arising() or fewer. */
  lemma FloodConverges(net: Network, masks: set<Mask>, base: set<(Peer, Mask)>, es: seq<Event>, u: Mask, s: Peer)
    requires WellFormedNet(net) && ClosedMasks(net, masks) && MasksOf(base) <= masks
    requires TakenAlike(net, masks) && Echoed(net, masks)
    requires IsRun(net, Empty(net), es) && IntroducesOnly(es, base) && s < |net.servers|
    requires Over(Final(net, Empty(net), es))
    ensures
      var st := Final(net, Empty(net), es);
      |st.tables| == |net.servers| && (Found(u, st.tables[s]) <==> CameBy(net, st.introduced, s, u))
  {
    var st := Final(net, Empty(net), es);
    RunFromEmpty(net, masks, base, es);
    if Found(u, st.tables[s]) {
      HeldCameBy(net, st, u, s);
    }
    if CameBy(net, st.introduced, s, u) {
      var q :| Chain(net, st.introduced, q) && Last(q).at == s && Matching(u, Last(q).mask);
      ChainIsHeld(net, masks, st, q);
      HeardThrough(u, Last(q).mask, st.tables[s]);
    }
  }

  // ----- one mask that every server takes

  ghost predicate Path(net: Network, p: seq<Peer>) {
    p != [] && p[0] < |net.servers| && forall i :: 0 <= i < |p| - 1 ==> Linked(net, p[i], p[i + 1])
  }

  ghost predicate Reaches(net: Network, o: Peer, s: Peer) {
    exists p :: Path(net, p) && p[0] == o && p[|p| - 1] == s
  }

  /** Nothing but m itself is read as a mask that m names. */
  ghost predicate NotRemade(net: Network, masks: set<Mask>, m: Mask) {
    forall t: Peer, form, x :: t < |net.servers| && x in masks && Reading(net, t, form, x).Some? ==>
      Matching(m, Reading(net, t, form, x).value) ==> Reading(net, t, form, x).value == x
  }

  /** Then all places of a chain that ends in an entry which m names hold m. */
  lemma {:induction false} OnlyItself(net: Network, masks: set<Mask>, introduced: set<(Peer, Mask)>, m: Mask, q: Trail)
    requires ClosedMasks(net, masks) && MasksOf(introduced) <= masks && NotRemade(net, masks, m)
    requires forall b :: b in introduced && Matching(m, b.1) ==> b.1 == m
    requires Chain(net, introduced, q)
    ensures Last(q).mask in masks
    ensures Matching(m, Last(q).mask) ==> forall i :: 0 <= i < |q| ==> q[i].mask == m
    decreases |q|
  {
    if |q| == 1 {
      assert (q[0].at, q[0].mask).1 in MasksOf(introduced);
      assert Matching(m, Last(q).mask) ==> (q[0].at, q[0].mask).1 == m;
    } else {
      var p := q[..|q| - 1];
      OnlyItself(net, masks, introduced, m, p);
      assert Last(p) == q[|q| - 2] && Follows(net, q);
      assert forall i :: 0 <= i < |p| ==> q[i] == p[i];
    }
  }

  /** What a server holds of m it tells all its neighbours. */
  lemma NeighbourHasIt(net: Network, masks: set<Mask>, st: State, m: Mask, s: Peer, t: Peer)
    requires WellFormedNet(net) && ClosedMasks(net, masks) && NotRemade(net, masks, m) && m in masks && !m.Stray()
    requires Invariant(net, masks, st) && Over(st)
    requires forall b :: b in st.introduced && Matching(m, b.1) ==> b.1 == m
    requires s < |net.servers| && t < |net.servers| && Linked(net, s, t) && Takes(net, t, m) && Found(m, st.tables[s])
    ensures Found(m, st.tables[t])
  {
    var i :| 0 <= i < |st.tables[s]| && Matching(m, st.tables[s][i]);
    assert HasTrail(st, s, st.tables[s][i]);
    var k :| 0 <= k < |st.log| && st.log[k] != [] && Last(st.log[k]) == Hold(s, st.tables[s][i]);
    assert Chain(net, st.introduced, st.log[k]);
    IntroducedAreMasks(net, masks, st);
    OnlyItself(net, masks, st.introduced, m, st.log[k]);
    AllWasTold(net, st, k, t);
    SelfMatching(m);
    HeardThrough(m, m, st.tables[t]);
  }

  lemma IntroducedAreMasks(net: Network, masks: set<Mask>, st: State)
    requires Within(net, masks, st)
    ensures MasksOf(st.introduced) <= masks
  {
    forall b | b in st.introduced
      ensures b.1 in masks
    {
      assert (b.0, b.1) in st.introduced;
    }
  }

  lemma {:induction false} PathHasIt(net: Network, masks: set<Mask>, st: State, m: Mask, p: seq<Peer>)
    requires WellFormedNet(net) && ClosedMasks(net, masks) && NotRemade(net, masks, m) && m in masks && !m.Stray()
    requires Invariant(net, masks, st) && Over(st) && forall b :: b in st.introduced && Matching(m, b.1) ==> b.1 == m
    requires forall t :: 0 <= t < |net.servers| ==> Takes(net, t, m)
    requires Path(net, p) && (p[0], m) in st.introduced
    ensures p[|p| - 1] < |net.servers| && Found(m, st.tables[p[|p| - 1]])
    decreases |p|
  {
    SelfMatching(m);
    if |p| == 1 {
      HeardThrough(m, m, st.tables[p[0]]);
    } else {
      PathHasIt(net, masks, st, m, p[..|p| - 1]);
      assert Linked(net, p[|p| - 2], p[|p| - 1]);
      LinkStays(net, p[|p| - 2], p[|p| - 1]);
      NeighbourHasIt(net, masks, st, m, p[|p| - 2], p[|p| - 1]);
    }
  }

  lemma LinkStays(net: Network, s: Peer, t: Peer)
    requires WellFormedNet(net) && Linked(net, s, t)
    ensures t < |net.servers| && s != t
  {
  }

  /** The table has m, and m names no other entry of it. */
  ghost predicate HeldOnce(m: Mask, table: seq<Mask>) {
    exists i :: 0 <= i < |table| && table[i] == m && forall j :: 0 <= j < |table| && j != i ==> !Matching(m, table[j])
  }

  lemma HeldAlone(m: Mask, table: seq<Mask>)
    requires HeldOnce(m, table) && Matching(m, m) && forall i :: 0 <= i < |table| ==> table[i] == m
    ensures table == [m]
  {
    var i :| 0 <= i < |table| && table[i] == m && forall j :: 0 <= j < |table| && j != i ==> !Matching(m, table[j]);
    forall j | 0 <= j < |table|
      ensures table[j] == m && j == i
    {
    }
    assert table[0] == m && table[|table| - 1] == m;
  }

  /** On any graph of links, when the flood is over, a mask that all servers take is held exactly once by every server
      that is reached from where it was introduced, whatever other masks there were. */
  lemma OneMaskReachesAll(net: Network, masks: set<Mask>, base: set<(Peer, Mask)>, es: seq<Event>, m: Mask, o: Peer, s: Peer)
    requires WellFormedNet(net) && ClosedMasks(net, masks) && MasksOf(base) <= masks && !m.Stray()
    requires forall t :: 0 <= t < |net.servers| ==> Takes(net, t, m)
    requires NotRemade(net, masks, m) && forall b :: b in base && Matching(m, b.1) ==> b.1 == m
    requires IsRun(net, Empty(net), es) && IntroducesOnly(es, base) && Over(Final(net, Empty(net), es))
    requires (o, m) in Final(net, Empty(net), es).introduced && Reaches(net, o, s)
    ensures
      var st := Final(net, Empty(net), es);
      |st.tables| == |net.servers| && s < |net.servers| && HeldOnce(m, st.tables[s])
  {
    var st := Final(net, Empty(net), es);
    RunFromEmpty(net, masks, base, es);
    IntroducedWithin(net, base, Empty(net), es);
    IntroducedAreMasks(net, masks, st);
    assert (o, m).1 in MasksOf(st.introduced);
    var p :| Path(net, p) && p[0] == o && p[|p| - 1] == s;
    PathHasIt(net, masks, st, m, p);
    FoundIsItself(net, masks, st, m, s);
  }

  lemma FoundIsItself(net: Network, masks: set<Mask>, st: State, m: Mask, s: Peer)
    requires ClosedMasks(net, masks) && NotRemade(net, masks, m) && Sound(net, masks, st)
    requires forall b :: b in st.introduced && Matching(m, b.1) ==> b.1 == m
    requires s < |net.servers| && Found(m, st.tables[s])
    ensures HeldOnce(m, st.tables[s])
  {
    var table := st.tables[s];
    var i :| 0 <= i < |table| && Matching(m, table[i]);
    assert HasTrail(st, s, table[i]);
    var k :| 0 <= k < |st.log| && st.log[k] != [] && Last(st.log[k]) == Hold(s, table[i]);
    assert Chain(net, st.introduced, st.log[k]);
    IntroducedAreMasks(net, masks, st);
    OnlyItself(net, masks, st.introduced, m, st.log[k]);
    assert table[i] == m;
    forall j | 0 <= j < |table| && j != i
      ensures !Matching(m, table[j])
    {
      if Matching(m, table[j]) {
        OneEntry(table, m, i, j);
      }
    }
  }

  lemma {:induction false} IntroducedWithin(net: Network, base: set<(Peer, Mask)>, st: State, es: seq<Event>)
    requires IsRun(net, st, es) && IntroducesOnly(es, base) && st.introduced <= base
    ensures Final(net, st, es).introduced <= base
    decreases |es|
  {
    if es != [] {
      IntroducedWithin(net, base, Step(net, st, es[0]), es[1..]);
    }
  }

  /** A mask that no server reads as another: after its flood every server on the way has it and nothing else. */
  lemma OneMaskAlone(net: Network, es: seq<Event>, m: Mask, o: Peer, s: Peer)
    requires WellFormedNet(net) && Readable(net, m) && !m.Stray()
    requires forall t :: 0 <= t < |net.servers| ==> Takes(net, t, m) && Reading(net, t, Split, m) in {None, Some(m)}
    requires IsRun(net, Empty(net), es) && (forall i :: 0 <= i < |es| && es[i].Introduce? ==> es[i].mask == m)
    requires Over(Final(net, Empty(net), es)) && (o, m) in Final(net, Empty(net), es).introduced && Reaches(net, o, s)
    ensures |Final(net, Empty(net), es).tables| == |net.servers| && s < |net.servers|
    ensures Final(net, Empty(net), es).tables[s] == [m]
  {
    var st := Final(net, Empty(net), es);
    var base := set i | 0 <= i < |es| && es[i].Introduce? :: (es[i].at, es[i].mask);
    OneMaskIsClosed(net, m);
    assert forall b :: b in base ==> b.1 == m;
    OneMaskReachesAll(net, {m}, base, es, m, o, s);
    RunFromEmpty(net, {m}, base, es);
    OnlyTheMask(net, m, st, s);
    SelfMatching(m);
    HeldAlone(m, st.tables[s]);
  }

  lemma OnlyTheMask(net: Network, m: Mask, st: State, s: Peer)
    requires Within(net, {m}, st) && Logged(net, st) && s < |net.servers|
    ensures forall i :: 0 <= i < |st.tables[s]| ==> st.tables[s][i] == m
  {
    forall i | 0 <= i < |st.tables[s]|
      ensures st.tables[s][i] == m
    {
      assert HasTrail(st, s, st.tables[s][i]);
    }
  }

  lemma OneMaskIsClosed(net: Network, m: Mask)
    requires WellFormedNet(net) && Readable(net, m)
    requires forall t :: 0 <= t < |net.servers| ==> Reading(net, t, Split, m) in {None, Some(m)}
    ensures ClosedMasks(net, {m}) && NotRemade(net, {m}, m)
  {
    assert GoodToken(net.tokens, m.host);
    forall t: Peer, form | t < |net.servers|
      ensures Reading(net, t, form, m) in {None, Some(m)}
    {
      JoinedReading(net, t, m);
    }
  }

  // ----- when misreadings come back

  /** Servers with the same settings and users that all read the split form in the same way. */
  lemma UniformIsEchoed(net: Network, masks: set<Mask>)
    requires WellFormedNet(net) && forall m :: m in masks ==> Readable(net, m)
    requires forall s, t :: 0 <= s < |net.servers| && 0 <= t < |net.servers| ==>
               net.servers[s].config == net.servers[t].config && net.servers[s].users == net.servers[t].users
               && net.servers[s].readsSplit == net.servers[t].readsSplit
    ensures Echoed(net, masks)
  {
    forall s: Peer, t: Peer, m | s < |net.servers| && t < |net.servers| && m in masks
      ensures EchoedOver(net, s, t, m)
    {
      JoinedReading(net, s, m);
      JoinedReading(net, t, m);
      assert net.servers[s].config == net.servers[t].config;
    }
  }

  /** Masks in whose user part no server sees a nick or a star. */
  lemma UnmistakableIsEchoed(net: Network, masks: set<Mask>)
    requires WellFormedNet(net) && forall m :: m in masks ==> Readable(net, m) && m.user[0] != '*'
    requires forall s, m :: 0 <= s < |net.servers| && m in masks ==> Lookup(net.servers[s].users, m.user) == None
    ensures Echoed(net, masks)
  {
    forall s: Peer, t: Peer, m | s < |net.servers| && t < |net.servers| && m in masks
      ensures EchoedOver(net, s, t, m)
    {
      JoinedReading(net, s, m);
      if !net.servers[s].readsSplit {
        SplitReading(net, s, m);
      }
    }
  }
}
