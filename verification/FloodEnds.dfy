/** When the flood of GLINE lines comes to an end (modules/m_gline.c:149-212, src/hostmask.c:116-119). */
module FloodEnds {
  import opened Options
  import opened Seqs
  import opened Masks
  import opened Gline
  import opened GlineNet
  import opened Flood
  import opened FloodOutcome
  import opened FloodRuns

  /** There is a bound on the deliveries that follow one introduction. */
  ghost predicate Ends(net: Network, base: set<(Peer, Mask)>) {
    exists n: nat :: BoundedBy(net, base, n)
  }

  ghost predicate BoundedBy(net: Network, base: set<(Peer, Mask)>, n: nat) {
    forall es :: IsRun(net, Empty(net), es) && IntroducesOnly(es, base) ==> Deliveries(es) <= n * (Introductions(es) + 1)
  }

  /** From server to server along links, turning back only to a server that reads the split form. */
  ghost predicate Walk(net: Network, m: Mask, p: seq<Peer>) {
    p != [] && (forall i :: 0 <= i < |p| ==> Takes(net, p[i], m)) && forall i: nat :: i + 1 < |p| ==> WalkStep(net, p, i)
  }

  ghost predicate WalkStep(net: Network, p: seq<Peer>, i: nat)
    requires i + 1 < |p|
  {
    && Linked(net, p[i], p[i + 1])
    && (i + 2 < |p| && p[i] == p[i + 2] ==> p[i] < |net.servers| && net.servers[p[i]].readsSplit)
  }

  /** A link is taken twice in the same direction. */
  predicate Twice(p: seq<Peer>, i: nat, j: nat) {
    i < j && j + 1 < |p| && p[i] == p[j] && p[i + 1] == p[j + 1]
  }

  ghost predicate Endless(net: Network, o: Peer, m: Mask) {
    exists p: seq<Peer>, i: nat, j: nat :: Walk(net, m, p) && p[0] == o && Twice(p, i, j)
  }

  // ----- the places of a mask with a stray bit

  function Servers(q: Trail): seq<Peer> {
    seq(|q|, i requires 0 <= i < |q| => q[i].at)
  }

  /** A mask with a stray bit wanders over the network: it is new wherever it is read. */
  ghost predicate Wanders(net: Network, introduced: set<(Peer, Mask)>, q: Trail)
    requires q != []
  {
    && (forall i :: 0 <= i < |q| ==> q[i].mask == q[0].mask)
    && (q[0].at, q[0].mask) in introduced && Walk(net, q[0].mask, Servers(q))
  }

  lemma {:induction false} StrayWanders(net: Network, masks: set<Mask>, introduced: set<(Peer, Mask)>, q: Trail)
    requires WellFormedNet(net) && ClosedMasks(net, masks) && Chain(net, introduced, q)
    requires forall b :: b in introduced ==> b.1 in masks
    ensures Last(q).mask in masks
    ensures Last(q).mask.Stray() ==> Wanders(net, introduced, q)
    decreases |q|
  {
    if |q| == 1 {
      assert (q[0].at, q[0].mask).1 in masks;
    } else {
      var p := q[..|q| - 1];
      StrayWanders(net, masks, introduced, p);
      assert Last(p) == q[|q| - 2];
      NextPlaceIsRead(net, masks, q);
      if Last(q).mask.Stray() {
        WanderOn(net, introduced, q);
      }
    }
  }

  lemma NextPlaceIsRead(net: Network, masks: set<Mask>, q: Trail)
    requires WellFormedNet(net) && ClosedMasks(net, masks) && |q| >= 2 && Follows(net, q) && q[|q| - 2].mask in masks
    ensures Last(q).mask in masks && Takes(net, Last(q).at, Last(q).mask)
    ensures Last(q).mask.Stray() ==> Last(q).mask == q[|q| - 2].mask
    ensures Last(q).mask.Stray() && TurnsBack(q) ==> net.servers[Last(q).at].readsSplit
  {
    var a, b := q[|q| - 2], Last(q);
    if Reading(net, b.at, Split, a.mask) == Some(b.mask) {
      ReadingIsReadable(net, b.at, Split, a.mask);
    } else {
      ReadingIsReadable(net, b.at, Joined, a.mask);
    }
  }

  lemma WalkExtends(net: Network, m: Mask, p: seq<Peer>, t: Peer)
    requires Walk(net, m, p) && Takes(net, t, m) && Linked(net, p[|p| - 1], t)
    requires |p| >= 2 && p[|p| - 2] == t ==> net.servers[t].readsSplit
    ensures Walk(net, m, p + [t])
  {
    var v := p + [t];
    forall i: nat | i + 1 < |v|
      ensures WalkStep(net, v, i)
    {
      if i + 1 < |p| {
        assert WalkStep(net, p, i);
      }
    }
  }

  lemma ServersExtend(q: Trail)
    requires q != []
    ensures Servers(q) == Servers(q[..|q| - 1]) + [Last(q).at]
  {
  }

  lemma WanderOn(net: Network, introduced: set<(Peer, Mask)>, q: Trail)
    requires |q| >= 2 && Wanders(net, introduced, q[..|q| - 1]) && Linked(net, q[|q| - 2].at, Last(q).at)
    requires Last(q).mask == q[|q| - 2].mask && Takes(net, Last(q).at, Last(q).mask)
    requires TurnsBack(q) ==> net.servers[Last(q).at].readsSplit
    ensures Wanders(net, introduced, q)
  {
    var p := q[..|q| - 1];
    ServersExtend(q);
    SameMasks(p, q);
    assert p[|p| - 1].mask == q[0].mask && Servers(p)[|p| - 1] == q[|q| - 2].at;
    assert |p| >= 2 ==> Servers(p)[|p| - 2] == q[|q| - 3].at;
    WalkExtends(net, q[0].mask, Servers(p), Last(q).at);
  }

  lemma SameMasks(p: Trail, q: Trail)
    requires p != [] && |q| == |p| + 1 && p == q[..|p|] && Last(q).mask == Last(p).mask
    requires forall i :: 0 <= i < |p| ==> p[i].mask == p[0].mask
    ensures forall i :: 0 <= i < |q| ==> q[i].mask == q[0].mask
  {
    assert forall i :: 0 <= i < |p| ==> q[i] == p[i];
  }

  // ----- walks that do not go on for ever

  function Pairs(net: Network): set<(Peer, Peer)> {
    set s: Peer, t: Peer | s < |net.servers| && t < |net.servers| :: (s, t)
  }

  lemma WalkIsShort(net: Network, m: Mask, p: seq<Peer>)
    requires Walk(net, m, p) && !Endless(net, p[0], m)
    ensures |p| <= |Pairs(net)| + 1
  {
    var steps := seq(|p| - 1, i requires 0 <= i < |p| - 1 => (p[i], p[i + 1]));
    forall i, j | 0 <= i < j < |steps|
      ensures steps[i] != steps[j]
    {
      assert !Twice(p, i, j);
    }
    DistinctSize(steps);
    forall x | x in Members(steps)
      ensures x in Pairs(net)
    {
      var i :| 0 <= i < |steps| && steps[i] == x;
      assert Takes(net, p[i], m) && Takes(net, p[i + 1], m);
    }
    SubsetSize(Members(steps), Pairs(net));
  }

  // ----- the measure

  function Pow(c: nat, k: nat): nat {
    if k == 0 then 1 else c * Pow(c, k - 1)
  }

  lemma {:induction false} PowIsPositive(c: nat, k: nat)
    requires c >= 1
    ensures Pow(c, k) >= 1
  {
    if k > 0 {
      PowIsPositive(c, k - 1);
      assert c * Pow(c, k - 1) >= 1 * Pow(c, k - 1);
    }
  }

  /** `far` bounds the trails of masks with a stray bit, `c` is more than the lines that one placement sends. */
  datatype Bounds = Bounds(c: nat, far: nat)

  function LineWeight(b: Bounds, msg: Msg): nat {
    if msg.mask.Stray() && |msg.trail| <= b.far then Pow(b.c, b.far + 1 - |msg.trail|) else 1
  }

  ghost function Weight(b: Bounds, flight: multiset<Msg>): nat
    decreases |flight|
  {
    if flight == multiset{} then 0
    else
      var x :| x in flight;
      LineWeight(b, x) + Weight(b, flight - multiset{x})
  }

  lemma {:induction false} WeightOf(b: Bounds, flight: multiset<Msg>, x: Msg)
    requires x in flight
    ensures Weight(b, flight) == LineWeight(b, x) + Weight(b, flight - multiset{x})
    decreases |flight|
  {
    var y :| y in flight && Weight(b, flight) == LineWeight(b, y) + Weight(b, flight - multiset{y});
    if x != y {
      WeightOf(b, flight - multiset{y}, x);
      WeightOf(b, flight - multiset{x}, y);
      TakenInAnyOrder(flight, x, y);
    }
  }

  lemma TakenInAnyOrder<A>(flight: multiset<A>, x: A, y: A)
    ensures flight - multiset{y} - multiset{x} == flight - multiset{x} - multiset{y}
  {
  }

  lemma {:induction false} WeightAdds(b: Bounds, flight: multiset<Msg>, lines: seq<Msg>, w: nat)
    requires forall i :: 0 <= i < |lines| ==> LineWeight(b, lines[i]) == w
    ensures Weight(b, flight + multiset(lines)) == Weight(b, flight) + |lines| * w
  {
    if lines == [] {
      assert flight + multiset(lines) == flight;
    } else {
      var rest := lines[1..];
      WeightAdds(b, flight, rest, w);
      FirstApart(flight, lines);
      WeightOf(b, flight + multiset(lines), lines[0]);
      OneMore(|rest|, w);
    }
  }

  lemma FirstApart<A>(flight: multiset<A>, lines: seq<A>)
    requires lines != []
    ensures lines[0] in flight + multiset(lines)
    ensures flight + multiset(lines) - multiset{lines[0]} == flight + multiset(lines[1..])
  {
    assert lines == [lines[0]] + lines[1..];
    assert multiset([lines[0]] + lines[1..]) == multiset{lines[0]} + multiset(lines[1..]);
  }

  lemma OneMore(k: nat, w: nat)
    ensures (k + 1) * w == w + k * w
  {
  }

  function Missing(masks: set<Mask>, table: seq<Mask>): set<Mask> {
    set m | m in masks && !Found(m, table)
  }

  function MissingUpTo(masks: set<Mask>, tables: seq<seq<Mask>>, n: nat): nat
    requires n <= |tables|
  {
    if n == 0 then 0 else MissingUpTo(masks, tables, n - 1) + |Missing(masks, tables[n - 1])|
  }

  lemma PlacingFinds(masks: set<Mask>, m: Mask, table: seq<Mask>)
    ensures |Missing(masks, [m] + table)| <= |Missing(masks, table)|
    ensures m in masks && Matching(m, m) && !Found(m, table) ==> |Missing(masks, [m] + table)| < |Missing(masks, table)|
  {
    var before, after := Missing(masks, table), Missing(masks, [m] + table);
    forall u | Found(u, table)
      ensures Found(u, [m] + table)
    {
      HeardGrows(u, m, table);
    }
    SubsetSize(after, before);
    assert ([m] + table)[0] == m;
    if m in masks && Matching(m, m) && !Found(m, table) {
      assert m in before && m !in after;
    }
  }

  lemma {:induction false} MissingDrops(masks: set<Mask>, tables: seq<seq<Mask>>, t: nat, m: Mask, n: nat)
    requires t < |tables| && n <= |tables|
    ensures MissingUpTo(masks, tables[t := [m] + tables[t]], n) <= MissingUpTo(masks, tables, n)
    ensures t < n && m in masks && Matching(m, m) && !Found(m, tables[t]) ==>
              MissingUpTo(masks, tables[t := [m] + tables[t]], n) < MissingUpTo(masks, tables, n)
  {
    if n > 0 {
      MissingDrops(masks, tables, t, m, n - 1);
      PlacingFinds(masks, m, tables[t]);
    }
  }

  ghost function Measure(b: Bounds, masks: set<Mask>, st: State): nat {
    MissingUpTo(masks, st.tables, |st.tables|) * b.c + Weight(b, st.flight)
  }

  /** No trail of a mask with a stray bit is longer than `far`. */
  ghost predicate InBounds(net: Network, b: Bounds, st: State) {
    && (forall s :: 0 <= s < |net.servers| ==> 2 * |net.servers[s].links| < b.c)
    && forall k :: 0 <= k < |st.log| && st.log[k] != [] && Last(st.log[k]).mask.Stray() ==> |st.log[k]| <= b.far
  }

  lemma SendsWeigh(net: Network, b: Bounds, q: Trail, from: Option<Peer>)
    requires WellFormedNet(net) && q != [] && Last(q).at < |net.servers|
    requires 2 * |net.servers[Last(q).at].links| < b.c && (Last(q).mask.Stray() ==> |q| <= b.far)
    ensures |Sends(net, q, from)| < b.c
    ensures forall i :: 0 <= i < |Sends(net, q, from)| ==>
              LineWeight(b, Sends(net, q, from)[i]) == if Last(q).mask.Stray() then Pow(b.c, b.far + 1 - |q|) else 1
  {
    CopiesBounded(net.servers[Last(q).at].links, from, Last(q).mask);
    forall i | 0 <= i < |Sends(net, q, from)|
      ensures LineWeight(b, Sends(net, q, from)[i]) == if Last(q).mask.Stray() then Pow(b.c, b.far + 1 - |q|) else 1
    {
      SendsAre(net, q, from, Sends(net, q, from)[i]);
    }
  }

  lemma LineWeighs(b: Bounds, msg: Msg)
    requires b.c >= 1
    ensures LineWeight(b, msg) >= 1
  {
    if msg.mask.Stray() && |msg.trail| <= b.far {
      PowIsPositive(b.c, b.far + 1 - |msg.trail|);
    }
  }

  /** What one placement sends weighs less than the line that brought the mask, or a mask less is missing. */
  lemma PlacementWeighs(b: Bounds, missing: nat, missing': nat, line: nat, lines: nat, w: nat)
    requires lines < b.c && missing' <= missing && line >= 1
    requires (missing' < missing && w == 1) || (line == b.c * w && w >= 1)
    ensures missing' * b.c + lines * w < missing * b.c + line
  {
    if missing' < missing && w == 1 {
      assert (missing' + 1) * b.c <= missing * b.c;
    } else {
      assert missing' * b.c <= missing * b.c;
      assert (lines + 1) * w <= b.c * w;
    }
  }

  /** Every delivery decreases the measure. */
  lemma DeliveryDecreases(net: Network, b: Bounds, masks: set<Mask>, st: State, msg: Msg)
    requires WellFormedNet(net) && ClosedMasks(net, masks) && Sound(net, masks, st) && msg in st.flight
    requires InBounds(net, b, Step(net, st, Deliver(msg)))
    ensures Measure(b, masks, Step(net, st, Deliver(msg))) < Measure(b, masks, st)
  {
    WeightOf(b, st.flight, msg);
    assert 2 * |net.servers[msg.to].links| < b.c;
    LineWeighs(b, msg);
    if Placing(net, st, msg).Some? {
      PlacementDecreases(net, b, masks, st, msg, Placing(net, st, msg).value);
    }
  }

  /** The lines in flight after a placement, and what is missing then. */
  lemma PlacementChanges(net: Network, b: Bounds, masks: set<Mask>, st: State, msg: Msg, m: Mask, w: nat)
    requires WellFormedNet(net) && Fits(net, st) && msg in st.flight && Placing(net, st, msg) == Some(m)
    requires
      var lines := Sends(net, NewTrail(msg, m), msg.From());
      forall i :: 0 <= i < |lines| ==> LineWeight(b, lines[i]) == w
    ensures
      var st', lines := Step(net, st, Deliver(msg)), |Sends(net, NewTrail(msg, m), msg.From())|;
      && |st'.tables| == |net.servers|
      && Weight(b, st'.flight) == Weight(b, st.flight) - LineWeight(b, msg) + lines * w
      && MissingUpTo(masks, st'.tables, |net.servers|) <= MissingUpTo(masks, st.tables, |net.servers|)
      && (m in masks && Matching(m, m) ==>
            MissingUpTo(masks, st'.tables, |net.servers|) < MissingUpTo(masks, st.tables, |net.servers|))
  {
    WeightOf(b, st.flight, msg);
    WeightAdds(b, st.flight - multiset{msg}, Sends(net, NewTrail(msg, m), msg.From()), w);
    MissingDrops(masks, st.tables, msg.to, m, |net.servers|);
  }

  lemma PlacementDecreases(net: Network, b: Bounds, masks: set<Mask>, st: State, msg: Msg, m: Mask)
    requires WellFormedNet(net) && ClosedMasks(net, masks) && Fits(net, st) && msg in st.flight && msg.mask in masks
    requires InBounds(net, b, Step(net, st, Deliver(msg))) && Placing(net, st, msg) == Some(m)
    ensures Measure(b, masks, Step(net, st, Deliver(msg))) < Measure(b, masks, st)
  {
    var st', q := Step(net, st, Deliver(msg)), NewTrail(msg, m);
    assert st'.log[|st.log|] == q && |q| == |msg.trail| + 1;
    assert 2 * |net.servers[msg.to].links| < b.c;
    SendsWeigh(net, b, q, msg.From());
    var w := if m.Stray() then Pow(b.c, b.far - |msg.trail|) else 1;
    PlacementChanges(net, b, masks, st, msg, m, w);
    StraysFade(net, b, msg, m, w);
    SelfMatching(m);
    PlacementWeighs(b, MissingUpTo(masks, st.tables, |net.servers|), MissingUpTo(masks, st'.tables, |net.servers|),
                    LineWeight(b, msg), |Sends(net, q, msg.From())|, w);
  }

  lemma StraysFade(net: Network, b: Bounds, msg: Msg, m: Mask, w: nat)
    requires WellFormedNet(net) && Readable(net, msg.mask) && msg.to < |net.servers| && b.c >= 1
    requires Reading(net, msg.to, msg.form, msg.mask) == Some(m) && (m.Stray() ==> |msg.trail| + 1 <= b.far)
    requires w == if m.Stray() then Pow(b.c, b.far - |msg.trail|) else 1
    ensures w >= 1 && LineWeight(b, msg) >= 1 && (m.Stray() ==> LineWeight(b, msg) == b.c * w)
  {
    LineWeighs(b, msg);
    ReadingIsReadable(net, msg.to, msg.form, msg.mask);
    if m.Stray() {
      PowIsPositive(b.c, b.far - |msg.trail|);
    }
  }

  // ----- floods that end

  function MostLinks(servers: seq<Server>): nat {
    if servers == [] then 0
    else
      var rest, d := MostLinks(servers[1..]), |servers[0].links|;
      if d > rest then d else rest
  }

  lemma {:induction false} MostLinksIsMost(servers: seq<Server>, s: nat)
    requires s < |servers|
    ensures |servers[s].links| <= MostLinks(servers)
  {
    if s > 0 {
      MostLinksIsMost(servers[1..], s - 1);
    }
  }

  function BoundsOf(net: Network): Bounds {
    Bounds(2 * MostLinks(net.servers) + 1, |Pairs(net)| + 1)
  }

  /** No mask with a stray bit of `base` can go on for ever. */
  ghost predicate NoneEndless(net: Network, base: set<(Peer, Mask)>) {
    forall o: Peer, m: Mask :: (o, m) in base && m.Stray() ==> !Endless(net, o, m)
  }

  lemma SoundIsInBounds(net: Network, masks: set<Mask>, base: set<(Peer, Mask)>, st: State)
    requires WellFormedNet(net) && ClosedMasks(net, masks) && Sound(net, masks, st)
    requires st.introduced <= base && NoneEndless(net, base)
    ensures InBounds(net, BoundsOf(net), st)
  {
    forall s | 0 <= s < |net.servers|
      ensures 2 * |net.servers[s].links| < BoundsOf(net).c
    {
      MostLinksIsMost(net.servers, s);
    }
    forall k | 0 <= k < |st.log| && st.log[k] != [] && Last(st.log[k]).mask.Stray()
      ensures |st.log[k]| <= BoundsOf(net).far
    {
      StrayTrailIsShort(net, masks, base, st, k);
    }
  }

  lemma StrayTrailIsShort(net: Network, masks: set<Mask>, base: set<(Peer, Mask)>, st: State, k: nat)
    requires WellFormedNet(net) && ClosedMasks(net, masks) && Sound(net, masks, st)
    requires st.introduced <= base && NoneEndless(net, base)
    requires k < |st.log| && st.log[k] != [] && Last(st.log[k]).mask.Stray()
    ensures |st.log[k]| <= |Pairs(net)| + 1
  {
    var q := st.log[k];
    assert forall b :: b in st.introduced ==> (b.0, b.1) in st.introduced && b.1 in masks;
    StrayWanders(net, masks, st.introduced, q);
    var p, m := Servers(q), q[0].mask;
    assert Last(q).mask == m;
    assert (p[0], m) in base;
    WalkIsShort(net, m, p);
  }

  lemma IntroductionWeighs(net: Network, b: Bounds, masks: set<Mask>, st: State, at: Peer, m: Mask)
    requires Fits(net, st) && at < |net.servers| && b.c >= 1
    ensures Measure(b, masks, Step(net, st, Introduce(at, m))) <= Measure(b, masks, st) + Pow(b.c, b.far + 1)
  {
    var msg := Msg([], at, Joined, m);
    WeightOf(b, st.flight + multiset{msg}, msg);
    assert st.flight + multiset{msg} - multiset{msg} == st.flight;
    PowIsPositive(b.c, b.far + 1);
  }

  /** Deliveries cost what the measure loses and introductions pay. */
  ghost predicate PaidFor(net: Network, masks: set<Mask>, st: State, es: seq<Event>) {
    Deliveries(es)
      <= Measure(BoundsOf(net), masks, st) + Introductions(es) * Pow(BoundsOf(net).c, BoundsOf(net).far + 1)
  }

  ghost predicate StepPaidFor(net: Network, masks: set<Mask>, st: State, e: Event, st': State) {
    Measure(BoundsOf(net), masks, st') + (if e.Deliver? then 1 else 0)
      <= Measure(BoundsOf(net), masks, st) + (if e.Introduce? then 1 else 0) * Pow(BoundsOf(net).c, BoundsOf(net).far + 1)
  }

  lemma StepIsPaidFor(net: Network, masks: set<Mask>, base: set<(Peer, Mask)>, st: State, e: Event)
    requires WellFormedNet(net) && ClosedMasks(net, masks) && Sound(net, masks, st) && Enabled(net, st, e)
    requires st.introduced <= base && NoneEndless(net, base) && (e.Introduce? ==> (e.at, e.mask) in base && e.mask in masks)
    ensures Sound(net, masks, Step(net, st, e)) && Step(net, st, e).introduced <= base
    ensures StepPaidFor(net, masks, st, e, Step(net, st, e))
  {
    StepKeepsSound(net, masks, st, e);
    SoundIsInBounds(net, masks, base, Step(net, st, e));
    match e
    case Introduce(at, m) => IntroductionWeighs(net, BoundsOf(net), masks, st, at, m);
    case Deliver(msg) => DeliveryDecreases(net, BoundsOf(net), masks, st, msg);
  }

  lemma {:induction false} RunIsPaidFor(net: Network, masks: set<Mask>, base: set<(Peer, Mask)>, st: State, es: seq<Event>)
    requires WellFormedNet(net) && ClosedMasks(net, masks) && Sound(net, masks, st) && IsRun(net, st, es)
    requires IntroducesOnly(es, base) && st.introduced <= base && (forall b :: b in base ==> b.1 in masks)
    requires NoneEndless(net, base)
    ensures PaidFor(net, masks, st, es)
    decreases |es|
  {
    if es != [] {
      assert es[0].Introduce? ==> (es[0].at, es[0].mask) in base && (es[0].at, es[0].mask).1 in masks;
      StepIsPaidFor(net, masks, base, st, es[0]);
      RunIsPaidFor(net, masks, base, Step(net, st, es[0]), es[1..]);
      PaidTogether(net, masks, st, Step(net, st, es[0]), es);
    }
  }

  lemma PaidTogether(net: Network, masks: set<Mask>, st: State, st': State, es: seq<Event>)
    requires es != [] && StepPaidFor(net, masks, st, es[0], st') && PaidFor(net, masks, st', es[1..])
    ensures PaidFor(net, masks, st, es)
  {
    var b := BoundsOf(net);
    var d, i := if es[0].Deliver? then 1 else 0, if es[0].Introduce? then 1 else 0;
    AddUp(Deliveries(es[1..]), Measure(b, masks, st'), Introductions(es[1..]), d, Measure(b, masks, st), i,
          Pow(b.c, b.far + 1));
  }

  lemma AddUp(d: nat, m: nat, i: nat, d0: nat, m0: nat, i0: nat, each: nat)
    requires d <= m + i * each && m + d0 <= m0 + i0 * each
    ensures d0 + d <= m0 + (i0 + i) * each
  {
    assert (i0 + i) * each == i0 * each + i * each;
  }

  lemma WithoutEndlessItEnds(net: Network, base: set<(Peer, Mask)>)
    requires WellFormedNet(net) && AllReadable(net, base) && NoneEndless(net, base)
    ensures Ends(net, base)
  {
    var b, masks := BoundsOf(net), Arising(net, base);
    var first, each := Measure(b, masks, Empty(net)), Pow(b.c, b.far + 1);
    ArisingIsClosed(net, base);
    EmptySatisfies(net, masks);
    forall es | IsRun(net, Empty(net), es) && IntroducesOnly(es, base)
      ensures Deliveries(es) <= (first + each) * (Introductions(es) + 1)
    {
      RunIsPaidFor(net, masks, base, Empty(net), es);
      Share(first, each, Introductions(es));
    }
    assert BoundedBy(net, base, first + each);
  }

  lemma Share(first: nat, each: nat, k: nat)
    ensures first + k * each <= (first + each) * (k + 1)
  {
    assert (first + each) * (k + 1) == first * k + first + each * k + each;
  }

  // ----- floods that do not end

  /** A walk that takes a link twice can be made as long as one likes: it stands at step k of p. */
  lemma {:induction false} LongWalk(net: Network, m: Mask, p: seq<Peer>, i: nat, j: nat, n: nat)
    returns (w: seq<Peer>, k: nat)
    requires Walk(net, m, p) && Twice(p, i, j)
    ensures Walk(net, m, w) && w[0] == p[0] && |w| == j + 2 + n
    ensures i <= k <= j && w[|w| - 2] == p[k] && w[|w| - 1] == p[k + 1]
  {
    if n == 0 {
      w, k := p[..j + 2], j;
      forall l: nat | l + 1 < |w|
        ensures WalkStep(net, w, l)
      {
        assert WalkStep(net, p, l);
      }
    } else {
      w, k := LongWalk(net, m, p, i, j, n - 1);
      k := if k == j then i else k;
      assert WalkStep(net, p, k) && WalkStep(net, p, k + 1);
      WalkExtends(net, m, w, p[k + 2]);
      w, k := w + [p[k + 2]], k + 1;
    }
  }

  function Places(p: seq<Peer>, m: Mask): Trail {
    seq(|p|, i requires 0 <= i < |p| => Hold(p[i], m))
  }

  /** The places of a mask with a stray bit along a walk are a chain: no place has it before. */
  lemma {:induction false} WalkIsChain(net: Network, m: Mask, p: seq<Peer>)
    requires Walk(net, m, p) && Readable(net, m) && m.WellFormed() && m.Stray()
    ensures Chain(net, {(p[0], m)}, Places(p, m))
    decreases |p|
  {
    var q := Places(p, m);
    if |p| > 1 {
      var r := p[..|p| - 1];
      forall i: nat | i + 1 < |r|
        ensures WalkStep(net, r, i)
      {
        assert WalkStep(net, p, i);
      }
      WalkIsChain(net, m, r);
      assert Places(r, m) == q[..|q| - 1];
      StrayIsUnreachable(m, m);
      assert WalkStep(net, p, |p| - 2);
      if TurnsBack(q) {
        assert WalkStep(net, p, |p| - 3);
        JoinedReading(net, p[|p| - 1], m);
      }
    }
  }

  lemma EndlessDoesNotEnd(net: Network, base: set<(Peer, Mask)>, o: Peer, m: Mask, n: nat)
    requires WellFormedNet(net) && AllReadable(net, base) && (o, m) in base && m.Stray() && Endless(net, o, m)
    ensures !BoundedBy(net, base, n)
  {
    var p: seq<Peer>, i: nat, j: nat :| Walk(net, m, p) && p[0] == o && Twice(p, i, j);
    var w, _ := LongWalk(net, m, p, i, j, 2 * n);
    assert (o, m).1 == m && GoodToken(net.tokens, m.host);
    WalkIsChain(net, m, w);
    var es := ChainRun(net, {(w[0], m)}, Places(w, m));
    assert IntroducesOnly(es, base);
    assert Deliveries(es) > n * (Introductions(es) + 1);
  }

  /** The flood of G-lines from `base` ends exactly when no mask among them with a stray bit finds a walk from where
      it is introduced that takes a link twice in the same direction. */
  lemma EndsUnlessEndless(net: Network, base: set<(Peer, Mask)>)
    requires WellFormedNet(net) && AllReadable(net, base)
    ensures Ends(net, base) <==> NoneEndless(net, base)
  {
    if NoneEndless(net, base) {
      WithoutEndlessItEnds(net, base);
    } else {
      var o: Peer, m: Mask :| (o, m) in base && m.Stray() && Endless(net, o, m);
      forall n: nat
        ensures !BoundedBy(net, base, n)
      {
        EndlessDoesNotEnd(net, base, o, m, n);
      }
    }
  }
}
