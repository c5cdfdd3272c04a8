/** TBURST on a tree of servers that link up: every server bursts its own topic, bursts are delivered in
    any order, and every server passes on what it hears (modules/m_tburst.c:119-155). */
module TopicFlood {
  import opened Seqs
  import opened Tree
  import opened Tburst

  /** A burst of `origin` on its way over a link. */
  datatype Msg = Msg(origin: Server, from: Server, to: Server, burst: Burst)

  /** `heard` records which server has got the burst of which: (origin, server). */
  datatype State = State(chans: seq<Chan>, flight: set<Msg>, heard: set<(Server, Server)>)

  /** The channel on all servers before they hear of each other: one channel TS, and topics as
      set_channel_topic() stores them. */
  ghost predicate Initial(net: Net, init: seq<Chan>) {
    && IsTree(net) && |init| == |net|
    && (forall s :: 0 <= s < |net| ==> init[s].ts == init[0].ts && init[s].time >= 0)
    && (forall s :: 0 <= s < |net| && init[s].topic.Some? ==> init[s].time > 0 && Storable(init[s].topic.value))
    && (forall s, t :: 0 <= s < |net| && 0 <= t < |net| && init[s].time == init[t].time ==> init[s] == init[t])
  }

  /** send_tb(): a server that never had a topic bursts none. */
  predicate Bursts(init: seq<Chan>, s: Server) {
    s < |init| && init[s].time != 0
  }

  function Start(net: Net, init: seq<Chan>): State {
    State(init,
          set s: Server, t: Server | s < |net| && t < |net| && Linked(net, s, t) && Bursts(init, s) ::
            Msg(s, s, t, BurstOf(init[s])),
          {})
  }

  function Forwards(net: Net, m: Msg): set<Msg> {
    set t: Server | t < |net| && Linked(net, m.to, t) && t != m.from :: Msg(m.origin, m.to, t, m.burst)
  }

  function Deliver(net: Net, st: State, m: Msg): State
    requires m.to < |st.chans|
  {
    State(st.chans[m.to := Receive(st.chans[m.to], m.burst)],
          st.flight - {m} + Forwards(net, m),
          st.heard + {(m.origin, m.to)})
  }

  /** The links of s are those to its neighbours, and all of them support TBURST. */
  ghost predicate LinksOf(net: Net, s: Server, links: seq<Link>) {
    && (forall i, j :: 0 <= i < j < |links| ==> links[i].peer != links[j].peer)
    && (forall l :: l in links ==> l.tburst && l.peer < |net| && Linked(net, s, l.peer))
    && (forall t: Server :: t < |net| && Linked(net, s, t) ==> exists l :: l in links && l.peer == t)
  }

  /** The lines that the handler sends on are the copies that Deliver() puts in flight. */
  lemma HandlerForwards(net: Net, links: seq<Link>, m: Msg, t: Server)
    requires LinksOf(net, m.to, links) && t < |net| && Linked(net, m.to, t)
    ensures multiset(Relayed(links, m.from, m.burst))[Tburst(t, m.burst)]
         == if Msg(m.origin, m.to, t, m.burst) in Forwards(net, m) then 1 else 0
    ensures multiset(Relayed(links, m.from, m.burst))[Tb(t, m.burst.info, m.burst.text)] == 0
  {
    var l :| l in links && l.peer == t;
    RelayedToAllOthers(links, m.from, m.burst, l);
  }

  // ----- the invariant

  predicate Covers(net: Net, m: Msg, x: Server)
    requires IsTree(net) && m.from < |net| && x < |net|
  {
    Beyond(net, m.from, m.to, x)
  }

  ghost predicate Sound(net: Net, init: seq<Chan>, m: Msg) {
    && m.from < |net| && m.to < |net| && Linked(net, m.from, m.to)
    && Bursts(init, m.origin) && m.burst == BurstOf(init[m.origin])
  }

  ghost predicate OnTheWay(net: Net, st: State, o: Server, x: Server)
    requires IsTree(net) && x < |net|
  {
    exists m :: m in st.flight && m.origin == o && m.from < |net| && Covers(net, m, x)
  }

  /** For each burst and each server, either the server has heard it, or it is on its way there, once. */
  ghost predicate Invariant(net: Net, init: seq<Chan>, st: State)
    requires Initial(net, init)
  {
    && |st.chans| == |net|
    && (forall m :: m in st.flight ==> Sound(net, init, m))
    && (forall m, x: Server :: m in st.flight && x < |net| && Covers(net, m, x) ==>
          x != m.origin && (m.origin, x) !in st.heard)
    && (forall m, n, x: Server {:trigger Covers(net, m, x), Covers(net, n, x)} ::
          m in st.flight && n in st.flight && m.origin == n.origin && x < |net| ==>
            Covers(net, m, x) && Covers(net, n, x) ==> m == n)
    && (forall o: Server, x: Server :: Bursts(init, o) && x < |net| && x != o ==>
          (o, x) in st.heard || OnTheWay(net, st, o, x))
    && (forall o: Server, x: Server :: (o, x) in st.heard ==> Bursts(init, o) && x < |net| && x != o)
  }

  lemma StartSatisfies(net: Net, init: seq<Chan>)
    requires Initial(net, init)
    ensures Invariant(net, init, Start(net, init))
  {
    var st := Start(net, init);
    forall o: Server, x: Server | Bursts(init, o) && x < |net| && x != o
      ensures OnTheWay(net, st, o, x)
    {
      HopIsLinked(net, o, x);
      var m := Msg(o, o, Hop(net, o, x), BurstOf(init[o]));
      assert m in st.flight && Covers(net, m, x);
    }
  }

  /** What the copies of a delivered burst cover: all it covered itself, but for its receiver. */
  lemma ForwardsCover(net: Net, m: Msg, n: Msg, x: Server)
    requires IsTree(net) && m.from < |net| && m.to < |net| && Linked(net, m.from, m.to) && x < |net|
    requires n in Forwards(net, m) && Covers(net, n, x)
    ensures Covers(net, m, x) && x != m.to && n.to == Hop(net, m.to, x)
  {
    BeyondSplits(net, m.from, m.to, x);
  }

  lemma CoveredIsForwarded(net: Net, m: Msg, x: Server) returns (n: Msg)
    requires IsTree(net) && m.from < |net| && m.to < |net| && Linked(net, m.from, m.to) && x < |net|
    requires Covers(net, m, x) && x != m.to
    ensures n in Forwards(net, m) && Covers(net, n, x) && n.origin == m.origin && n.from == m.to
  {
    BeyondSplits(net, m.from, m.to, x);
    HopIsLinked(net, m.to, x);
    n := Msg(m.origin, m.to, Hop(net, m.to, x), m.burst);
  }

  lemma ReceiverIsCovered(net: Net, m: Msg)
    requires IsTree(net) && m.from < |net| && m.to < |net| && Linked(net, m.from, m.to)
    ensures Covers(net, m, m.to)
  {
    OppositeSides(net, m.from, m.to, m.to);
  }

  lemma ForwardsAreSound(net: Net, init: seq<Chan>, m: Msg)
    requires Initial(net, init) && Sound(net, init, m)
    ensures forall n :: n in Forwards(net, m) ==> Sound(net, init, n) && n.origin == m.origin
  {
  }

  /** Every copy in flight after a delivery was there before or covers a part of what was delivered. */
  lemma After(net: Net, init: seq<Chan>, st: State, m: Msg, n: Msg, x: Server) returns (was: Msg)
    requires Initial(net, init) && Invariant(net, init, st) && m in st.flight
    requires n in Deliver(net, st, m).flight && x < |net| && n.from < |net| && Covers(net, n, x)
    ensures was in st.flight && was.origin == n.origin && Covers(net, was, x)
    ensures was == m ==> n in Forwards(net, m) && x != m.to && n.to == Hop(net, m.to, x)
    ensures was != m ==> n == was
  {
    if n in Forwards(net, m) {
      ForwardsCover(net, m, n, x);
      was := m;
    } else {
      was := n;
    }
  }

  lemma DeliveryKeepsInvariant(net: Net, init: seq<Chan>, st: State, m: Msg)
    requires Initial(net, init) && Invariant(net, init, st) && m in st.flight
    ensures Invariant(net, init, Deliver(net, st, m))
    ensures (m.origin, m.to) !in st.heard
  {
    var st' := Deliver(net, st, m);
    ReceiverIsCovered(net, m);
    ForwardsAreSound(net, init, m);
    forall n, x: Server | n in st'.flight && x < |net| && Covers(net, n, x)
      ensures x != n.origin && (n.origin, x) !in st'.heard
    {
      var was := After(net, init, st, m, n, x);
    }
    forall k, n, x: Server | k in st'.flight && n in st'.flight && k.origin == n.origin && x < |net|
                             && Covers(net, k, x) && Covers(net, n, x)
      ensures k == n
    {
      var a := After(net, init, st, m, k, x);
      var b := After(net, init, st, m, n, x);
      assert a == b;
    }
    forall o: Server, x: Server | Bursts(init, o) && x < |net| && x != o
      ensures (o, x) in st'.heard || OnTheWay(net, st', o, x)
    {
      StillOnTheWay(net, init, st, m, o, x);
    }
  }

  lemma StillOnTheWay(net: Net, init: seq<Chan>, st: State, m: Msg, o: Server, x: Server)
    requires Initial(net, init) && Invariant(net, init, st) && m in st.flight
    requires Bursts(init, o) && x < |net| && x != o
    ensures (o, x) in Deliver(net, st, m).heard || OnTheWay(net, Deliver(net, st, m), o, x)
  {
    if (o, x) !in st.heard {
      var n :| n in st.flight && n.origin == o && n.from < |net| && Covers(net, n, x);
      if n != m {
        assert n in Deliver(net, st, m).flight;
      } else if x != m.to {
        var k := CoveredIsForwarded(net, m, x);
        assert k in Deliver(net, st, m).flight;
      }
    }
  }

  /** No copy that a delivery sends is already in flight: keeping them in a set loses none. */
  lemma ForwardsAreNew(net: Net, init: seq<Chan>, st: State, m: Msg)
    requires Initial(net, init) && Invariant(net, init, st) && m in st.flight
    ensures st.flight !! Forwards(net, m)
  {
    ForwardsAreSound(net, init, m);
    forall n | n in Forwards(net, m)
      ensures n !in st.flight
    {
      ReceiverIsCovered(net, n);
      ForwardsCover(net, m, n, n.to);
      ReceiverIsCovered(net, m);
    }
  }

  // ----- runs

  /** The deliveries ms can happen one after the other from st. */
  ghost predicate IsRun(net: Net, st: State, ms: seq<Msg>)
    decreases |ms|
  {
    ms == [] || (ms[0] in st.flight && ms[0].to < |st.chans| && IsRun(net, Deliver(net, st, ms[0]), ms[1..]))
  }

  ghost function Final(net: Net, st: State, ms: seq<Msg>): State
    requires IsRun(net, st, ms)
    decreases |ms|
  {
    if ms == [] then st else Final(net, Deliver(net, st, ms[0]), ms[1..])
  }

  lemma {:induction false} RunKeepsInvariant(net: Net, init: seq<Chan>, st: State, ms: seq<Msg>)
    requires Initial(net, init) && Invariant(net, init, st) && IsRun(net, st, ms)
    ensures Invariant(net, init, Final(net, st, ms)) && |Final(net, st, ms).heard| == |st.heard| + |ms|
    decreases |ms|
  {
    if ms != [] {
      DeliveryKeepsInvariant(net, init, st, ms[0]);
      RunKeepsInvariant(net, init, Deliver(net, st, ms[0]), ms[1..]);
    }
  }

  /** Every burst paired with every other server. */
  function Pairs(net: Net, init: seq<Chan>): set<(Server, Server)>
    requires |init| == |net|
  {
    set o: Server, x: Server | o < |net| && x < |net| && x != o && Bursts(init, o) :: (o, x)
  }

  lemma HeardArePairs(net: Net, init: seq<Chan>, st: State)
    requires Initial(net, init) && Invariant(net, init, st)
    ensures st.heard <= Pairs(net, init)
  {
    forall p | p in st.heard
      ensures p in Pairs(net, init)
    {
      assert p == (p.0, p.1);
    }
  }

  lemma AllHeard(net: Net, init: seq<Chan>, st: State)
    requires Initial(net, init) && Invariant(net, init, st) && st.flight == {}
    ensures st.heard == Pairs(net, init)
  {
    HeardArePairs(net, init, st);
    forall p | p in Pairs(net, init)
      ensures p in st.heard
    {
      assert !OnTheWay(net, st, p.0, p.1);
    }
  }

  lemma InFlightIsUnheard(net: Net, init: seq<Chan>, st: State, m: Msg)
    requires Initial(net, init) && Invariant(net, init, st) && m in st.flight
    ensures (m.origin, m.to) in Pairs(net, init) && (m.origin, m.to) !in st.heard
  {
    ReceiverIsCovered(net, m);
  }

  lemma OverWhenAllHeard(net: Net, init: seq<Chan>, st: State)
    requires Initial(net, init) && Invariant(net, init, st)
    ensures |st.heard| <= |Pairs(net, init)|
    ensures st.flight == {} <==> |st.heard| == |Pairs(net, init)|
    ensures st.flight == {} ==> st.heard == Pairs(net, init)
  {
    HeardArePairs(net, init, st);
    SubsetSize(st.heard, Pairs(net, init));
    if st.flight == {} {
      AllHeard(net, init, st);
    } else {
      var m :| m in st.flight;
      InFlightIsUnheard(net, init, st, m);
    }
  }

  /** The flood ends, and it is over exactly when every server has heard every other server's burst once. */
  lemma EveryServerHearsEveryBurstOnce(net: Net, init: seq<Chan>, ms: seq<Msg>)
    requires Initial(net, init) && IsRun(net, Start(net, init), ms)
    ensures |ms| <= |Pairs(net, init)|
    ensures Final(net, Start(net, init), ms).flight == {} <==> |ms| == |Pairs(net, init)|
    ensures Final(net, Start(net, init), ms).flight == {} ==>
              Final(net, Start(net, init), ms).heard == Pairs(net, init)
  {
    StartSatisfies(net, init);
    RunKeepsInvariant(net, init, Start(net, init), ms);
    OverWhenAllHeard(net, init, Final(net, Start(net, init), ms));
  }

  // ----- topics

  /** What is known of every server's channel: a topic it has heard is not newer than what it has. */
  ghost predicate Current(net: Net, init: seq<Chan>, w: Server, st: State)
    requires |init| == |net| == |st.chans| && w < |net|
  {
    forall s: Server :: s < |net| ==>
      && st.chans[s].ts == init[0].ts
      && init[s].time <= st.chans[s].time <= init[w].time
      && (forall o: Server :: o < |net| && (o, s) in st.heard && init[o].topic.Some? ==> init[o].time <= st.chans[s].time)
  }

  ghost predicate Newest(init: seq<Chan>, w: Server) {
    w < |init| && forall s :: 0 <= s < |init| ==> init[s].time <= init[w].time
  }

  /** Whoever has the newest time has the newest topic. */
  ghost predicate NewestHeld(net: Net, init: seq<Chan>, w: Server, st: State)
    requires |init| == |net| == |st.chans| && w < |net|
  {
    forall s: Server :: s < |net| && st.chans[s].time == init[w].time ==> st.chans[s].topic == init[w].topic
  }

  lemma DeliveryKeepsCurrent(net: Net, init: seq<Chan>, w: Server, st: State, m: Msg)
    requires Initial(net, init) && Newest(init, w) && Invariant(net, init, st) && m in st.flight
    requires Current(net, init, w, st)
    ensures Current(net, init, w, Deliver(net, st, m))
  {
  }

  lemma DeliveryKeepsNewest(net: Net, init: seq<Chan>, w: Server, st: State, m: Msg)
    requires Initial(net, init) && Newest(init, w) && Invariant(net, init, st) && m in st.flight
    requires Current(net, init, w, st) && NewestHeld(net, init, w, st) && init[w].topic.Some?
    ensures NewestHeld(net, init, w, Deliver(net, st, m))
  {
    var own := init[m.origin];
    if own.topic.Some? && Accepts(st.chans[m.to], m.burst) {
      BurstCarriesTheTopic(st.chans[m.to], own);
    }
  }

  lemma {:induction false} RunKeepsNewest(net: Net, init: seq<Chan>, w: Server, st: State, ms: seq<Msg>)
    requires Initial(net, init) && Newest(init, w) && Invariant(net, init, st) && IsRun(net, st, ms)
    requires Current(net, init, w, st)
    ensures |Final(net, st, ms).chans| == |net| && Current(net, init, w, Final(net, st, ms))
    ensures init[w].topic.Some? && NewestHeld(net, init, w, st) ==> NewestHeld(net, init, w, Final(net, st, ms))
    decreases |ms|
  {
    if ms != [] {
      var next := Deliver(net, st, ms[0]);
      DeliveryKeepsInvariant(net, init, st, ms[0]);
      DeliveryKeepsCurrent(net, init, w, st, ms[0]);
      if init[w].topic.Some? && NewestHeld(net, init, w, st) {
        DeliveryKeepsNewest(net, init, w, st, ms[0]);
      }
      RunKeepsNewest(net, init, w, next, ms[1..]);
    }
  }

  /** When the newest entry is a topic, every server ends up with exactly that topic and its time. */
  lemma NewestTopicIsHeld(net: Net, init: seq<Chan>, w: Server, ms: seq<Msg>)
    requires Initial(net, init) && Newest(init, w) && init[w].topic.Some?
    requires IsRun(net, Start(net, init), ms) && Final(net, Start(net, init), ms).flight == {}
    ensures
      var end := Final(net, Start(net, init), ms);
      |end.chans| == |net| && forall s :: 0 <= s < |net| ==> end.chans[s] == init[w]
  {
    var st := Start(net, init);
    var end := Final(net, st, ms);
    StartSatisfies(net, init);
    RunKeepsInvariant(net, init, st, ms);
    RunKeepsNewest(net, init, w, st, ms);
    AllHeard(net, init, end);
    forall s: Server | s < |net|
      ensures end.chans[s] == init[w]
    {
      assert s != w ==> (w, s) in end.heard;
    }
  }

  // ----- when the newest entry is no topic

  /** Every topic there is carries the oldest time. */
  ghost predicate TopicsAreOldest(init: seq<Chan>) {
    forall o, s :: 0 <= o < |init| && 0 <= s < |init| && init[o].topic.Some? ==> init[o].time <= init[s].time
  }

  /** No topic is ever taken, and whoever has heard the unsetting has none. */
  ghost predicate Unsetting(net: Net, init: seq<Chan>, w: Server, st: State)
    requires |init| == |net| == |st.chans|
  {
    forall s: Server :: s < |net| ==>
      && st.chans[s].ts == init[0].ts && st.chans[s].time == init[s].time
      && (st.chans[s].topic.None? || (st.chans[s] == init[s] && (w, s) !in st.heard))
  }

  lemma DeliveryKeepsUnsetting(net: Net, init: seq<Chan>, w: Server, st: State, m: Msg)
    requires Initial(net, init) && Newest(init, w) && Invariant(net, init, st) && m in st.flight
    requires init[w].topic.None? && TopicsAreOldest(init) && Unsetting(net, init, w, st)
    ensures Unsetting(net, init, w, Deliver(net, st, m))
  {
    assert init[m.origin].topic.Some? ==> init[m.origin].time <= init[m.to].time;
    assert init[m.to].time <= init[w].time;
    if init[m.to].time == init[w].time {
      assert init[m.to] == init[w];
    }
  }

  lemma {:induction false} RunKeepsUnsetting(net: Net, init: seq<Chan>, w: Server, st: State, ms: seq<Msg>)
    requires Initial(net, init) && Newest(init, w) && Invariant(net, init, st) && IsRun(net, st, ms)
    requires init[w].topic.None? && TopicsAreOldest(init) && Unsetting(net, init, w, st)
    ensures |Final(net, st, ms).chans| == |net| && Unsetting(net, init, w, Final(net, st, ms))
    decreases |ms|
  {
    if ms != [] {
      DeliveryKeepsInvariant(net, init, st, ms[0]);
      DeliveryKeepsUnsetting(net, init, w, st, ms[0]);
      RunKeepsUnsetting(net, init, w, Deliver(net, st, ms[0]), ms[1..]);
    }
  }

  lemma UnsettingReachesAll(net: Net, init: seq<Chan>, w: Server, ms: seq<Msg>)
    requires Initial(net, init) && Newest(init, w) && init[w].topic.None? && TopicsAreOldest(init)
    requires IsRun(net, Start(net, init), ms) && Final(net, Start(net, init), ms).flight == {}
    ensures Agreed(net, init, w, Final(net, Start(net, init), ms))
  {
    var st := Start(net, init);
    var end := Final(net, st, ms);
    StartSatisfies(net, init);
    RunKeepsInvariant(net, init, st, ms);
    RunKeepsUnsetting(net, init, w, st, ms);
    AllHeard(net, init, end);
    forall s: Server | s < |net|
      ensures end.chans[s].topic.None?
    {
      assert init[s].time <= init[w].time;
      assert s != w && Bursts(init, w) ==> (w, s) in end.heard;
    }
  }

  /** All servers have the topic of w. */
  ghost predicate Agreed(net: Net, init: seq<Chan>, w: Server, st: State)
    requires w < |init|
  {
    |st.chans| == |net| && forall s :: 0 <= s < |net| ==> st.chans[s].topic == init[w].topic
  }

  // ----- a run in which a later unsetting is lost

  lemma ConsRun(net: Net, st: State, m: Msg, more: seq<Msg>)
    requires m in st.flight && m.to < |st.chans| && IsRun(net, Deliver(net, st, m), more)
    ensures IsRun(net, st, [m] + more) && Final(net, st, [m] + more) == Final(net, Deliver(net, st, m), more)
  {
    assert ([m] + more)[1..] == more;
  }

  ghost predicate Other(net: Net, init: seq<Chan>, m: Msg, late: int) {
    Sound(net, init, m) && init[m.origin].time != late
  }

  /** None of the deliveries is of a burst of that time. */
  ghost predicate NoneOf(net: Net, init: seq<Chan>, ms: seq<Msg>, late: int) {
    forall i :: 0 <= i < |ms| ==> Other(net, init, ms[i], late)
  }

  lemma ConsNone(net: Net, init: seq<Chan>, m: Msg, more: seq<Msg>, late: int)
    requires Other(net, init, m, late) && NoneOf(net, init, more, late)
    ensures NoneOf(net, init, [m] + more, late)
  {
  }

  /** From any state, all bursts but those of a given time can be delivered first. */
  lemma {:induction false} Drain(net: Net, init: seq<Chan>, st: State, late: int) returns (ms: seq<Msg>)
    requires Initial(net, init) && Invariant(net, init, st)
    ensures IsRun(net, st, ms) && NoneOf(net, init, ms, late)
    ensures forall m :: m in Final(net, st, ms).flight ==> Sound(net, init, m) && init[m.origin].time == late
    decreases |Pairs(net, init)| - |st.heard|
  {
    if m :| m in st.flight && init[m.origin].time != late {
      var next := Deliver(net, st, m);
      DeliveryKeepsInvariant(net, init, st, m);
      OverWhenAllHeard(net, init, next);
      var more := Drain(net, init, next, late);
      ms := [m] + more;
      ConsRun(net, st, m, more);
      ConsNone(net, init, m, more, late);
    } else {
      ms := [];
    }
  }

  lemma DrainAll(net: Net, init: seq<Chan>, st: State) returns (ms: seq<Msg>)
    requires Initial(net, init) && Invariant(net, init, st)
    ensures IsRun(net, st, ms) && Final(net, st, ms).flight == {}
  {
    ms := Drain(net, init, st, -1);
    assert forall m :: m in Final(net, st, ms).flight ==> Sound(net, init, m);
  }

  /** No topic is later than that of o. */
  ghost predicate LatestTopic(init: seq<Chan>, o: Server) {
    && o < |init| && init[o].topic.Some?
    && forall q :: 0 <= q < |init| && init[q].topic.Some? ==> init[q].time <= init[o].time
  }

  lemma {:induction false} EarlierTopicsOnly(net: Net, init: seq<Chan>, st: State, ms: seq<Msg>, o: Server, s: Server)
    requires Initial(net, init) && LatestTopic(init, o) && s < |net| == |st.chans| && IsRun(net, st, ms)
    requires NoneOf(net, init, ms, init[o].time)
    requires st.chans[s].time < init[o].time && st.chans[s].ts == init[0].ts
    ensures
      var end := Final(net, st, ms);
      |end.chans| == |net| && end.chans[s].time < init[o].time && end.chans[s].ts == init[0].ts
    decreases |ms|
  {
    if ms != [] {
      assert Other(net, init, ms[0], init[o].time);
      var q := ms[0].origin;
      assert init[q].topic.Some? ==> init[q].time <= init[o].time;
      EarlierTopicsOnly(net, init, Deliver(net, st, ms[0]), ms[1..], o, s);
    }
  }

  /** When only copies of o's burst are left, a server that was behind it stays behind or takes its topic. */
  lemma {:induction false} ThenTheLatest(net: Net, init: seq<Chan>, st: State, ms: seq<Msg>, o: Server, s: Server)
    requires Initial(net, init) && LatestTopic(init, o) && s < |net| == |st.chans| && IsRun(net, st, ms)
    requires forall m :: m in st.flight ==> m.burst == BurstOf(init[o])
    requires st.chans[s] == init[o] || (st.chans[s].time < init[o].time && st.chans[s].ts == init[0].ts)
    ensures
      var end := Final(net, st, ms);
      |end.chans| == |net| && (end.chans[s] == init[o] || end.chans[s].time < init[o].time)
    decreases |ms|
  {
    if ms != [] {
      if ms[0].to == s && Accepts(st.chans[s], ms[0].burst) {
        BurstCarriesTheTopic(st.chans[s], init[o]);
      }
      ThenTheLatest(net, init, Deliver(net, st, ms[0]), ms[1..], o, s);
    }
  }

  lemma {:induction false} RunsJoin(net: Net, st: State, a: seq<Msg>, b: seq<Msg>)
    requires IsRun(net, st, a) && IsRun(net, Final(net, st, a), b)
    ensures IsRun(net, st, a + b) && Final(net, st, a + b) == Final(net, Final(net, st, a), b)
    decreases |a|
  {
    if a == [] {
      assert a + b == b;
    } else {
      assert (a + b)[1..] == a[1..] + b;
      RunsJoin(net, Deliver(net, st, a[0]), a[1..], b);
    }
  }

  lemma LatestTopicExists(init: seq<Chan>, o: Server) returns (latest: Server)
    requires o < |init| && init[o].topic.Some?
    ensures LatestTopic(init, latest) && init[o].time <= init[latest].time
  {
    latest := o;
    for q := 0 to |init|
      invariant latest < |init| && init[latest].topic.Some? && init[o].time <= init[latest].time
      invariant forall p :: 0 <= p < q && init[p].topic.Some? ==> init[p].time <= init[latest].time
    {
      if init[q].topic.Some? && init[latest].time < init[q].time {
        latest := q;
      }
    }
  }

  /** All other bursts first, then the latest topic: it stays with a server that was behind it. */
  lemma UnsettingCanBeLost(net: Net, init: seq<Chan>, w: Server, o: Server, s: Server) returns (ms: seq<Msg>)
    requires Initial(net, init) && Newest(init, w) && init[w].topic.None?
    requires LatestTopic(init, o) && s < |net| && init[s].time < init[o].time
    ensures IsRun(net, Start(net, init), ms) && Final(net, Start(net, init), ms).flight == {}
    ensures !Agreed(net, init, w, Final(net, Start(net, init), ms))
  {
    var st := Start(net, init);
    StartSatisfies(net, init);
    var a := Drain(net, init, st, init[o].time);
    var mid := Final(net, st, a);
    RunKeepsInvariant(net, init, st, a);
    EarlierTopicsOnly(net, init, st, a, o, s);
    var b := DrainAll(net, init, mid);
    var end := Final(net, mid, b);
    RunKeepsInvariant(net, init, mid, b);
    ThenTheLatest(net, init, mid, b, o, s);
    RunsJoin(net, st, a, b);
    ms := a + b;
    RunKeepsNewest(net, init, w, st, ms);
    AllHeard(net, init, end);
    assert (o, s) in end.heard;
  }

  /** However the bursts are delivered, every server ends up with the newest topic, exactly when the newest
      entry is a topic or every topic carries the oldest time. */
  lemma NewestTopicWins(net: Net, init: seq<Chan>, w: Server)
    requires Initial(net, init) && Newest(init, w)
    ensures (forall ms :: IsRun(net, Start(net, init), ms) && Final(net, Start(net, init), ms).flight == {} ==>
              Agreed(net, init, w, Final(net, Start(net, init), ms)))
        <==> init[w].topic.Some? || TopicsAreOldest(init)
  {
    if init[w].topic.Some? || TopicsAreOldest(init) {
      forall ms | IsRun(net, Start(net, init), ms) && Final(net, Start(net, init), ms).flight == {}
        ensures Agreed(net, init, w, Final(net, Start(net, init), ms))
      {
        if init[w].topic.Some? {
          NewestTopicIsHeld(net, init, w, ms);
        } else {
          UnsettingReachesAll(net, init, w, ms);
        }
      }
    } else {
      var q, s :| 0 <= q < |init| && 0 <= s < |init| && init[q].topic.Some? && init[q].time > init[s].time;
      var o := LatestTopicExists(init, q);
      var ms := UnsettingCanBeLost(net, init, w, o, s);
    }
  }
}
