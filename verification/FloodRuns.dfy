/** Runs of the flood that follow a given chain: whatever can be reached is reached in some run
    (modules/m_gline.c:149-212). */
module FloodRuns {
  import opened Options
  import opened Masks
  import opened Gline
  import opened GlineNet
  import opened Flood
  import opened FloodOutcome

  function Deliveries(es: seq<Event>): nat {
    if es == [] then 0 else (if es[0].Deliver? then 1 else 0) + Deliveries(es[1..])
  }

  function Introductions(es: seq<Event>): nat {
    if es == [] then 0 else (if es[0].Introduce? then 1 else 0) + Introductions(es[1..])
  }

  lemma {:induction false} CountsExtend(es: seq<Event>, e: Event)
    ensures Deliveries(es + [e]) == Deliveries(es) + (if e.Deliver? then 1 else 0)
    ensures Introductions(es + [e]) == Introductions(es) + (if e.Introduce? then 1 else 0)
  {
    if es != [] {
      CountsExtend(es[1..], e);
      assert (es + [e])[0] == es[0] && (es + [e])[1..] == es[1..] + [e];
    } else {
      assert es + [e] == [e] && [e][1..] == [];
    }
  }

  lemma {:induction false} RunExtends(net: Network, st: State, es: seq<Event>, e: Event)
    requires IsRun(net, st, es) && Enabled(net, Final(net, st, es), e)
    ensures |Final(net, st, es).tables| == |net.servers| && IsRun(net, st, es + [e])
    ensures Final(net, st, es + [e]) == Step(net, Final(net, st, es), e)
    decreases |es|
  {
    if es == [] {
      assert ([] + [e])[0] == e && ([] + [e])[1..] == [];
      assert IsRun(net, Step(net, st, e), []);
    } else {
      RunExtends(net, Step(net, st, es[0]), es[1..], e);
      assert (es + [e])[0] == es[0] && (es + [e])[1..] == es[1..] + [e];
    }
  }

  /** Everything in the tables is a place of q. */
  ghost predicate HoldsOnly(net: Network, st: State, q: Trail)
    requires |st.tables| == |net.servers|
  {
    forall s: Peer, u: Mask :: s < |net.servers| && u in st.tables[s] ==> Hold(s, u) in q
  }

  function Sender(q: Trail): Option<Peer> {
    if |q| < 2 then None else Some(q[|q| - 2].at)
  }

  /** All that was sent with the last placement is on its way. */
  ghost predicate AllSent(net: Network, st: State, q: Trail)
    requires q != [] && Last(q).at < |net.servers|
  {
    forall x :: x in Sends(net, q, Sender(q)) ==> x in st.flight
  }

  /** A new mask is placed and sent on. */
  lemma NextIsPlaced(net: Network, st: State, msg: Msg, m: Mask)
    requires Fits(net, st) && msg in st.flight && HoldsOnly(net, st, msg.trail)
    requires Reading(net, msg.to, msg.form, msg.mask) == Some(m) && IsNew(NewTrail(msg, m))
    ensures
      var st', q := Step(net, st, Deliver(msg)), NewTrail(msg, m);
      && |st'.tables| == |net.servers| && HoldsOnly(net, st', q) && m in st'.tables[msg.to] && AllSent(net, st', q)
      && st'.introduced == st.introduced && st'.log == st.log + [q]
  {
    var st', q := Step(net, st, Deliver(msg)), NewTrail(msg, m);
    forall i | 0 <= i < |st.tables[msg.to]|
      ensures !Matching(m, st.tables[msg.to][i])
    {
      assert st.tables[msg.to][i] in st.tables[msg.to];
      var j :| 0 <= j < |msg.trail| && msg.trail[j] == Hold(msg.to, st.tables[msg.to][i]);
      assert q[j] == msg.trail[j];
    }
    assert msg.trail != [] ==> q[|q| - 2] == Last(msg.trail);
    assert Sender(q) == msg.From();
    forall s: Peer, u: Mask | s < |net.servers| && u in st'.tables[s]
      ensures Hold(s, u) in q
    {
      assert q[|q| - 1] == Hold(msg.to, m);
      if u in st.tables[s] {
        var j :| 0 <= j < |msg.trail| && msg.trail[j] == Hold(s, u);
        assert q[j] == msg.trail[j];
      }
    }
  }

  /** The run has followed q, from its introduction on. */
  ghost predicate Followed(net: Network, es: seq<Event>, q: Trail)
    requires q != [] && Last(q).at < |net.servers|
  {
    && IsRun(net, Empty(net), es) && Deliveries(es) == |q| && Introductions(es) == 1
    && IntroducesOnly(es, {(q[0].at, q[0].mask)})
    && var st := Final(net, Empty(net), es);
       Fits(net, st) && HoldsOnly(net, st, q) && Last(q).mask in st.tables[Last(q).at] && AllSent(net, st, q)
  }

  lemma Introduced(net: Network, at: Peer, m: Mask) returns (es: seq<Event>)
    requires at < |net.servers|
    ensures es == [Introduce(at, m)] && IsRun(net, Empty(net), es) && Deliveries(es) == 0 && Introductions(es) == 1
    ensures Final(net, Empty(net), es) == Step(net, Empty(net), Introduce(at, m))
  {
    es := [Introduce(at, m)];
    RunExtends(net, Empty(net), [], es[0]);
    assert [] + es == es;
    CountsExtend([], es[0]);
  }

  lemma FollowStart(net: Network, q: Trail) returns (es: seq<Event>)
    requires WellFormedNet(net) && |q| == 1 && Takes(net, q[0].at, q[0].mask)
    ensures Followed(net, es, q)
  {
    es := Introduced(net, q[0].at, q[0].mask);
    StartIsPlaced(net, q);
    es := FollowOn(net, es, Msg([], q[0].at, Joined, q[0].mask));
  }

  lemma StartIsPlaced(net: Network, q: Trail)
    requires WellFormedNet(net) && |q| == 1 && Takes(net, q[0].at, q[0].mask)
    ensures
      var msg := Msg([], q[0].at, Joined, q[0].mask);
      var st := Step(net, Empty(net), Introduce(q[0].at, q[0].mask));
      var st' := Step(net, st, Deliver(msg));
      && Fits(net, st) && msg in st.flight && Fits(net, st')
      && HoldsOnly(net, st', q) && Last(q).mask in st'.tables[Last(q).at] && AllSent(net, st', q)
  {
    var msg := Msg([], q[0].at, Joined, q[0].mask);
    var st := Step(net, Empty(net), Introduce(q[0].at, q[0].mask));
    assert NewTrail(msg, q[0].mask) == q;
    NextIsPlaced(net, st, msg, q[0].mask);
    StepFits(net, st, msg);
  }

  lemma StepFits(net: Network, st: State, msg: Msg)
    requires WellFormedNet(net) && Fits(net, st) && msg in st.flight
    ensures Fits(net, Step(net, st, Deliver(msg)))
  {
    var st' := Step(net, st, Deliver(msg));
    forall x | x in st'.flight
      ensures x.to < |net.servers|
    {
      if x !in st.flight {
        SendsAre(net, NewTrail(msg, Placing(net, st, msg).value), msg.From(), x);
      }
    }
  }

  lemma FollowOn(net: Network, es: seq<Event>, msg: Msg) returns (more: seq<Event>)
    requires WellFormedNet(net) && IsRun(net, Empty(net), es)
    requires Fits(net, Final(net, Empty(net), es)) && msg in Final(net, Empty(net), es).flight
    ensures IsRun(net, Empty(net), more) && Final(net, Empty(net), more) == Step(net, Final(net, Empty(net), es), Deliver(msg))
    ensures Deliveries(more) == Deliveries(es) + 1 && Introductions(more) == Introductions(es)
    ensures forall base :: IntroducesOnly(es, base) ==> IntroducesOnly(more, base)
  {
    RunExtends(net, Empty(net), es, Deliver(msg));
    more := es + [Deliver(msg)];
    CountsExtend(es, Deliver(msg));
  }

  /** The line with which the last place of a chain was reached. */
  function LineTo(net: Network, q: Trail): Msg
    requires |q| >= 2 && Last(q).at < |net.servers|
  {
    var a, b := q[|q| - 2], Last(q);
    Msg(q[..|q| - 1], b.at, if Reading(net, b.at, Split, a.mask) == Some(b.mask) then Split else Joined, a.mask)
  }

  lemma LineWasSent(net: Network, st: State, q: Trail)
    requires WellFormedNet(net) && |q| >= 2 && Last(q).at < |net.servers| && q[|q| - 2].at < |net.servers|
    requires Follows(net, q) && AllSent(net, st, q[..|q| - 1])
    ensures LineTo(net, q) in st.flight && Reading(net, Last(q).at, LineTo(net, q).form, LineTo(net, q).mask) == Some(Last(q).mask)
    ensures NewTrail(LineTo(net, q), Last(q).mask) == q
  {
    var p := q[..|q| - 1];
    assert Last(p) == q[|q| - 2];
    assert |p| >= 2 ==> p[|p| - 2] == q[|q| - 3];
    SendsReach(net, p, Sender(p), Last(q).at);
  }

  lemma FollowStep(net: Network, introduced: set<(Peer, Mask)>, q: Trail, es: seq<Event>) returns (more: seq<Event>)
    requires WellFormedNet(net) && Chain(net, introduced, q) && |q| >= 2 && Followed(net, es, q[..|q| - 1])
    ensures Followed(net, more, q)
  {
    var msg, st := LineTo(net, q), Final(net, Empty(net), es);
    LineWasSent(net, st, q);
    NextIsPlaced(net, st, msg, Last(q).mask);
    StepFits(net, st, msg);
    more := FollowOn(net, es, msg);
    assert q[..|q| - 1][0] == q[0];
  }

  /** Every chain is followed by a run. */
  lemma {:induction false} ChainRun(net: Network, introduced: set<(Peer, Mask)>, q: Trail) returns (es: seq<Event>)
    requires WellFormedNet(net) && Chain(net, introduced, q)
    ensures Followed(net, es, q) && (q[0].at, q[0].mask) in introduced
    decreases |q|
  {
    if |q| == 1 {
      es := FollowStart(net, q);
    } else {
      es := ChainRun(net, introduced, q[..|q| - 1]);
      es := FollowStep(net, introduced, q, es);
    }
  }

  /** There is a run in which s comes to hold an entry that u names. */
  ghost predicate CanBeFound(net: Network, base: set<(Peer, Mask)>, s: Peer, u: Mask)
    requires s < |net.servers|
  {
    exists es :: IsRun(net, Empty(net), es) && IntroducesOnly(es, base)
      && |Final(net, Empty(net), es).tables| == |net.servers| && Found(u, Final(net, Empty(net), es).tables[s])
  }

  /** An entry can turn up at a server exactly when a chain of readings leads there. */
  lemma FoundInSomeRun(net: Network, base: set<(Peer, Mask)>, u: Mask, s: Peer)
    requires WellFormedNet(net) && AllReadable(net, base) && s < |net.servers|
    ensures CanBeFound(net, base, s, u) <==> CameBy(net, base, s, u)
  {
    if CanBeFound(net, base, s, u) {
      FoundCameBy(net, base, u, s);
    }
    if CameBy(net, base, s, u) {
      CameByIsFound(net, base, u, s);
    }
  }

  lemma FoundCameBy(net: Network, base: set<(Peer, Mask)>, u: Mask, s: Peer)
    requires WellFormedNet(net) && AllReadable(net, base) && s < |net.servers| && CanBeFound(net, base, s, u)
    ensures CameBy(net, base, s, u)
  {
    var es :| IsRun(net, Empty(net), es) && IntroducesOnly(es, base)
      && |Final(net, Empty(net), es).tables| == |net.servers| && Found(u, Final(net, Empty(net), es).tables[s]);
    NothingIsMadeUp(net, base, es, u, s);
    IntroducedWithin(net, base, Empty(net), es);
    var st := Final(net, Empty(net), es);
    var q :| Chain(net, st.introduced, q) && Last(q).at == s && Matching(u, Last(q).mask);
    ChainGrows(net, st.introduced, base, q);
  }

  lemma CameByIsFound(net: Network, base: set<(Peer, Mask)>, u: Mask, s: Peer)
    requires WellFormedNet(net) && s < |net.servers| && CameBy(net, base, s, u)
    ensures CanBeFound(net, base, s, u)
  {
    var q :| Chain(net, base, q) && Last(q).at == s && Matching(u, Last(q).mask);
    var es := ChainRun(net, base, q);
    assert IntroducesOnly(es, base);
    var table := Final(net, Empty(net), es).tables[s];
    var i :| 0 <= i < |table| && table[i] == Last(q).mask;
  }
}
