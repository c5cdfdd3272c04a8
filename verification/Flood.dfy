/** The flood of GLINE lines over a network of servers: any finite graph of links, any order of
    delivery, several masks at once (modules/m_gline.c:149-212). */
module Flood {
  import opened Options
  import opened Masks
  import opened Gline
  import opened GlineNet

  /** A mask placed at a server. */
  datatype Hold = Hold(at: Peer, mask: Mask)

  /** The placements that led to one another, from an introduction on. */
  type Trail = seq<Hold>

  function Last(q: Trail): Hold
    requires q != []
  {
    q[|q| - 1]
  }

  /** A line on its way.  Nothing reads its trail but the exclusion of the sender; a line without one is a G-line
      that services introduce at `to`. */
  datatype Msg = Msg(trail: Trail, to: Peer, form: Form, mask: Mask)
  {
    function From(): Option<Peer> {
      if trail == [] then None else Some(Last(trail).at)
    }
  }

  /** `log` records the trails of all placements, oldest first. */
  datatype State = State(tables: seq<seq<Mask>>, flight: multiset<Msg>, log: seq<Trail>, introduced: set<(Peer, Mask)>)

  datatype Event = Introduce(at: Peer, mask: Mask) | Deliver(msg: Msg)

  /** What a server sends when it places the last mask of a trail. */
  function Sends(net: Network, q: Trail, from: Option<Peer>): (r: seq<Msg>)
    requires q != [] && Last(q).at < |net.servers|
    ensures |r| == |Copies(net.servers[Last(q).at].links, from, Last(q).mask)|
  {
    var lines := Copies(net.servers[Last(q).at].links, from, Last(q).mask);
    seq(|lines|, i requires 0 <= i < |lines| => Msg(q, lines[i].peer, lines[i].form, lines[i].mask))
  }

  /** The mask that the delivery of msg places, if any. */
  function Placing(net: Network, st: State, msg: Msg): Option<Mask>
    requires msg.to < |net.servers| == |st.tables|
  {
    var r := Reading(net, msg.to, msg.form, msg.mask);
    if r.Some? && !Found(r.value, st.tables[msg.to]) then r else None
  }

  function NewTrail(msg: Msg, m: Mask): (q: Trail)
    ensures q != [] && Last(q) == Hold(msg.to, m) && q[..|q| - 1] == msg.trail
  {
    msg.trail + [Hold(msg.to, m)]
  }

  ghost predicate Fits(net: Network, st: State) {
    |st.tables| == |net.servers| && forall msg :: msg in st.flight ==> msg.to < |net.servers|
  }

  ghost predicate Enabled(net: Network, st: State, e: Event) {
    match e
    case Introduce(at, _) => at < |net.servers|
    case Deliver(msg) => msg in st.flight && msg.to < |net.servers|
  }

  function Step(net: Network, st: State, e: Event): State
    requires |st.tables| == |net.servers|
    requires match e case Introduce(at, _) => at < |net.servers| case Deliver(msg) => msg.to < |net.servers|
  {
    match e
    case Introduce(at, m) =>
      st.(flight := st.flight + multiset{Msg([], at, Joined, m)}, introduced := st.introduced + {(at, m)})
    case Deliver(msg) =>
      var rest := st.flight - multiset{msg};
      var placed := Placing(net, st, msg);
      if placed.None? then st.(flight := rest)
      else
        var q := NewTrail(msg, placed.value);
        st.(tables := st.tables[msg.to := [placed.value] + st.tables[msg.to]],
            flight := rest + multiset(Sends(net, q, msg.From())), log := st.log + [q])
  }

  function Empty(net: Network): State {
    State(seq(|net.servers|, i => []), multiset{}, [], {})
  }

  // ----- runs

  ghost predicate IsRun(net: Network, st: State, es: seq<Event>)
    decreases |es|
  {
    |st.tables| == |net.servers|
    && (es == [] || (Enabled(net, st, es[0]) && IsRun(net, Step(net, st, es[0]), es[1..])))
  }

  ghost function Final(net: Network, st: State, es: seq<Event>): State
    requires IsRun(net, st, es)
    decreases |es|
  {
    if es == [] then st else Final(net, Step(net, st, es[0]), es[1..])
  }

  /** Only introductions from `base` happen. */
  ghost predicate IntroducesOnly(es: seq<Event>, base: set<(Peer, Mask)>) {
    forall i :: 0 <= i < |es| && es[i].Introduce? ==> (es[i].at, es[i].mask) in base
  }

  function MasksOf(base: set<(Peer, Mask)>): set<Mask> {
    set b | b in base :: b.1
  }

  // ----- what a delivery does

  /** The lines in flight after a placement. */
  lemma SendsAre(net: Network, q: Trail, from: Option<Peer>, r: Msg)
    requires WellFormedNet(net) && q != [] && Last(q).at < |net.servers|
    ensures r in Sends(net, q, from) ==>
              r.trail == q && r.mask == Last(q).mask && r.to < |net.servers| && r.to != Last(q).at
    ensures r in Sends(net, q, from) && r.form != HybridSix ==> Linked(net, Last(q).at, r.to)
    ensures r in Sends(net, q, from) && r.form == Joined ==> from != Some(r.to)
  {
    var links, lines := net.servers[Last(q).at].links, Copies(net.servers[Last(q).at].links, from, Last(q).mask);
    if r in Sends(net, q, from) {
      var i :| 0 <= i < |lines| && Sends(net, q, from)[i] == r;
      CopiesLines(links, from, Last(q).mask, lines[i]);
    }
  }

  lemma SendsReach(net: Network, q: Trail, from: Option<Peer>, t: Peer)
    requires q != [] && Linked(net, Last(q).at, t)
    ensures Msg(q, t, Split, Last(q).mask) in Sends(net, q, from)
    ensures from != Some(t) ==> Msg(q, t, Joined, Last(q).mask) in Sends(net, q, from)
  {
    var links, m := net.servers[Last(q).at].links, Last(q).mask;
    var lines := Copies(links, from, m);
    CopiesLines(links, from, m, Line(t, Split, m));
    CopiesLines(links, from, m, Line(t, Joined, m));
    var i :| 0 <= i < |lines| && lines[i] == Line(t, Split, m);
    assert Sends(net, q, from)[i] == Msg(q, t, Split, m);
    if from != Some(t) {
      var j :| 0 <= j < |lines| && lines[j] == Line(t, Joined, m);
      assert Sends(net, q, from)[j] == Msg(q, t, Joined, m);
    }
  }

  /** The mask has been heard: it is in the table or names an entry of it. */
  predicate Heard(m: Mask, table: seq<Mask>) {
    m in table || Found(m, table)
  }

  lemma HeardGrows(u: Mask, m: Mask, table: seq<Mask>)
    ensures Found(u, table) ==> Found(u, [m] + table)
    ensures Heard(u, table) ==> Heard(u, [m] + table)
  {
    if i :| 0 <= i < |table| && Matching(u, table[i]) {
      assert ([m] + table)[i + 1] == table[i];
    }
  }

  /** Nothing that was heard is lost. */
  lemma StepKeepsHeard(net: Network, st: State, e: Event)
    requires Fits(net, st) && Enabled(net, st, e)
    ensures |Step(net, st, e).tables| == |net.servers|
    ensures forall u: Mask, s: Peer :: s < |net.servers| && Heard(u, st.tables[s]) ==> Heard(u, Step(net, st, e).tables[s])
    ensures forall u: Mask, s: Peer :: s < |net.servers| && Found(u, st.tables[s]) ==> Found(u, Step(net, st, e).tables[s])
  {
    forall u: Mask, s: Peer | s < |net.servers|
      ensures Heard(u, st.tables[s]) ==> Heard(u, Step(net, st, e).tables[s])
      ensures Found(u, st.tables[s]) ==> Found(u, Step(net, st, e).tables[s])
    {
      if e.Deliver? && s == e.msg.to && Placing(net, st, e.msg).Some? {
        HeardGrows(u, Placing(net, st, e.msg).value, st.tables[s]);
      }
    }
  }

  // ----- what every reachable state satisfies

  /** q leads from an introduction over links, each server placing what it reads in a line of the one before and
      does not have from an earlier place of q. */
  ghost predicate Chain(net: Network, introduced: set<(Peer, Mask)>, q: Trail)
    decreases |q|
  {
    && q != [] && Last(q).at < |net.servers|
    && if |q| == 1 then (q[0].at, q[0].mask) in introduced && Takes(net, q[0].at, q[0].mask)
       else Chain(net, introduced, q[..|q| - 1]) && Follows(net, q) && IsNew(q)
  }

  /** The joined form is not sent back. */
  ghost predicate Follows(net: Network, q: Trail)
    requires |q| >= 2
  {
    var a, b := q[|q| - 2], Last(q);
    && b.at < |net.servers| && Linked(net, a.at, b.at)
    && (Reading(net, b.at, Split, a.mask) == Some(b.mask)
        || (Reading(net, b.at, Joined, a.mask) == Some(b.mask) && !TurnsBack(q)))
  }

  predicate TurnsBack(q: Trail) {
    |q| >= 3 && q[|q| - 3].at == Last(q).at
  }

  predicate IsNew(q: Trail)
    requires q != []
  {
    forall j :: 0 <= j < |q| - 1 && q[j].at == Last(q).at ==> !Matching(Last(q).mask, q[j].mask)
  }

  /** The masks are readable, and what is read of them is among them. */
  ghost predicate ClosedMasks(net: Network, masks: set<Mask>) {
    Closed(net, masks) && forall m :: m in masks ==> Readable(net, m) && m.WellFormed()
  }

  ghost predicate Within(net: Network, masks: set<Mask>, st: State) {
    && Fits(net, st)
    && (forall msg :: msg in st.flight ==> msg.mask in masks)
    && (forall k :: 0 <= k < |st.log| ==> st.log[k] != [] && Last(st.log[k]).mask in masks && Last(st.log[k]).at < |net.servers|)
    && (forall o: Peer, m: Mask :: (o, m) in st.introduced ==> o < |net.servers| && m in masks)
    && (forall s :: 0 <= s < |net.servers| ==> NoneNamesOlder(st.tables[s]))
  }

  ghost predicate InLog(st: State, q: Trail) {
    exists k :: 0 <= k < |st.log| && st.log[k] == q
  }

  /** Nothing is made up: the log holds chains, each after the one that it continues, and what is in the tables is
      what the log says. */
  ghost predicate Logged(net: Network, st: State)
    requires |st.tables| == |net.servers|
  {
    && (forall k :: 0 <= k < |st.log| ==> Chain(net, st.introduced, st.log[k]))
    && (forall k {:trigger Continues(st, k)} :: 0 <= k < |st.log| ==> Continues(st, k))
    && (forall k :: 0 <= k < |st.log| ==> Last(st.log[k]).mask in st.tables[Last(st.log[k]).at])
    && (forall s: Peer, m: Mask {:trigger HasTrail(st, s, m)} :: s < |net.servers| && m in st.tables[s] ==> HasTrail(st, s, m))
  }

  ghost predicate Continues(st: State, k: nat)
    requires k < |st.log|
  {
    var q := st.log[k];
    |q| <= 1 || exists j :: 0 <= j < k && st.log[j] == q[..|q| - 1]
  }

  ghost predicate HasTrail(st: State, s: Peer, m: Mask) {
    exists k :: 0 <= k < |st.log| && st.log[k] != [] && Last(st.log[k]) == Hold(s, m)
  }

  /** Lines come from an introduction or from a placement. */
  ghost predicate LinesSent(net: Network, st: State) {
    forall msg :: msg in st.flight ==> WasSent(net, st, msg)
  }

  ghost predicate WasSent(net: Network, st: State, msg: Msg) {
    if msg.trail == [] then msg.form == Joined && (msg.to, msg.mask) in st.introduced
    else InLog(st, msg.trail) && Last(msg.trail).mask == msg.mask
         && (msg.form != HybridSix ==> Linked(net, Last(msg.trail).at, msg.to))
         && (msg.form == Joined ==> |msg.trail| < 2 || msg.trail[|msg.trail| - 2].at != msg.to)
  }

  /** The server from which a mask came by a misreading is not told of it. */
  predicate CameFrom(q: Trail, t: Peer) {
    |q| >= 2 && q[|q| - 2].at == t && q[|q| - 2].mask != Last(q).mask
  }

  /** A linked server that takes an entry has it, or its copy is on the way, unless it came from there. */
  ghost predicate Told(net: Network, st: State, q: Trail, t: Peer)
    requires q != [] && t < |net.servers| == |st.tables|
  {
    Linked(net, Last(q).at, t) && Takes(net, t, Last(q).mask) ==>
      Heard(Last(q).mask, st.tables[t]) || Msg(q, t, Joined, Last(q).mask) in st.flight || CameFrom(q, t)
  }

  /** A linked server has what it reads in the split form, or the line is on the way. */
  ghost predicate ToldSplit(net: Network, st: State, q: Trail, t: Peer)
    requires q != [] && t < |net.servers| == |st.tables|
  {
    var r := Reading(net, t, Split, Last(q).mask);
    Linked(net, Last(q).at, t) && r.Some? ==> Heard(r.value, st.tables[t]) || Msg(q, t, Split, Last(q).mask) in st.flight
  }

  ghost predicate Spreading(net: Network, st: State)
    requires |st.tables| == |net.servers|
  {
    forall k: nat, t: Peer :: k < |st.log| && t < |net.servers| && st.log[k] != [] ==>
      Told(net, st, st.log[k], t) && ToldSplit(net, st, st.log[k], t)
  }

  ghost predicate IntroductionsHeard(net: Network, st: State)
    requires |st.tables| == |net.servers|
  {
    forall o: Peer, m: Mask :: (o, m) in st.introduced && Takes(net, o, m) ==>
      Heard(m, st.tables[o]) || Msg([], o, Joined, m) in st.flight
  }

  ghost predicate Sound(net: Network, masks: set<Mask>, st: State) {
    Within(net, masks, st) && Logged(net, st) && LinesSent(net, st)
  }

  ghost predicate Invariant(net: Network, masks: set<Mask>, st: State) {
    Sound(net, masks, st) && Spreading(net, st) && IntroductionsHeard(net, st)
  }

  lemma EmptySatisfies(net: Network, masks: set<Mask>)
    ensures Invariant(net, masks, Empty(net))
  {
  }

  lemma {:induction false} ChainGrows(net: Network, introduced: set<(Peer, Mask)>, more: set<(Peer, Mask)>, q: Trail)
    requires Chain(net, introduced, q) && introduced <= more
    ensures Chain(net, more, q)
    decreases |q|
  {
    if |q| > 1 {
      ChainGrows(net, introduced, more, q[..|q| - 1]);
    }
  }

  lemma IntroduceKeepsLog(net: Network, st: State, at: Peer, m: Mask)
    requires Fits(net, st) && Logged(net, st) && at < |net.servers|
    ensures Logged(net, Step(net, st, Introduce(at, m)))
  {
    var st' := Step(net, st, Introduce(at, m));
    forall k | 0 <= k < |st'.log|
      ensures Chain(net, st'.introduced, st'.log[k]) && Continues(st', k)
    {
      ChainGrows(net, st.introduced, st'.introduced, st.log[k]);
      assert Continues(st, k);
    }
    forall s: Peer, u: Mask | s < |net.servers| && u in st'.tables[s]
      ensures HasTrail(st', s, u)
    {
      assert HasTrail(st, s, u);
    }
  }

  lemma IntroduceKeepsSpreading(net: Network, st: State, at: Peer, m: Mask)
    requires Fits(net, st) && Spreading(net, st) && at < |net.servers|
    ensures Spreading(net, Step(net, st, Introduce(at, m)))
  {
    var st' := Step(net, st, Introduce(at, m));
    assert forall msg :: msg in st.flight ==> msg in st'.flight;
    forall k: nat, t: Peer | k < |st'.log| && t < |net.servers| && st'.log[k] != []
      ensures Told(net, st', st'.log[k], t) && ToldSplit(net, st', st'.log[k], t)
    {
      assert Told(net, st, st.log[k], t) && ToldSplit(net, st, st.log[k], t);
    }
  }

  lemma IntroduceKeepsLines(net: Network, st: State, at: Peer, m: Mask)
    requires Fits(net, st) && LinesSent(net, st) && at < |net.servers|
    ensures LinesSent(net, Step(net, st, Introduce(at, m)))
  {
    var st' := Step(net, st, Introduce(at, m));
    forall msg | msg in st'.flight
      ensures WasSent(net, st', msg)
    {
      if msg in st.flight {
        assert WasSent(net, st, msg);
        if msg.trail != [] {
          var j :| 0 <= j < |st.log| && st.log[j] == msg.trail;
          assert st'.log[j] == msg.trail;
        }
      }
    }
  }

  lemma IntroduceKeepsSound(net: Network, masks: set<Mask>, st: State, at: Peer, m: Mask)
    requires Sound(net, masks, st) && at < |net.servers| && m in masks
    ensures Sound(net, masks, Step(net, st, Introduce(at, m)))
  {
    IntroduceKeepsLog(net, st, at, m);
    IntroduceKeepsLines(net, st, at, m);
  }

  lemma IntroduceKeepsHearing(net: Network, st: State, at: Peer, m: Mask)
    requires Fits(net, st) && IntroductionsHeard(net, st) && at < |net.servers|
    requires forall o: Peer, u: Mask :: (o, u) in st.introduced ==> o < |net.servers|
    ensures IntroductionsHeard(net, Step(net, st, Introduce(at, m)))
  {
    var st' := Step(net, st, Introduce(at, m));
    forall o: Peer, u: Mask | (o, u) in st'.introduced && Takes(net, o, u)
      ensures Heard(u, st'.tables[o]) || Msg([], o, Joined, u) in st'.flight
    {
      assert (o, u) in st.introduced || (o, u) == (at, m);
    }
  }

  /** What a delivery leaves of what a server told its neighbour. */
  lemma DeliveryKeepsTold(net: Network, st: State, msg: Msg, q: Trail, t: Peer)
    requires WellFormedNet(net) && Fits(net, st) && msg in st.flight && q != [] && t < |net.servers|
    requires Told(net, st, q, t) && ToldSplit(net, st, q, t)
    ensures
      var st' := Step(net, st, Deliver(msg));
      |st'.tables| == |net.servers| && Told(net, st', q, t) && ToldSplit(net, st', q, t)
  {
    var st' := Step(net, st, Deliver(msg));
    StepKeepsHeard(net, st, Deliver(msg));
    DeliveredIsHeard(net, st, msg);
    var m := Last(q).mask;
    assert Msg(q, t, Joined, m) in st.flight && Msg(q, t, Joined, m) != msg ==> Msg(q, t, Joined, m) in st'.flight;
    assert Msg(q, t, Split, m) in st.flight && Msg(q, t, Split, m) != msg ==> Msg(q, t, Split, m) in st'.flight;
  }

  lemma DeliveredIsHeard(net: Network, st: State, msg: Msg)
    requires Fits(net, st) && msg in st.flight
    ensures
      var r := Reading(net, msg.to, msg.form, msg.mask);
      r.Some? ==> Heard(r.value, Step(net, st, Deliver(msg)).tables[msg.to])
  {
  }

  lemma DropKeepsSound(net: Network, masks: set<Mask>, st: State, msg: Msg)
    requires Sound(net, masks, st) && msg in st.flight && Placing(net, st, msg).None?
    ensures Sound(net, masks, Step(net, st, Deliver(msg)))
  {
    var st' := Step(net, st, Deliver(msg));
    LogUnchanged(net, st, st');
    forall x | x in st'.flight
      ensures WasSent(net, st', x)
    {
      assert WasSent(net, st, x);
    }
  }

  lemma DropKeepsSpreading(net: Network, st: State, msg: Msg)
    requires WellFormedNet(net) && Fits(net, st) && Spreading(net, st)
    requires msg in st.flight && Placing(net, st, msg).None?
    ensures Spreading(net, Step(net, st, Deliver(msg)))
  {
    var st' := Step(net, st, Deliver(msg));
    forall k: nat, t: Peer | k < |st'.log| && t < |net.servers| && st'.log[k] != []
      ensures Told(net, st', st'.log[k], t) && ToldSplit(net, st', st'.log[k], t)
    {
      assert Told(net, st, st.log[k], t) && ToldSplit(net, st, st.log[k], t);
      DeliveryKeepsTold(net, st, msg, st.log[k], t);
    }
  }

  lemma LogUnchanged(net: Network, st: State, st': State)
    requires |st.tables| == |net.servers| && Logged(net, st)
    requires st'.tables == st.tables && st'.log == st.log && st'.introduced == st.introduced
    ensures Logged(net, st')
  {
    forall k | 0 <= k < |st'.log|
      ensures Continues(st', k)
    {
      assert Continues(st, k);
    }
    forall s: Peer, u: Mask | s < |net.servers| && u in st'.tables[s]
      ensures HasTrail(st', s, u)
    {
      assert HasTrail(st, s, u);
    }
  }

  lemma DeliveryKeepsHearing(net: Network, st: State, msg: Msg)
    requires Fits(net, st) && msg in st.flight && IntroductionsHeard(net, st)
    requires forall o: Peer, m: Mask :: (o, m) in st.introduced ==> o < |net.servers|
    ensures |Step(net, st, Deliver(msg)).tables| == |net.servers| && IntroductionsHeard(net, Step(net, st, Deliver(msg)))
  {
    var st' := Step(net, st, Deliver(msg));
    StepKeepsHeard(net, st, Deliver(msg));
    DeliveredIsHeard(net, st, msg);
    forall o: Peer, m: Mask | (o, m) in st'.introduced && Takes(net, o, m)
      ensures Heard(m, st'.tables[o]) || Msg([], o, Joined, m) in st'.flight
    {
      assert Heard(m, st.tables[o]) || Msg([], o, Joined, m) in st.flight;
      assert Msg([], o, Joined, m) in st.flight && Msg([], o, Joined, m) != msg ==> Msg([], o, Joined, m) in st'.flight;
    }
  }

  // ----- a placement

  /** The trail of a placement is a chain. */
  lemma NewTrailIsChain(net: Network, st: State, msg: Msg)
    requires Fits(net, st) && Logged(net, st) && WasSent(net, st, msg) && Readable(net, msg.mask)
    requires msg in st.flight && Placing(net, st, msg).Some?
    ensures Chain(net, st.introduced, NewTrail(msg, Placing(net, st, msg).value))
  {
    var q := NewTrail(msg, Placing(net, st, msg).value);
    if msg.trail == [] {
      JoinedReading(net, msg.to, msg.mask);
      assert q[0] == Hold(msg.to, msg.mask);
    } else {
      var j :| 0 <= j < |st.log| && st.log[j] == msg.trail;
      assert q[|q| - 2] == Last(msg.trail);
      assert |msg.trail| >= 2 ==> q[|q| - 3] == msg.trail[|msg.trail| - 2];
      assert Follows(net, q) by {
        assert msg.form != HybridSix;
      }
      TrailIsHeld(net, st, j);
      assert forall i :: 0 <= i < |q| - 1 ==> q[i] == st.log[j][i] && Holds(st, q[i]);
    }
  }

  ghost predicate Holds(st: State, h: Hold) {
    h.at < |st.tables| && h.mask in st.tables[h.at]
  }

  /** All places of a trail are held. */
  lemma {:induction false} TrailIsHeld(net: Network, st: State, k: nat)
    requires |st.tables| == |net.servers| && Logged(net, st) && k < |st.log|
    ensures forall i :: 0 <= i < |st.log[k]| ==> Holds(st, st.log[k][i])
  {
    var q := st.log[k];
    LastIsHeld(net, st, k);
    if |q| > 1 {
      assert Continues(st, k);
      var j :| 0 <= j < k && st.log[j] == q[..|q| - 1];
      TrailIsHeld(net, st, j);
      assert forall i :: 0 <= i < |q| - 1 ==> q[i] == st.log[j][i];
    }
  }

  lemma LastIsHeld(net: Network, st: State, k: nat)
    requires |st.tables| == |net.servers| && Logged(net, st) && k < |st.log|
    ensures st.log[k] != [] && Holds(st, Last(st.log[k]))
  {
    assert Chain(net, st.introduced, st.log[k]);
  }

  lemma PlaceKeepsLog(net: Network, st: State, msg: Msg)
    requires Fits(net, st) && Logged(net, st) && LinesSent(net, st) && Readable(net, msg.mask)
    requires msg in st.flight && Placing(net, st, msg).Some?
    ensures |Step(net, st, Deliver(msg)).tables| == |net.servers| && Logged(net, Step(net, st, Deliver(msg)))
  {
    var st', m := Step(net, st, Deliver(msg)), Placing(net, st, msg).value;
    NewTrailIsChain(net, st, msg);
    PlaceKeepsTables(net, st, msg);
    NewTrailContinues(net, st, msg);
    forall k | 0 <= k < |st'.log|
      ensures Chain(net, st'.introduced, st'.log[k]) && Continues(st', k)
    {
      if k < |st.log| {
        assert st'.log[k] == st.log[k] && Continues(st, k);
        ContinuesStill(st, st', k);
      }
    }
  }

  lemma NewTrailContinues(net: Network, st: State, msg: Msg)
    requires Fits(net, st) && LinesSent(net, st) && msg in st.flight && Placing(net, st, msg).Some?
    ensures Continues(Step(net, st, Deliver(msg)), |st.log|)
  {
    var st' := Step(net, st, Deliver(msg));
    assert WasSent(net, st, msg);
    if msg.trail != [] {
      var j :| 0 <= j < |st.log| && st.log[j] == msg.trail;
      assert st'.log[j] == msg.trail;
    }
  }

  lemma PlaceKeepsTables(net: Network, st: State, msg: Msg)
    requires Fits(net, st) && Logged(net, st) && msg in st.flight && Placing(net, st, msg).Some?
    ensures
      var st' := Step(net, st, Deliver(msg));
      && |st'.tables| == |net.servers|
      && (forall k :: 0 <= k < |st'.log| ==> st'.log[k] != [] && Last(st'.log[k]).at < |net.servers|)
      && (forall k :: 0 <= k < |st'.log| ==> Last(st'.log[k]).mask in st'.tables[Last(st'.log[k]).at])
      && (forall s: Peer, u: Mask :: s < |net.servers| && u in st'.tables[s] ==> HasTrail(st', s, u))
  {
    var st', m := Step(net, st, Deliver(msg)), Placing(net, st, msg).value;
    forall k | 0 <= k < |st'.log|
      ensures st'.log[k] != [] && Last(st'.log[k]).at < |net.servers|
      ensures Last(st'.log[k]).mask in st'.tables[Last(st'.log[k]).at]
    {
      if k < |st.log| {
        assert st'.log[k] == st.log[k] && Chain(net, st.introduced, st.log[k]);
      }
    }
    forall s: Peer, u: Mask | s < |net.servers| && u in st'.tables[s]
      ensures HasTrail(st', s, u)
    {
      if s == msg.to && u == m {
        assert Last(st'.log[|st.log|]) == Hold(s, u);
      } else {
        assert u in st.tables[s] && HasTrail(st, s, u);
        var k :| 0 <= k < |st.log| && st.log[k] != [] && Last(st.log[k]) == Hold(s, u);
        assert st'.log[k] == st.log[k];
      }
    }
  }

  lemma ContinuesStill(st: State, st': State, k: nat)
    requires k < |st.log| <= |st'.log| && Continues(st, k) && forall j :: 0 <= j < |st.log| ==> st'.log[j] == st.log[j]
    ensures Continues(st', k)
  {
    var q := st.log[k];
    if |q| > 1 {
      var j :| 0 <= j < k && st.log[j] == q[..|q| - 1];
      assert st'.log[j] == q[..|q| - 1];
    }
  }

  lemma PlaceKeepsWithin(net: Network, masks: set<Mask>, st: State, msg: Msg)
    requires WellFormedNet(net) && ClosedMasks(net, masks) && Within(net, masks, st)
    requires msg in st.flight && Placing(net, st, msg).Some?
    ensures Within(net, masks, Step(net, st, Deliver(msg)))
  {
    var st', m := Step(net, st, Deliver(msg)), Placing(net, st, msg).value;
    var q := NewTrail(msg, m);
    assert m in masks;
    PlacingKeeps(m, st.tables[msg.to]);
    forall x | x in st'.flight
      ensures x.mask in masks && x.to < |net.servers|
    {
      if x !in st.flight {
        SendsAre(net, q, msg.From(), x);
      }
    }
    forall k | 0 <= k < |st'.log|
      ensures st'.log[k] != [] && Last(st'.log[k]).mask in masks && Last(st'.log[k]).at < |net.servers|
    {
      assert k < |st.log| ==> st'.log[k] == st.log[k];
    }
  }

  lemma PlaceKeepsLines(net: Network, st: State, msg: Msg)
    requires WellFormedNet(net) && Fits(net, st) && LinesSent(net, st)
    requires msg in st.flight && Placing(net, st, msg).Some?
    ensures LinesSent(net, Step(net, st, Deliver(msg)))
  {
    var st', m := Step(net, st, Deliver(msg)), Placing(net, st, msg).value;
    var q := NewTrail(msg, m);
    forall x | x in st'.flight
      ensures WasSent(net, st', x)
    {
      if x in Sends(net, q, msg.From()) {
        SendsAre(net, q, msg.From(), x);
        assert st'.log[|st.log|] == q;
      } else {
        assert WasSent(net, st, x);
        if x.trail != [] {
          var j :| 0 <= j < |st.log| && st.log[j] == x.trail;
          assert st'.log[j] == x.trail;
        }
      }
    }
  }

  /** What the server that places a mask tells its neighbours. */
  lemma NewTrailIsTold(net: Network, masks: set<Mask>, st: State, msg: Msg, t: Peer)
    requires WellFormedNet(net) && ClosedMasks(net, masks) && Invariant(net, masks, st)
    requires msg in st.flight && Placing(net, st, msg).Some? && t < |net.servers|
    ensures
      var st', q := Step(net, st, Deliver(msg)), NewTrail(msg, Placing(net, st, msg).value);
      |st'.tables| == |net.servers| && Told(net, st', q, t) && ToldSplit(net, st', q, t)
  {
    var st', m := Step(net, st, Deliver(msg)), Placing(net, st, msg).value;
    var q := NewTrail(msg, m);
    if Linked(net, msg.to, t) {
      SendsReach(net, q, msg.From(), t);
      if msg.From() == Some(t) && Last(msg.trail).mask == m {
        assert q[|q| - 2] == Last(msg.trail);
        assert WasSent(net, st, msg);
        var j :| 0 <= j < |st.log| && st.log[j] == msg.trail;
        StepKeepsHeard(net, st, Deliver(msg));
      } else if msg.From() == Some(t) {
        assert q[|q| - 2] == Last(msg.trail);
      }
    }
  }

  lemma PlaceKeepsSpreading(net: Network, masks: set<Mask>, st: State, msg: Msg)
    requires WellFormedNet(net) && ClosedMasks(net, masks) && Invariant(net, masks, st)
    requires msg in st.flight && Placing(net, st, msg).Some?
    ensures |Step(net, st, Deliver(msg)).tables| == |net.servers| && Spreading(net, Step(net, st, Deliver(msg)))
  {
    var st', m := Step(net, st, Deliver(msg)), Placing(net, st, msg).value;
    forall k: nat, t: Peer | k < |st'.log| && t < |net.servers| && st'.log[k] != []
      ensures Told(net, st', st'.log[k], t) && ToldSplit(net, st', st'.log[k], t)
    {
      if k < |st.log| {
        assert st'.log[k] == st.log[k] && Told(net, st, st.log[k], t) && ToldSplit(net, st, st.log[k], t);
        DeliveryKeepsTold(net, st, msg, st.log[k], t);
      } else {
        NewTrailIsTold(net, masks, st, msg, t);
      }
    }
  }

  lemma PlaceKeepsSound(net: Network, masks: set<Mask>, st: State, msg: Msg)
    requires WellFormedNet(net) && ClosedMasks(net, masks) && Sound(net, masks, st)
    requires msg in st.flight && Placing(net, st, msg).Some?
    ensures Sound(net, masks, Step(net, st, Deliver(msg)))
  {
    PlaceKeepsWithin(net, masks, st, msg);
    PlaceKeepsLog(net, st, msg);
    PlaceKeepsLines(net, st, msg);
  }

  lemma StepKeepsSound(net: Network, masks: set<Mask>, st: State, e: Event)
    requires WellFormedNet(net) && ClosedMasks(net, masks) && Sound(net, masks, st) && Enabled(net, st, e)
    requires e.Introduce? ==> e.mask in masks
    ensures Sound(net, masks, Step(net, st, e))
  {
    match e
    case Introduce(at, m) => IntroduceKeepsSound(net, masks, st, at, m);
    case Deliver(msg) =>
      if Placing(net, st, msg).Some? {
        PlaceKeepsSound(net, masks, st, msg);
      } else {
        DropKeepsSound(net, masks, st, msg);
      }
  }

  lemma StepKeepsSpreading(net: Network, masks: set<Mask>, st: State, e: Event)
    requires WellFormedNet(net) && ClosedMasks(net, masks) && Invariant(net, masks, st) && Enabled(net, st, e)
    ensures |Step(net, st, e).tables| == |net.servers|
    ensures Spreading(net, Step(net, st, e)) && IntroductionsHeard(net, Step(net, st, e))
  {
    match e
    case Introduce(at, m) =>
      IntroduceKeepsSpreading(net, st, at, m);
      IntroduceKeepsHearing(net, st, at, m);
    case Deliver(msg) =>
      if Placing(net, st, msg).Some? {
        PlaceKeepsSpreading(net, masks, st, msg);
      } else {
        DropKeepsSpreading(net, st, msg);
      }
      DeliveryKeepsHearing(net, st, msg);
  }

  /** Every state of every run from the empty network satisfies the invariant. */
  lemma {:induction false} RunSatisfies(net: Network, masks: set<Mask>, st: State, es: seq<Event>)
    requires WellFormedNet(net) && ClosedMasks(net, masks) && Invariant(net, masks, st) && IsRun(net, st, es)
    requires forall i :: 0 <= i < |es| && es[i].Introduce? ==> es[i].mask in masks
    ensures Invariant(net, masks, Final(net, st, es))
    decreases |es|
  {
    if es != [] {
      StepKeepsSound(net, masks, st, es[0]);
      StepKeepsSpreading(net, masks, st, es[0]);
      RunSatisfies(net, masks, Step(net, st, es[0]), es[1..]);
    }
  }
}
