/** What decides the end of a flood of GLINE lines, on particular networks
    (modules/m_gline.c:149-212, src/s_conf.c:3301-3504). */
module FloodCases {
  import opened Seqs
  import opened Masks
  import opened Gline
  import opened GlineNet
  import opened FloodOutcome
  import opened FloodEnds
  import Tree

  // ----- networks without and with endless walks

  /** The links are links of the tree, in either direction. */
  ghost predicate OnTree(net: Network, tree: Tree.Net) {
    && Tree.IsTree(tree) && |tree| == |net.servers|
    && forall s: Peer, t: Peer :: t < |tree| && Linked(net, s, t) ==> Tree.Linked(tree, s, t)
  }

  /** The steps of a walk that goes down do not go up again. */
  lemma {:induction false} GoesOnDown(net: Network, tree: Tree.Net, m: Mask, p: seq<Peer>, i: nat, j: nat)
    requires OnTree(net, tree) && (forall s :: 0 <= s < |net.servers| ==> !net.servers[s].readsSplit)
    requires Walk(net, m, p) && i < j < |p| && Tree.Uplink(tree, p[i + 1], p[i])
    ensures p[i] < p[j] && Tree.Uplink(tree, p[j], p[j - 1])
    decreases j
  {
    if i + 1 < j {
      GoesOnDown(net, tree, m, p, i, j - 1);
      assert Takes(net, p[j], m) && WalkStep(net, p, j - 1) && WalkStep(net, p, j - 2);
    }
  }

  lemma {:induction false} WentUp(net: Network, tree: Tree.Net, m: Mask, p: seq<Peer>, i: nat, j: nat)
    requires OnTree(net, tree) && (forall s :: 0 <= s < |net.servers| ==> !net.servers[s].readsSplit)
    requires Walk(net, m, p) && i < j && j + 1 < |p| && Tree.Uplink(tree, p[j], p[j + 1])
    ensures p[j] < p[i]
    decreases j - i
  {
    assert Takes(net, p[i + 1], m) && WalkStep(net, p, i);
    if Tree.Uplink(tree, p[i + 1], p[i]) {
      GoesOnDown(net, tree, m, p, i, j + 1);
    } else if i + 1 < j {
      WentUp(net, tree, m, p, i + 1, j);
    }
  }

  lemma NoLinkTwice(net: Network, tree: Tree.Net, m: Mask, p: seq<Peer>, i: nat, j: nat)
    requires OnTree(net, tree) && (forall s :: 0 <= s < |net.servers| ==> !net.servers[s].readsSplit) && Walk(net, m, p)
    ensures !Twice(p, i, j)
  {
    if i < j && j + 1 < |p| {
      assert Takes(net, p[i + 1], m) && Takes(net, p[j + 1], m) && WalkStep(net, p, i) && WalkStep(net, p, j);
      if Tree.Uplink(tree, p[i + 1], p[i]) {
        GoesOnDown(net, tree, m, p, i, j);
      } else if Tree.Uplink(tree, p[j], p[j + 1]) {
        WentUp(net, tree, m, p, i, j);
      }
    }
  }

  /** On a tree of servers that do not read the split form, the flood of every mask ends. */
  lemma TreeFloodsEnd(net: Network, tree: Tree.Net, base: set<(Peer, Mask)>)
    requires WellFormedNet(net) && AllReadable(net, base)
    requires OnTree(net, tree) && forall s :: 0 <= s < |net.servers| ==> !net.servers[s].readsSplit
    ensures Ends(net, base)
  {
    forall m: Mask, p: seq<Peer>, i: nat, j: nat | Walk(net, m, p)
      ensures !Twice(p, i, j)
    {
      NoLinkTwice(net, tree, m, p, i, j);
    }
    EndsUnlessEndless(net, base);
  }

  /** Without stray bits every flood ends. */
  lemma FloodTerminates(net: Network, base: set<(Peer, Mask)>)
    requires WellFormedNet(net) && AllReadable(net, base) && forall b :: b in base ==> !b.1.Stray()
    ensures Ends(net, base)
  {
    assert forall o: Peer, m: Mask :: (o, m) in base ==> !(o, m).1.Stray();
    EndsUnlessEndless(net, base);
  }

  /** Round a ring a mask with a stray bit goes for ever, in joined lines alone. */
  lemma RingIsEndless(net: Network, m: Mask, ring: seq<Peer>)
    requires |ring| >= 3 && Distinct(ring) && forall i :: 0 <= i < |ring| ==> Takes(net, ring[i], m)
    requires Linked(net, ring[|ring| - 1], ring[0])
    requires forall i: nat {:trigger ring[i]} :: i + 1 < |ring| ==> Linked(net, ring[i], ring[i + 1])
    ensures Endless(net, ring[0], m)
  {
    var p := ring + [ring[0], ring[1]];
    forall i: nat | i + 1 < |p|
      ensures WalkStep(net, p, i)
    {
      assert i < |ring| ==> p[i] == ring[i];
      assert i + 1 < |ring| ==> p[i + 1] == ring[i + 1];
      assert Linked(net, ring[0], ring[1]);
    }
    assert Walk(net, m, p) && Twice(p, 0, |ring|);
  }

  /** Between two linked servers that read the split form it goes to and fro. */
  lemma EchoIsEndless(net: Network, m: Mask, s: Peer, t: Peer)
    requires Takes(net, s, m) && Takes(net, t, m) && Linked(net, s, t) && Linked(net, t, s)
    requires net.servers[s].readsSplit && net.servers[t].readsSplit
    ensures Endless(net, s, m)
  {
    var p := [s, t, s, t];
    assert Walk(net, m, p) && Twice(p, 0, 2);
  }

  /** One server that reads the split form is enough, if it has two neighbours: each sends back what it is sent, and
      that is sent on to the other. */
  lemma OneReaderIsEnough(net: Network, m: Mask, s: Peer, t: Peer, u: Peer)
    requires Takes(net, s, m) && Takes(net, t, m) && Takes(net, u, m) && t != u && net.servers[s].readsSplit
    requires Linked(net, s, t) && Linked(net, t, s) && Linked(net, s, u) && Linked(net, u, s)
    ensures Endless(net, s, m)
  {
    var p := [s, t, s, u, s, t];
    assert Walk(net, m, p) && Twice(p, 0, 4);
  }
}
