/** A tree of servers.  Server 0 is some server; every other one has its uplink as seen from there, and
    servers are numbered so that uplinks come first. */
module Tree {
  import opened Options

  type Server = nat

  type Net = seq<Server>

  predicate IsTree(net: Net) {
    net != [] && forall s :: 0 < s < |net| ==> net[s] < s
  }

  predicate Uplink(net: Net, s: Server, t: Server) {
    0 < s < |net| && net[s] == t
  }

  predicate Linked(net: Net, s: Server, t: Server) {
    Uplink(net, s, t) || Uplink(net, t, s)
  }

  /** The downlink of s on the way to x, if x is below s. */
  function Downlink(net: Net, s: Server, x: Server): Option<Server>
    requires IsTree(net) && x < |net|
    decreases x
  {
    if x == 0 then None else if net[x] == s then Some(x) else Downlink(net, s, net[x])
  }

  /** The server next to s on the way from s to x. */
  function Hop(net: Net, s: Server, x: Server): Server
    requires IsTree(net) && s < |net| && x < |net| && x != s
  {
    match Downlink(net, s, x)
    case Some(t) => t
    case None => net[s]
  }

  /** x is on the side of t of the link from s to t. */
  predicate Beyond(net: Net, s: Server, t: Server, x: Server)
    requires IsTree(net) && s < |net| && x < |net|
  {
    x != s && Hop(net, s, x) == t
  }

  lemma {:induction false} DownlinkIsBelow(net: Net, s: Server, x: Server)
    requires IsTree(net) && x < |net|
    ensures Downlink(net, s, x).Some? ==>
              s < Downlink(net, s, x).value <= x && Uplink(net, Downlink(net, s, x).value, s)
    ensures s == 0 && x > 0 ==> Downlink(net, s, x).Some?
    decreases x
  {
    if x > 0 {
      DownlinkIsBelow(net, s, net[x]);
    }
  }

  lemma HopIsLinked(net: Net, s: Server, x: Server)
    requires IsTree(net) && s < |net| && x < |net| && x != s
    ensures Linked(net, s, Hop(net, s, x)) && Hop(net, s, x) < |net|
  {
    DownlinkIsBelow(net, s, x);
  }

  /** Seen from the uplink, x is behind t exactly if t sees it below itself. */
  lemma {:induction false} BelowDownlink(net: Net, s: Server, t: Server, x: Server)
    requires IsTree(net) && Uplink(net, t, s) && x < |net| && x != t
    ensures Downlink(net, s, x) == Some(t) <==> Downlink(net, t, x).Some?
    decreases x
  {
    if x > 0 {
      if net[x] == t {
        assert Downlink(net, s, t) == Some(t);
      } else if net[x] == s {
        DownlinkIsBelow(net, t, s);
      } else {
        BelowDownlink(net, s, t, net[x]);
      }
    }
  }

  /** The two ends of a link see every other server on opposite sides of it. */
  lemma OppositeSides(net: Net, s: Server, t: Server, x: Server)
    requires IsTree(net) && Linked(net, s, t) && s < |net| && t < |net| && x < |net|
    ensures Beyond(net, s, t, t) && (Beyond(net, s, t, x) <==> !Beyond(net, t, s, x))
  {
    DownlinkIsBelow(net, s, x);
    DownlinkIsBelow(net, t, x);
    DownlinkIsBelow(net, s, t);
    DownlinkIsBelow(net, t, s);
    if Uplink(net, t, s) {
      if x != t {
        BelowDownlink(net, s, t, x);
      }
    } else if x != s {
      BelowDownlink(net, t, s, x);
    }
  }

  /** What is beyond the link to t is t itself and what is beyond its other links. */
  lemma BeyondSplits(net: Net, s: Server, t: Server, x: Server)
    requires IsTree(net) && Linked(net, s, t) && s < |net| && t < |net| && x < |net|
    ensures Beyond(net, s, t, x) <==> x == t || (x != t && Hop(net, t, x) != s)
  {
    OppositeSides(net, s, t, x);
  }
}
