/** CLEARCHAN: taking a channel's modes away and emptying it for one operator (contrib/m_clearchan.c), over
    the linked list of its members. */
module ClearChan {
  import opened Options
  import opened Dlink
  import opened Seqs

  datatype Flag = Owner | Protected | Chanop | Halfop | Voice

  datatype Client = Client(id: nat, name: string)

  class Membership {
    const client: Client
    var flags: set<Flag>

    constructor (client: Client, flags: set<Flag>)
      ensures this.client == client && this.flags == flags
    {
      this.client, this.flags := client, flags;
    }
  }

  // ----- what is announced

  /** A MODE line: the mode changes and the names they are for. */
  datatype ModeLine = ModeLine(modes: string, names: seq<string>)

  function Letters(letter: char, n: nat): string {
    seq(n, i => letter)
  }

  function LineOf(letter: char, names: seq<string>): ModeLine {
    ModeLine("-" + Letters(letter, |names|), names)
  }

  const PER_LINE: nat := 4

  /** The lines that take one mode from a list of names. */
  function Lines(letter: char, names: seq<string>, n: nat): seq<ModeLine>
    requires n > 0
  {
    if names == [] then []
    else if |names| < n then [LineOf(letter, names)]
    else [LineOf(letter, names[..n])] + Lines(letter, names[n..], n)
  }

  /** The elements of xs that are marked. */
  function Marked<A>(xs: seq<A>, marks: seq<bool>): seq<A>
    requires |xs| == |marks|
  {
    if xs == [] then [] else (if marks[0] then [xs[0]] else []) + Marked(xs[1..], marks[1..])
  }

  function NamesOf(lines: seq<ModeLine>): seq<string> {
    if lines == [] then [] else lines[0].names + NamesOf(lines[1..])
  }

  /** The lines say all names in order; each takes the mode once per name, from one to n names. */
  lemma {:induction false} LinesSayAll(letter: char, names: seq<string>, n: nat)
    requires n > 0
    ensures NamesOf(Lines(letter, names, n)) == names
    ensures forall line :: line in Lines(letter, names, n) ==> 1 <= |line.names| <= n && line == LineOf(letter, line.names)
    ensures forall i :: 0 <= i < |Lines(letter, names, n)| - 1 ==> |Lines(letter, names, n)[i].names| == n
    decreases |names|
  {
    if |names| >= n {
      LinesSayAll(letter, names[n..], n);
      assert names == names[..n] + names[n..];
    } else if names != [] {
      var lines := [LineOf(letter, names)];
      assert lines[1..] == [];
      assert names + [] == names;
    }
  }

  /** Distinct elements are marked at most once each, and the unmarked are left out. */
  lemma {:induction false} MarkedAre<A>(xs: seq<A>, marks: seq<bool>, x: A)
    requires |xs| == |marks|
    ensures x in Marked(xs, marks) <==> exists i :: 0 <= i < |xs| && xs[i] == x && marks[i]
  {
    if xs != [] {
      var rest, was, more := xs[1..], xs, marks[1..];
      MarkedAre(rest, more, x);
      assert forall i :: 0 <= i < |rest| ==> rest[i] == was[i + 1] && more[i] == marks[i + 1];
      if i :| 0 < i < |xs| && xs[i] == x && marks[i] {
        assert rest[i - 1] == x && more[i - 1];
      }
    }
  }

  /** Distinct elements are marked at most once each, and the unmarked are left out. */
  lemma {:induction false} MarkedOnce<A>(xs: seq<A>, marks: seq<bool>)
    requires |xs| == |marks| && Distinct(xs)
    ensures Distinct(Marked(xs, marks))
    ensures forall x :: x in Marked(xs, marks) <==> exists i :: 0 <= i < |xs| && xs[i] == x && marks[i]
  {
    forall x
      ensures x in Marked(xs, marks) <==> exists i :: 0 <= i < |xs| && xs[i] == x && marks[i]
    {
      MarkedAre(xs, marks, x);
    }
    if xs != [] {
      MarkedOnce(xs[1..], marks[1..]);
      MarkedAre(xs[1..], marks[1..], xs[0]);
    }
  }

  lemma MarkedFrom<A>(xs: seq<A>, marks: seq<bool>, i: nat)
    requires i < |xs| == |marks|
    ensures Marked(xs[i..], marks[i..]) == (if marks[i] then [xs[i]] else []) + Marked(xs[i + 1..], marks[i + 1..])
  {
    assert xs[i..][1..] == xs[i + 1..] && marks[i..][1..] == marks[i + 1..];
  }

  /** The names of the clients of some memberships. */
  function Names(ms: seq<Membership>): (r: seq<string>)
    ensures |r| == |ms|
  {
    seq(|ms|, i requires 0 <= i < |ms| => ms[i].client.name)
  }

  ghost function Flagged(ms: seq<Membership>, flag: Flag): (r: seq<bool>)
    reads ms
    ensures |r| == |ms| && forall i :: 0 <= i < |ms| ==> r[i] == (flag in ms[i].flags)
  {
    seq(|ms|, i requires 0 <= i < |ms| reads ms => flag in ms[i].flags)
  }

  function Of(ms: seq<Membership>, c: Client): (r: seq<bool>)
    ensures |r| == |ms|
  {
    seq(|ms|, i requires 0 <= i < |ms| => ms[i].client == c)
  }

  /** The lines sent so far, and the names of the next one. */
  datatype Buffer = Buffer(sent: seq<ModeLine>, para: seq<string>)

  /** All that is said once `rest` is added to a buffer. */
  function Total(letter: char, b: Buffer, rest: seq<string>, n: nat): seq<ModeLine>
    requires n > 0
  {
    b.sent + Lines(letter, b.para + rest, n)
  }

  function Push(letter: char, b: Buffer, name: string, n: nat): Buffer {
    if |b.para| + 1 == n then Buffer(b.sent + [LineOf(letter, b.para + [name])], []) else Buffer(b.sent, b.para + [name])
  }

  lemma PushKeepsTotal(letter: char, b: Buffer, name: string, rest: seq<string>, n: nat)
    requires |b.para| < n
    ensures Total(letter, Push(letter, b, name, n), rest, n) == Total(letter, b, [name] + rest, n)
  {
    var all := b.para + ([name] + rest);
    assert all == b.para + [name] + rest;
    if |b.para| + 1 == n {
      assert all[..n] == b.para + [name] && all[n..] == rest && [] + rest == rest;
      var line := [LineOf(letter, b.para + [name])];
      assert b.sent + (line + Lines(letter, rest, n)) == b.sent + line + Lines(letter, rest, n);
    }
  }

  lemma NextName(letter: char, b: Buffer, names: seq<string>, was: seq<bool>, i: nat, n: nat)
    requires i < |names| == |was| && |b.para| < n
    ensures
      var rest := Marked(names[i + 1..], was[i + 1..]);
      Total(letter, if was[i] then Push(letter, b, names[i], n) else b, rest, n)
        == Total(letter, b, Marked(names[i..], was[i..]), n)
  {
    var rest := Marked(names[i + 1..], was[i + 1..]);
    MarkedFrom(names, was, i);
    PushKeepsTotal(letter, b, names[i], rest, n);
    assert [] + rest == rest;
  }

  /** What walking a list relies on: ns is linked by `next` and holds ms. */
  ghost predicate Chain(ns: seq<Node<Membership>>, ms: seq<Membership>)
    reads ns
  {
    && |ns| == |ms|
    && forall j {:trigger ns[j]} :: 0 <= j < |ns| ==>
         ns[j].data == ms[j] && ns[j].next == if j + 1 < |ns| then ns[j + 1] else null
  }

  lemma ListIsChain(members: List<Membership>)
    requires members.Valid()
    ensures Chain(members.nodes, members.Data())
  {
  }

  /** remove_a_mode(): takes a flag from all members of a list. */
  method RemoveAMode(members: List<Membership>, flag: Flag, letter: char) returns (sent: seq<ModeLine>)
    requires members.Valid() && Distinct(members.Data())
    modifies members.Data()
    ensures members.Valid() && members.Data() == old(members.Data())
    ensures forall m :: m in old(members.Data()) ==> m.flags == old(m.flags) - {flag}
    ensures sent == Lines(letter, Marked(Names(old(members.Data())), old(Flagged(members.Data(), flag))), PER_LINE)
  {
    ghost var ns, ms, was := members.nodes, members.Data(), Flagged(members.Data(), flag);
    ghost var names := Names(ms);
    ListIsChain(members);
    sent := Announce(members.head, flag, letter, ns, ms);
  }

  /** After i members: the current line is short, and with the names still to come all is said. */
  ghost predicate Progress(letter: char, sent: seq<ModeLine>, modes: string, para: seq<string>,
                           names: seq<string>, was: seq<bool>, i: nat)
    requires i <= |names| == |was|
  {
    && |para| < PER_LINE && modes == "-" + Letters(letter, |para|)
    && Total(letter, Buffer(sent, para), Marked(names[i..], was[i..]), PER_LINE) == Lines(letter, Marked(names, was), PER_LINE)
  }

  lemma NothingSaidYet(letter: char, names: seq<string>, was: seq<bool>)
    requires |names| == |was|
    ensures Progress(letter, [], "-", [], names, was, 0)
  {
    assert names[0..] == names && was[0..] == was && [] + Marked(names, was) == Marked(names, was);
    assert "-" + Letters(letter, 0) == "-";
  }

  method Announce(head: Node?<Membership>, flag: Flag, letter: char, ghost ns: seq<Node<Membership>>, ghost ms: seq<Membership>)
      returns (sent: seq<ModeLine>)
    requires Chain(ns, ms) && Distinct(ms) && head == if ns != [] then ns[0] else null
    modifies ms
    ensures forall m :: m in ms ==> m.flags == old(m.flags) - {flag}
    ensures sent == Lines(letter, Marked(Names(ms), old(Flagged(ms, flag))), PER_LINE)
  {
    ghost var was, names := Flagged(ms, flag), Names(ms);
    NothingSaidYet(letter, names, was);
    var modes, para;
    sent, modes, para := StripAll(head, flag, letter, ns, ms, names, was);
    sent := LastLine(letter, sent, modes, para, names, was);
  }

  method StripAll(head: Node?<Membership>, flag: Flag, letter: char, ghost ns: seq<Node<Membership>>, ghost ms: seq<Membership>,
                  ghost names: seq<string>, ghost was: seq<bool>)
      returns (sent: seq<ModeLine>, modes: string, para: seq<string>)
    requires Chain(ns, ms) && Distinct(ms) && head == if ns != [] then ns[0] else null
    requires names == Names(ms) && was == Flagged(ms, flag) && Progress(letter, [], "-", [], names, was, 0)
    modifies ms
    ensures forall j :: 0 <= j < |ms| ==> ms[j].flags == old(ms[j].flags) - {flag}
    ensures Progress(letter, sent, modes, para, names, was, |names|)
  {
    var ptr := head;
    modes, para := "-", [];
    sent := [];
    ghost var i := 0;
    while ptr != null
      invariant i <= |ms| && ptr == (if i < |ms| then ns[i] else null) && Chain(ns, ms)
      invariant forall j :: 0 <= j < |ms| ==> ms[j].flags == if j < i then old(ms[j].flags) - {flag} else old(ms[j].flags)
      invariant Progress(letter, sent, modes, para, names, was, i)
      decreases |ms| - i
    {
      sent, modes, para := Strip(ptr, flag, letter, sent, modes, para, ns, ms, names, was, i);
      ptr := ptr.next;
      i := i + 1;
    }
  }

  method LastLine(letter: char, sent: seq<ModeLine>, modes: string, para: seq<string>,
                  ghost names: seq<string>, ghost was: seq<bool>) returns (r: seq<ModeLine>)
    requires |names| == |was| && Progress(letter, sent, modes, para, names, was, |names|)
    ensures r == Lines(letter, Marked(names, was), PER_LINE)
  {
    assert para + [] == para;
    r := sent;
    if para != [] {
      r := r + [ModeLine(modes, para)];
    }
  }

  /** The body of the loop: takes the flag from the member at ptr and notes its name. */
  method Strip(ptr: Node<Membership>, flag: Flag, letter: char, sent: seq<ModeLine>, modes: string, para: seq<string>,
               ghost ns: seq<Node<Membership>>, ghost ms: seq<Membership>,
               ghost names: seq<string>, ghost was: seq<bool>, ghost i: nat)
      returns (sent': seq<ModeLine>, modes': string, para': seq<string>)
    requires Chain(ns, ms) && Distinct(ms) && i < |ms| == |was| && ptr == ns[i]
    requires names == Names(ms) && was[i] == (flag in ms[i].flags)
    requires Progress(letter, sent, modes, para, names, was, i)
    modifies ptr.data
    ensures Chain(ns, ms)
    ensures forall j :: 0 <= j < |ms| ==> ms[j].flags == if j == i then old(ms[j].flags) - {flag} else old(ms[j].flags)
    ensures Progress(letter, sent', modes', para', names, was, i + 1)
  {
    var m := ptr.data;
    sent', modes', para' := sent, modes, para;
    NextName(letter, Buffer(sent, para), names, was, i, PER_LINE);
    if flag in m.flags {
      m.flags := m.flags - {flag};
      sent', modes', para' := Add(letter, sent, modes, para, m.client.name);
    }
  }

  /** One more name for the current line, which is sent when it is full. */
  method Add(letter: char, sent: seq<ModeLine>, modes: string, para: seq<string>, name: string)
      returns (sent': seq<ModeLine>, modes': string, para': seq<string>)
    requires |para| < PER_LINE && modes == "-" + Letters(letter, |para|)
    ensures Buffer(sent', para') == Push(letter, Buffer(sent, para), name, PER_LINE)
    ensures |para'| < PER_LINE && modes' == "-" + Letters(letter, |para'|)
  {
    sent', modes', para' := sent, modes + [letter], para + [name];
    assert Letters(letter, |para|) + [letter] == Letters(letter, |para'|);
    assert modes' == "-" + Letters(letter, |para'|);
    assert LineOf(letter, para') == ModeLine(modes', para');
    if |para'| == PER_LINE {
      sent' := sent' + [ModeLine(modes', para')];
      modes', para' := "-", [];
    }
  }

  // ----- emptying the channel

  /** The first i nodes without those that are not marked. */
  ghost function KeptUpTo<A>(ns: seq<A>, keep: seq<bool>, i: nat): seq<A>
    requires i <= |ns| == |keep|
  {
    if i == 0 then [] else KeptUpTo(ns, keep, i - 1) + if keep[i - 1] then [ns[i - 1]] else []
  }

  lemma {:induction false} KeptIsMarked<A>(ns: seq<A>, keep: seq<bool>, i: nat)
    requires i <= |ns| == |keep|
    ensures KeptUpTo(ns, keep, i) + Marked(ns[i..], keep[i..]) == Marked(ns, keep)
  {
    if i == 0 {
      assert ns[0..] == ns && keep[0..] == keep && [] + Marked(ns, keep) == Marked(ns, keep);
    } else {
      KeptIsMarked(ns, keep, i - 1);
      MarkedFrom(ns, keep, i - 1);
      var x := if keep[i - 1] then [ns[i - 1]] else [];
      Regroup(KeptUpTo(ns, keep, i - 1), x, Marked(ns[i..], keep[i..]));
    }
  }

  /** Dropping the i-th node from the list of kept ones and those still to visit. */
  lemma DropCurrent<A>(ns: seq<A>, keep: seq<bool>, i: nat)
    requires i < |ns| == |keep| && !keep[i]
    ensures
      var kept := KeptUpTo(ns, keep, i);
      Without(kept + ns[i..], |kept|) == KeptUpTo(ns, keep, i + 1) + ns[i + 1..]
  {
    var kept := KeptUpTo(ns, keep, i);
    assert ns[i..][1..] == ns[i + 1..];
    assert (kept + ns[i..])[..|kept|] == kept && (kept + ns[i..])[|kept| + 1..] == ns[i + 1..];
    assert kept + [] == kept;
  }

  lemma KeepCurrent<A>(ns: seq<A>, keep: seq<bool>, i: nat)
    requires i < |ns| == |keep| && keep[i]
    ensures KeptUpTo(ns, keep, i) + ns[i..] == KeptUpTo(ns, keep, i + 1) + ns[i + 1..]
  {
    assert ns[i..] == [ns[i]] + ns[i + 1..];
    var kept := KeptUpTo(ns, keep, i);
    assert kept + ([ns[i]] + ns[i + 1..]) == kept + [ns[i]] + ns[i + 1..];
  }

  lemma FromTheStart<A>(ns: seq<A>, keep: seq<bool>)
    requires |keep| == |ns|
    ensures KeptUpTo(ns, keep, 0) + ns[0..] == ns && [] + ns[0..] == ns
  {
  }

  lemma TakeOneMore<A>(ns: seq<A>, i: nat)
    requires i < |ns|
    ensures ns[..i + 1] == ns[..i] + [ns[i]]
  {
  }

  datatype Mode = Private | Secret | Moderated | TopicLimit | InviteOnly | NoPrivMsgs | OtherMode(bit: nat)

  class Channel {
    const members: List<Membership>
    var channelts: nat
    var modes: set<Mode>
    var key: string
    var forward: string
    var topic: Option<string>
    var banlist: seq<string>
    var exceptlist: seq<string>
    var invexlist: seq<string>
    /** Set by destroy_channel(), which remove_user_from_channel() calls on an empty channel. */
    var destroyed: bool

    constructor (channelts: nat)
      ensures members.Valid() && members.nodes == [] && !destroyed && this.channelts == channelts
    {
      members := new List();
      this.channelts := channelts;
      modes, key, forward, topic := {}, "", "", None;
      banlist, exceptlist, invexlist, destroyed := [], [], [], false;
    }

    /** add_user_to_channel() */
    method AddUser(who: Client, flags: set<Flag>) returns (ms: Membership, node: Node<Membership>)
      requires members.Valid()
      modifies members, members.nodes
      ensures members.Valid() && fresh(ms) && fresh(node) && members.nodes == [node] + old(members.nodes)
      ensures node.data == ms && ms.client == who && ms.flags == flags
      ensures forall n :: n in old(members.nodes) ==> n.data == old(n.data)
    {
      ms := new Membership(who, flags);
      node := new Node(ms);
      members.Add(ms, node);
    }

    /** remove_user_from_channel() */
    method RemoveUser(node: Node<Membership>, ghost k: nat)
      requires members.Valid() && k < |members.nodes| && members.nodes[k] == node
      modifies this`destroyed, members, members.nodes
      ensures members.Valid() && members.nodes == Without(old(members.nodes), k)
      ensures forall n :: n in old(members.nodes) ==> n.data == old(n.data)
      ensures destroyed == (old(destroyed) || old(|members.nodes|) == 1)
    {
      members.Delete(node, k);
      if members.length == 0 {
        destroyed := true;
      }
    }

    /** Deletes the node at ptr unless it is of `source`. */
    method SweepOne(ptr: Node<Membership>, source: Client, ghost ns: seq<Node<Membership>>, ghost keep: seq<bool>, ghost i: nat,
                    ghost repr: set<Node<Membership>>)
      requires members.Valid() && i < |ns| == |keep| && ptr == ns[i] && keep[i] == (ptr.data.client == source)
      requires members.nodes == KeptUpTo(ns, keep, i) + ns[i..]
      requires forall j :: 0 <= j < |members.nodes| ==> members.nodes[j] in repr
      modifies this`destroyed, members, repr
      ensures members.Valid() && members.nodes == KeptUpTo(ns, keep, i + 1) + ns[i + 1..]
      ensures forall j :: 0 <= j < |members.nodes| ==> members.nodes[j] in repr
      ensures forall n :: n in repr ==> n.data == old(n.data)
      ensures destroyed == (old(destroyed) || members.nodes == [])
    {
      ghost var k := |KeptUpTo(ns, keep, i)|;
      assert members.nodes[k] == ptr;
      if ptr.data.client != source {
        DropOne(ptr, k, repr);
        DropCurrent(ns, keep, i);
      } else {
        KeepCurrent(ns, keep, i);
      }
    }

    method DropOne(ptr: Node<Membership>, ghost k: nat, ghost repr: set<Node<Membership>>)
      requires members.Valid() && k < |members.nodes| && members.nodes[k] == ptr
      requires forall j :: 0 <= j < |members.nodes| ==> members.nodes[j] in repr
      modifies this`destroyed, members, repr
      ensures members.Valid() && members.nodes == Without(old(members.nodes), k)
      ensures forall j :: 0 <= j < |members.nodes| ==> members.nodes[j] in repr
      ensures forall n :: n in repr ==> n.data == old(n.data)
      ensures destroyed == (old(destroyed) || members.nodes == [])
    {
      RemoveUser(ptr, k);
    }

    /** The state of the sweep when it comes to the i-th of the original nodes: the ones before are dealt with,
        and `next` was read before the current one is. */
    ghost predicate Sweeping(ns: seq<Node<Membership>>, ms: seq<Membership>, source: Client, i: nat,
                             ptr: Node?<Membership>, next: Node?<Membership>, visited: seq<Node<Membership>>)
      reads this, members, members.nodes, ns
    {
      && i <= |ns| == |ms| && members.Valid() && visited == ns[..i]
      && members.nodes == KeptUpTo(ns, Of(ms, source), i) + ns[i..]
      && ptr == (if i < |ns| then ns[i] else null)
      && next == (if i + 1 < |ns| then ns[i + 1] else null)
      && (forall j :: 0 <= j < |members.nodes| ==> members.nodes[j] in ns)
      && (forall j :: 0 <= j < |ns| ==> ns[j].data == ms[j])
    }

    lemma NextOfRest(kept: seq<Node<Membership>>, ns: seq<Node<Membership>>, i: nat)
      requires members.Valid() && i < |ns| && members.nodes == kept + ns[i..]
      ensures ns[i].next == if i + 1 < |ns| then ns[i + 1] else null
    {
      var k := |kept|;
      assert members.nodes[k] == ns[i];
      if i + 1 < |ns| {
        assert members.nodes[k + 1] == ns[i + 1];
      }
    }

    method SweepStart(source: Client) returns (ptr: Node?<Membership>, next: Node?<Membership>)
      requires members.Valid()
      ensures Sweeping(members.nodes, members.Data(), source, 0, ptr, next, [])
    {
      ptr, next := FirstTwo();
      SweepBegins(source, ptr, next);
    }

    method FirstTwo() returns (ptr: Node?<Membership>, next: Node?<Membership>)
      requires members.Valid()
      ensures ptr == if members.nodes == [] then null else members.nodes[0]
      ensures next == if |members.nodes| < 2 then null else members.nodes[1]
    {
      ptr := members.head;
      next := if ptr != null then ptr.next else null;
      assert |members.nodes| > 1 ==> members.nodes[0].next == members.nodes[1];
    }

    lemma SweepBegins(source: Client, ptr: Node?<Membership>, next: Node?<Membership>)
      requires members.Valid()
      requires ptr == if members.nodes == [] then null else members.nodes[0]
      requires next == if |members.nodes| < 2 then null else members.nodes[1]
      ensures Sweeping(members.nodes, members.Data(), source, 0, ptr, next, [])
    {
      FromTheStart(members.nodes, Of(members.Data(), source));
    }

    method SweepStep(ptr: Node<Membership>, next: Node?<Membership>, source: Client,
                     ghost ns: seq<Node<Membership>>, ghost ms: seq<Membership>, ghost i: nat,
                     ghost visited: seq<Node<Membership>>)
        returns (ptr': Node?<Membership>, next': Node?<Membership>, ghost visited': seq<Node<Membership>>)
      requires Sweeping(ns, ms, source, i, ptr, next, visited)
      modifies this`destroyed, members, ns
      ensures Sweeping(ns, ms, source, i + 1, ptr', next', visited') && visited' == visited + [ptr]
      ensures destroyed == (old(destroyed) || members.nodes == [])
    {
      ghost var repr := set n | n in ns;
      TakeOneMore(ns, i);
      visited' := visited + [ptr];
      SweepOne(ptr, source, ns, Of(ms, source), i, repr);
      ptr', next' := next, null;
      if ptr' != null {
        NextOfRest(KeptUpTo(ns, Of(ms, source), i + 1), ns, i + 1);
        next' := ptr'.next;
      }
    }

    /** The sweep of kick_list(), which deletes its current node: `visited` are the nodes in the order in which
        the loop came to them. */
    method RemoveOthers(source: Client) returns (ghost visited: seq<Node<Membership>>)
      requires members.Valid()
      modifies this`destroyed, members, members.nodes
      ensures members.Valid() && visited == old(members.nodes)
      ensures LeftOf(old(members.nodes), old(members.Data()), source)
      ensures true in Of(old(members.Data()), source) ==> destroyed == old(destroyed)
    {
      var ptr, next := SweepStart(source);
      visited := SweepFrom(ptr, next, source, members.nodes, members.Data());
    }

    method SweepFrom(first: Node?<Membership>, second: Node?<Membership>, source: Client,
                     ghost ns: seq<Node<Membership>>, ghost ms: seq<Membership>)
        returns (ghost visited: seq<Node<Membership>>)
      requires Sweeping(ns, ms, source, 0, first, second, [])
      modifies this`destroyed, members, ns
      ensures members.Valid() && visited == ns && LeftOf(ns, ms, source)
      ensures true in Of(ms, source) ==> destroyed == old(destroyed)
    {
      var ptr, next := first, second;
      ghost var i := 0;
      visited := [];
      while ptr != null
        invariant Sweeping(ns, ms, source, i, ptr, next, visited)
        invariant destroyed == old(destroyed) || members.nodes == []
        decreases |ns| - i
      {
        ptr, next, visited := SweepStep(ptr, next, source, ns, ms, i, visited);
        i := i + 1;
      }
      SweepDone(ns, ms, source, i, next, visited);
    }

    /** What is left of a channel: the memberships of one client, in place. */
    ghost predicate LeftOf(ns: seq<Node<Membership>>, ms: seq<Membership>, source: Client)
      reads this, members, ns
    {
      && |ns| == |ms| && members.nodes == Marked(ns, Of(ms, source))
      && (forall j :: 0 <= j < |ns| ==> ns[j].data == ms[j])
    }

    lemma SweepDone(ns: seq<Node<Membership>>, ms: seq<Membership>, source: Client, i: nat,
                    next: Node?<Membership>, visited: seq<Node<Membership>>)
      requires Sweeping(ns, ms, source, i, null, next, visited)
      ensures members.Valid() && visited == ns && LeftOf(ns, ms, source)
      ensures true in Of(ms, source) ==> members.nodes != []
    {
      var keep := Of(ms, source);
      KeptIsMarked(ns, keep, |ns|);
      if k :| 0 <= k < |ns| && keep[k] {
        MarkedAre(ns, keep, ns[k]);
      }
    }

    /** The KICK lines of kick_list(): the names of all members, in order. */
    method KickNames() returns (names: seq<string>)
      requires members.Valid()
      ensures names == Names(members.Data())
    {
      ghost var ns, ms := members.nodes, members.Data();
      ListIsChain(members);
      names := [];
      var ptr := members.head;
      ghost var i := 0;
      while ptr != null
        invariant i <= |ns| && ptr == (if i < |ns| then ns[i] else null)
        invariant names == Names(ms)[..i]
        decreases |ns| - i
      {
        TakeOneMore(Names(ms), i);
        names := names + [ptr.data.client.name];
        ptr := ptr.next;
        i := i + 1;
      }
    }

    /** kick_list() */
    method KickList(source: Client) returns (kicked: seq<string>)
      requires members.Valid() && forall m :: m in members.Data() ==> m.client != source
      modifies this`destroyed, members, members.nodes
      ensures kicked == Names(old(members.Data()))
      ensures members.Valid() && |members.nodes| == 1 && fresh(members.nodes[0].data)
      ensures members.nodes[0].data.client == source && members.nodes[0].data.flags == {Chanop}
      ensures destroyed == old(destroyed)
    {
      kicked := KickNames();
      ghost var ms := members.Data();
      var m, node := AddUser(source, {Chanop});
      assert forall i :: 0 < i < |members.Data()| ==> members.Data()[i] == ms[i - 1];
      LeaveOnly(source, node, m);
    }

    /** The sweep, when only the newest member is the one to stay. */
    method LeaveOnly(source: Client, ghost node: Node<Membership>, ghost m: Membership)
      requires members.Valid() && members.nodes != [] && members.nodes[0] == node && node.data == m && m.client == source
      requires forall i :: 0 < i < |members.Data()| ==> members.Data()[i].client != source
      modifies this`destroyed, members, members.nodes
      ensures members.Valid() && members.nodes == [node] && node.data == m && destroyed == old(destroyed)
    {
      ghost var ns, ms := members.nodes, members.Data();
      assert ns == [node] + ns[1..] && ms[0] == m;
      OnlyTheFirst(node, ns[1..], ms, source);
      assert Of(ms, source)[0];
      ghost var visited := RemoveOthers(source);
      assert ns[0].data == ms[0];
    }
  }

  lemma {:induction false} NoneMarked<A>(xs: seq<A>, marks: seq<bool>)
    requires |xs| == |marks| && true !in marks
    ensures Marked(xs, marks) == []
  {
    if xs != [] {
      assert marks[0] in marks;
      NoneMarked(xs[1..], marks[1..]);
    }
  }

  lemma OnlyTheFirst<A>(x: A, xs: seq<A>, ms: seq<Membership>, source: Client)
    requires |ms| == |xs| + 1 && ms[0].client == source && forall i :: 0 < i < |ms| ==> ms[i].client != source
    ensures Marked([x] + xs, Of(ms, source)) == [x]
  {
    var marks := Of(ms, source);
    assert ([x] + xs)[1..] == xs;
    assert true !in marks[1..];
    NoneMarked(xs, marks[1..]);
  }

  // ----- the handler

  /** The flags that CLEARCHAN takes away, with their letters, for a server with or without +q/+a and +h. */
  function Taken(chanaq: bool, halfops: bool): seq<(Flag, char)> {
    (if chanaq then [(Owner, 'q'), (Protected, 'a')] else [])
    + [(Chanop, 'o')] + (if halfops then [(Halfop, 'h')] else []) + [(Voice, 'v')]
  }

  ghost function FlagSets(ms: seq<Membership>): (r: seq<set<Flag>>)
    reads ms
    ensures |r| == |ms| && forall i :: 0 <= i < |ms| ==> r[i] == ms[i].flags
  {
    seq(|ms|, i requires 0 <= i < |ms| reads ms => ms[i].flags)
  }

  function Having(flags: seq<set<Flag>>, flag: Flag): (r: seq<bool>)
    ensures |r| == |flags|
  {
    seq(|flags|, i requires 0 <= i < |flags| => flag in flags[i])
  }

  /** What is announced when the flags `taken` are taken from members with these names and flags. */
  function Announced(names: seq<string>, flags: seq<set<Flag>>, taken: seq<(Flag, char)>): seq<ModeLine>
    requires |names| == |flags|
  {
    if taken == [] then []
    else Lines(taken[0].1, Marked(names, Having(flags, taken[0].0)), PER_LINE) + Announced(names, flags, taken[1..])
  }

  function FlagsOf(taken: seq<(Flag, char)>): set<Flag> {
    set t | t in taken :: t.0
  }

  ghost predicate StrippedOf(ms: seq<Membership>, was: seq<set<Flag>>, gone: set<Flag>)
    reads ms
  {
    |ms| == |was| && forall j :: 0 <= j < |ms| ==> ms[j].flags == was[j] - gone
  }

  /** The calls of remove_our_modes(), in order. */
  method RemoveModes(members: List<Membership>, taken: seq<(Flag, char)>) returns (sent: seq<ModeLine>)
    requires members.Valid() && Distinct(members.Data())
    requires forall i, j :: 0 <= i < j < |taken| ==> taken[i].0 != taken[j].0
    modifies members.Data()
    ensures members.Valid() && members.Data() == old(members.Data())
    ensures sent == Announced(Names(members.Data()), old(FlagSets(members.Data())), taken)
    ensures forall m :: m in old(members.Data()) ==> m.flags == old(m.flags) - FlagsOf(taken)
  {
    ghost var ms, was := members.Data(), FlagSets(members.Data());
    sent := [];
    NothingAnnouncedYet(Names(ms), was, taken);
    for i := 0 to |taken|
      invariant members.Valid() && members.Data() == ms && StrippedOf(ms, was, FlagsOf(taken[..i]))
      invariant sent + Announced(Names(ms), was, taken[i..]) == Announced(Names(ms), was, taken)
    {
      NextAnnounced(sent, Names(ms), was, taken, i);
      var lines := RemoveNext(members, was, taken, i);
      sent := sent + lines;
    }
    assert taken[..|taken|] == taken;
    assert sent + [] == sent;
  }

  method RemoveNext(members: List<Membership>, ghost was: seq<set<Flag>>, taken: seq<(Flag, char)>, i: nat)
      returns (lines: seq<ModeLine>)
    requires members.Valid() && Distinct(members.Data()) && i < |taken|
    requires forall i, j :: 0 <= i < j < |taken| ==> taken[i].0 != taken[j].0
    requires StrippedOf(members.Data(), was, FlagsOf(taken[..i]))
    modifies members.Data()
    ensures members.Valid() && members.Data() == old(members.Data())
    ensures lines == Lines(taken[i].1, Marked(Names(members.Data()), Having(was, taken[i].0)), PER_LINE)
    ensures StrippedOf(members.Data(), was, FlagsOf(taken[..i + 1]))
  {
    FlagsOfNext(taken, i);
    assert Flagged(members.Data(), taken[i].0) == Having(was, taken[i].0);
    lines := RemoveAMode(members, taken[i].0, taken[i].1);
    ghost var ms := members.Data();
    assert forall j :: 0 <= j < |ms| ==> ms[j] in ms;
  }

  lemma NothingAnnouncedYet(names: seq<string>, was: seq<set<Flag>>, taken: seq<(Flag, char)>)
    requires |names| == |was|
    ensures [] + Announced(names, was, taken[0..]) == Announced(names, was, taken)
  {
    assert taken[0..] == taken;
  }

  lemma NextAnnounced(sent: seq<ModeLine>, names: seq<string>, was: seq<set<Flag>>, taken: seq<(Flag, char)>, i: nat)
    requires |names| == |was| && i < |taken|
    ensures sent + Announced(names, was, taken[i..])
         == sent + Lines(taken[i].1, Marked(names, Having(was, taken[i].0)), PER_LINE) + Announced(names, was, taken[i + 1..])
  {
    assert taken[i..][0] == taken[i] && taken[i..][1..] == taken[i + 1..];
    Regroup(sent, Lines(taken[i].1, Marked(names, Having(was, taken[i].0)), PER_LINE), Announced(names, was, taken[i + 1..]));
  }

  lemma FlagsOfNext(taken: seq<(Flag, char)>, i: nat)
    requires i < |taken| && forall i, j :: 0 <= i < j < |taken| ==> taken[i].0 != taken[j].0
    ensures FlagsOf(taken[..i + 1]) == FlagsOf(taken[..i]) + {taken[i].0} && taken[i].0 !in FlagsOf(taken[..i])
  {
    assert taken[..i + 1] == taken[..i] + [taken[i]];
  }

  // ----- what the lines say

  /** The flag that a mode letter stands for. */
  function FlagOf(letter: char): Option<Flag> {
    match letter
    case 'q' => Some(Owner)
    case 'a' => Some(Protected)
    case 'o' => Some(Chanop)
    case 'h' => Some(Halfop)
    case 'v' => Some(Voice)
    case _ => None
  }

  /** What an observer who knows the flags of a member makes of a line that takes modes. */
  function Seen(had: set<Flag>, name: string, line: ModeLine): set<Flag> {
    if line.modes == "" || line.modes[0] != '-' then had
    else
      had - set i | 0 <= i < |line.names| && i + 1 < |line.modes| && line.names[i] == name && FlagOf(line.modes[i + 1]).Some? ::
              FlagOf(line.modes[i + 1]).value
  }

  function SeenAll(had: set<Flag>, name: string, lines: seq<ModeLine>): set<Flag> {
    if lines == [] then had else SeenAll(Seen(had, name, lines[0]), name, lines[1..])
  }

  lemma {:induction false} SeenConcat(had: set<Flag>, name: string, a: seq<ModeLine>, b: seq<ModeLine>)
    ensures SeenAll(had, name, a + b) == SeenAll(SeenAll(had, name, a), name, b)
    decreases |a|
  {
    if a == [] {
      assert a + b == b;
    } else {
      assert (a + b)[0] == a[0] && (a + b)[1..] == a[1..] + b;
      SeenConcat(Seen(had, name, a[0]), name, a[1..], b);
    }
  }

  lemma OneLineSeen(had: set<Flag>, name: string, letter: char, flag: Flag, names: seq<string>)
    requires FlagOf(letter) == Some(flag)
    ensures Seen(had, name, LineOf(letter, names)) == had - if name in names then {flag} else {}
  {
    var line := LineOf(letter, names);
    assert forall i :: 0 < i < |line.modes| ==> line.modes[i] == letter;
    if name in names {
      var i :| 0 <= i < |names| && names[i] == name;
      assert FlagOf(line.modes[i + 1]).value == flag;
    }
  }

  lemma {:induction false} LinesSeen(had: set<Flag>, name: string, letter: char, flag: Flag, names: seq<string>, n: nat)
    requires FlagOf(letter) == Some(flag) && n > 0
    ensures SeenAll(had, name, Lines(letter, names, n)) == had - if name in names then {flag} else {}
    decreases |names|
  {
    if |names| >= n {
      var first, rest := names[..n], names[n..];
      assert names == first + rest;
      OneLineSeen(had, name, letter, flag, first);
      LinesSeen(Seen(had, name, LineOf(letter, first)), name, letter, flag, rest, n);
      assert ([LineOf(letter, first)] + Lines(letter, rest, n))[1..] == Lines(letter, rest, n);
    } else if names != [] {
      OneLineSeen(had, name, letter, flag, names);
      assert [LineOf(letter, names)][1..] == [];
    }
  }

  /** An observer who applies the lines to what a member had sees him without the flags that are taken. */
  lemma {:induction false} AnnouncedIsSeen(names: seq<string>, flags: seq<set<Flag>>, taken: seq<(Flag, char)>, j: nat,
                                           had: set<Flag>)
    requires j < |names| == |flags| && Distinct(names) && had <= flags[j]
    requires Lettered(taken)
    ensures SeenAll(had, names[j], Announced(names, flags, taken)) == had - FlagsOf(taken)
    decreases |taken|
  {
    if taken != [] {
      var flag, rest := taken[0].0, taken[1..];
      var lines := Lines(taken[0].1, Marked(names, Having(flags, flag)), PER_LINE);
      OneModeSeen(names, flags, taken[0].1, flag, j, had);
      SeenConcat(had, names[j], lines, Announced(names, flags, rest));
      AnnouncedIsSeen(names, flags, rest, j, had - {flag});
      FlagsOfFirst(taken);
      SetsApart(had, {flag}, FlagsOf(rest));
    }
  }

  lemma OneModeSeen(names: seq<string>, flags: seq<set<Flag>>, letter: char, flag: Flag, j: nat, had: set<Flag>)
    requires j < |names| == |flags| && Distinct(names) && had <= flags[j] && FlagOf(letter) == Some(flag)
    ensures SeenAll(had, names[j], Lines(letter, Marked(names, Having(flags, flag)), PER_LINE)) == had - {flag}
  {
    MarkedAre(names, Having(flags, flag), names[j]);
    LinesSeen(had, names[j], letter, flag, Marked(names, Having(flags, flag)), PER_LINE);
    if i :| 0 <= i < |names| && names[i] == names[j] && Having(flags, flag)[i] {
      assert i == j;
    }
  }

  lemma FlagsOfFirst(taken: seq<(Flag, char)>)
    requires taken != []
    ensures FlagsOf(taken) == {taken[0].0} + FlagsOf(taken[1..])
  {
    assert taken == [taken[0]] + taken[1..];
  }

  lemma SetsApart<A>(s: set<A>, t: set<A>, u: set<A>)
    ensures s - t - u == s - (t + u)
  {
  }

  /** After CLEARCHAN every member is seen without any of the flags that the server knows. */
  lemma ClearedIsSeen(names: seq<string>, flags: seq<set<Flag>>, chanaq: bool, halfops: bool, j: nat)
    requires j < |names| == |flags| && Distinct(names)
    ensures SeenAll(flags[j], names[j], Announced(names, flags, Taken(chanaq, halfops)))
              == flags[j] - {Chanop, Voice} - (if chanaq then {Owner, Protected} else {}) - (if halfops then {Halfop} else {})
  {
    AnnouncedIsSeen(names, flags, Taken(chanaq, halfops), j, flags[j]);
    TakenAre(chanaq, halfops);
  }

  predicate Lettered(taken: seq<(Flag, char)>) {
    forall i :: 0 <= i < |taken| ==> FlagOf(taken[i].1) == Some(taken[i].0)
  }

  lemma OneTaken(flag: Flag, letter: char)
    requires FlagOf(letter) == Some(flag)
    ensures FlagsOf([(flag, letter)]) == {flag} && Lettered([(flag, letter)])
  {
    assert (flag, letter) in [(flag, letter)];
  }

  lemma TakenTogether(a: seq<(Flag, char)>, b: seq<(Flag, char)>)
    requires Lettered(a) && Lettered(b)
    ensures FlagsOf(a + b) == FlagsOf(a) + FlagsOf(b) && Lettered(a + b)
  {
  }

  lemma OwnersTaken(chanaq: bool)
    ensures
      var aq := if chanaq then [(Owner, 'q'), (Protected, 'a')] else [];
      Lettered(aq) && FlagsOf(aq) == if chanaq then {Owner, Protected} else {}
  {
    if chanaq {
      OneTaken(Owner, 'q');
      OneTaken(Protected, 'a');
      TakenTogether([(Owner, 'q')], [(Protected, 'a')]);
      assert [(Owner, 'q')] + [(Protected, 'a')] == [(Owner, 'q'), (Protected, 'a')];
    }
  }

  lemma TakenAre(chanaq: bool, halfops: bool)
    ensures FlagsOf(Taken(chanaq, halfops))
              == {Chanop, Voice} + (if chanaq then {Owner, Protected} else {}) + (if halfops then {Halfop} else {})
    ensures Lettered(Taken(chanaq, halfops))
  {
    OneTaken(Chanop, 'o');
    OneTaken(Voice, 'v');
    OneTaken(Halfop, 'h');
    OwnersTaken(chanaq);
    FourTaken(if chanaq then [(Owner, 'q'), (Protected, 'a')] else [], [(Chanop, 'o')],
              if halfops then [(Halfop, 'h')] else [], [(Voice, 'v')]);
  }

  lemma FourTaken(a: seq<(Flag, char)>, b: seq<(Flag, char)>, c: seq<(Flag, char)>, d: seq<(Flag, char)>)
    requires Lettered(a) && Lettered(b) && Lettered(c) && Lettered(d)
    ensures FlagsOf(a + b + c + d) == FlagsOf(a) + FlagsOf(b) + FlagsOf(c) + FlagsOf(d) && Lettered(a + b + c + d)
  {
    TakenTogether(a, b);
    TakenTogether(a + b, c);
    TakenTogether(a + b + c, d);
  }

  /** A line takes from one to four modes. */
  lemma {:induction false} FourALine(names: seq<string>, flags: seq<set<Flag>>, taken: seq<(Flag, char)>)
    requires |names| == |flags|
    ensures forall line :: line in Announced(names, flags, taken) ==> 1 <= |line.names| <= 4 && |line.modes| == |line.names| + 1
    decreases |taken|
  {
    if taken != [] {
      LinesSayAll(taken[0].1, Marked(names, Having(flags, taken[0].0)), PER_LINE);
      FourALine(names, flags, taken[1..]);
    }
  }

  datatype Reply =
    | NoPrivileges
    | NoSuchChannel
    | PartFirst
    | Cleared(modeLines: seq<ModeLine>, joinTs: int, kicked: seq<string>)

  /** The channel fields that CLEARCHAN resets. */
  ghost predicate Locked(chptr: Channel)
    reads chptr
  {
    && chptr.modes == {Secret, TopicLimit, InviteOnly, NoPrivMsgs} && chptr.key == "" && chptr.forward == ""
    && chptr.topic.None? && chptr.banlist == chptr.exceptlist == chptr.invexlist == []
  }

  method Lock(chptr: Channel) returns (joinTs: int)
    modifies chptr
    ensures Locked(chptr) && chptr.destroyed == old(chptr.destroyed)
    ensures chptr.modes == {Secret, TopicLimit, InviteOnly, NoPrivMsgs} && chptr.key == "" && chptr.forward == ""
    ensures chptr.topic.None? && chptr.banlist == [] && chptr.exceptlist == [] && chptr.invexlist == []
    ensures joinTs == old(chptr.channelts) - 1 && chptr.channelts == if joinTs < 0 then 0 else joinTs
  {
    chptr.banlist, chptr.exceptlist, chptr.invexlist := [], [], [];
    joinTs := chptr.channelts - 1;
    if chptr.channelts != 0 {
      chptr.channelts := chptr.channelts - 1;
    }
    chptr.modes := {Secret, TopicLimit, InviteOnly, NoPrivMsgs};
    chptr.topic, chptr.key, chptr.forward := None, "", "";
  }

  /** The part of mo_clearchan() after its checks. */
  method Clear(chptr: Channel, source: Client, taken: seq<(Flag, char)>) returns (r: Reply)
    requires chptr.members.Valid() && Distinct(chptr.members.Data())
    requires forall i, j :: 0 <= i < j < |taken| ==> taken[i].0 != taken[j].0
    requires forall m :: m in chptr.members.Data() ==> m.client != source
    modifies chptr, chptr.members, chptr.members.nodes, chptr.members.Data()
    ensures r.Cleared? && r.modeLines == old(Announced(Names(chptr.members.Data()), FlagSets(chptr.members.Data()), taken))
    ensures r.kicked == Names(old(chptr.members.Data())) && r.joinTs == old(chptr.channelts) - 1
    ensures chptr.channelts == if r.joinTs < 0 then 0 else r.joinTs
    ensures Locked(chptr) && chptr.destroyed == old(chptr.destroyed)
    ensures chptr.members.Valid() && |chptr.members.nodes| == 1
    ensures chptr.members.nodes[0].data.client == source && chptr.members.nodes[0].data.flags == {Chanop}
  {
    var modeLines := RemoveModes(chptr.members, taken);
    var joinTs := Lock(chptr);
    var kicked := chptr.KickList(source);
    r := Cleared(modeLines, joinTs, kicked);
  }

  /** mo_clearchan(): `linked` is what IsMember() says of the operator, from his own list of channels. */
  method MoClearchan(admin: bool, chptr: Channel?, linked: bool, source: Client, chanaq: bool, halfops: bool)
      returns (r: Reply)
    requires chptr != null ==> chptr.members.Valid() && Distinct(chptr.members.Data())
    requires chptr != null ==> (linked <==> exists m :: m in chptr.members.Data() && m.client == source)
    modifies chptr, if chptr != null then {chptr.members} else {}
    modifies if chptr != null then chptr.members.nodes else [], if chptr != null then chptr.members.Data() else []
    ensures r.NoPrivileges? <==> !admin
    ensures r.NoSuchChannel? <==> admin && chptr == null
    ensures r.PartFirst? <==> admin && chptr != null && linked
    ensures !r.Cleared? && chptr != null ==> unchanged(chptr) && unchanged(chptr.members)
    ensures r.Cleared? ==>
              r.joinTs == old(chptr.channelts) - 1 && chptr.channelts == if r.joinTs < 0 then 0 else r.joinTs
    ensures r.Cleared? ==>
              Locked(chptr) && chptr.members.Valid() && |chptr.members.nodes| == 1
              && chptr.members.nodes[0].data.client == source && chptr.members.nodes[0].data.flags == {Chanop}
    ensures r.Cleared? ==>
              r.modeLines == old(Announced(Names(chptr.members.Data()), FlagSets(chptr.members.Data()), Taken(chanaq, halfops)))
              && r.kicked == Names(old(chptr.members.Data())) && chptr.destroyed == old(chptr.destroyed)
  {
    if !admin {
      return NoPrivileges;
    }
    if chptr == null {
      return NoSuchChannel;
    }
    if linked {
      return PartFirst;
    }
    r := Clear(chptr, source, Taken(chanaq, halfops));
  }
}
