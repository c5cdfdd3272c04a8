/** TBURST on one server: which topic a channel keeps, and what goes on to the other servers
    (modules/m_tburst.c, set_channel_topic() in src/channel.c). */
module Tburst {
  import opened Options
  import opened Seqs
  import opened Text

  type Server = nat

  const TOPICLEN: nat := 390
  const USERHOST_REPLYLEN: nat := 108

  datatype Topic = Topic(text: string, info: string)

  /** The fields of a channel that TBURST reads and writes. */
  datatype Chan = Chan(ts: int, time: int, topic: Option<Topic>)

  /** The parameters of a TBURST line; no text unsets the topic. */
  datatype Burst = Burst(ts: int, time: int, info: string, text: string)

  function Stored(b: Burst): Topic {
    Topic(Cut(b.text, TOPICLEN), Cut(b.info, USERHOST_REPLYLEN - 1))
  }

  /** A topic that set_channel_topic() can have stored. */
  predicate Storable(t: Topic) {
    0 < |t.text| <= TOPICLEN && |t.info| < USERHOST_REPLYLEN
  }

  predicate Accepts(c: Chan, b: Burst) {
    b.ts < c.ts || (b.ts == c.ts && b.time > c.time)
  }

  function Receive(c: Chan, b: Burst): Chan {
    if !Accepts(c, b) then c
    else if b.text == "" then c.(topic := None)
    else c.(topic := Some(Stored(b)), time := b.time)
  }

  /** What a server bursts of its own channel. */
  function BurstOf(c: Chan): Burst {
    match c.topic
    case Some(t) => Burst(c.ts, c.time, t.info, t.text)
    case None => Burst(c.ts, c.time, "", "")
  }

  // ----- one channel

  /** A topic survives the trip in a burst. */
  lemma BurstCarriesTheTopic(c: Chan, own: Chan)
    requires own.topic.Some? && Storable(own.topic.value) && Accepts(c, BurstOf(own))
    ensures Receive(c, BurstOf(own)) == Chan(c.ts, own.time, own.topic)
  {
    var t := own.topic.value;
    assert Topic(t.text, t.info) == t;
  }

  /** A stored topic is the beginning of what was sent. */
  lemma StoredIsCut(b: Burst)
    ensures Stored(b).text <= b.text && |Stored(b).text| == if |b.text| <= 390 then |b.text| else 390
    ensures Stored(b).info <= b.info && |Stored(b).info| == if |b.info| <= 107 then |b.info| else 107
  {
  }

  /** Two servers that burst a channel to each other end with the topic of the older channel, or the lack of one,
      whatever the times of the topics. */
  lemma OlderChannelWins(c: Chan, own: Chan)
    requires own.ts < c.ts && (own.topic.Some? ==> Storable(own.topic.value))
    ensures Receive(c, BurstOf(own)).topic == own.topic && Receive(c, BurstOf(own)).ts == c.ts
    ensures Receive(c, BurstOf(own)).time == if own.topic.Some? then own.time else c.time
    ensures Receive(own, BurstOf(c)) == own
  {
    if own.topic.Some? {
      BurstCarriesTheTopic(c, own);
    }
  }

  /** If the channels are of one age, the newer topic is taken; the same time changes nothing. */
  lemma NewerTopicWins(c: Chan, own: Chan)
    requires own.ts == c.ts && (own.topic.Some? ==> Storable(own.topic.value))
    ensures own.time <= c.time ==> Receive(c, BurstOf(own)) == c
    ensures own.time > c.time ==>
              Receive(c, BurstOf(own)) == if own.topic.Some? then own else Chan(c.ts, c.time, None)
  {
    if own.time > c.time && own.topic.Some? {
      BurstCarriesTheTopic(c, own);
    }
  }

  function ReceiveAll(c: Chan, bs: seq<Burst>): Chan
    decreases |bs|
  {
    if bs == [] then c else ReceiveAll(Receive(c, bs[0]), bs[1..])
  }

  lemma {:induction false} TimeGrows(c: Chan, bs: seq<Burst>)
    requires forall i :: 0 <= i < |bs| ==> bs[i].ts >= c.ts
    ensures ReceiveAll(c, bs).time >= c.time && ReceiveAll(c, bs).ts == c.ts
    decreases |bs|
  {
    if bs != [] {
      TimeGrows(Receive(c, bs[0]), bs[1..]);
    }
  }

  /** Hearing a burst again changes nothing, whatever was heard in between, exactly unless it unsets a topic that was
      set in between and is older. */
  lemma RepetitionChangesNothing(c: Chan, b: Burst, between: seq<Burst>)
    requires b.ts >= c.ts && forall i :: 0 <= i < |between| ==> between[i].ts >= c.ts
    ensures
      var heard := ReceiveAll(Receive(c, b), between);
      Receive(heard, b) == heard <==> b.text != "" || b.ts > c.ts || b.time <= heard.time || heard.topic.None?
  {
    TimeGrows(Receive(c, b), between);
  }

  /** An unsetting, an older topic, and the unsetting again: the topic is lost. */
  lemma RepeatedUnsettingUnsets(topic: Burst)
    requires topic.ts == 0 && topic.time == 5 && topic.text != ""
    ensures
      var unset := Burst(0, 9, "", "");
      var heard := ReceiveAll(Receive(Chan(0, 1, None), unset), [topic]);
      heard.topic == Some(Stored(topic)) && Receive(heard, unset).topic == None
  {
    var c := Receive(Chan(0, 1, None), Burst(0, 9, "", ""));
    assert [topic][1..] == [];
    assert ReceiveAll(c, [topic]) == ReceiveAll(Receive(c, topic), []);
  }

  /** a is a topic, and b the unsetting of a topic, that are both news to c, and b is the later one. */
  predicate Overtaken(c: Chan, a: Burst, b: Burst) {
    a.text != "" && b.text == "" && c.time < a.time < b.time
  }

  /** Two bursts can be heard in either order, but for a topic and its later unsetting: unsetting a topic
      leaves its time, so that an earlier topic can still come after it. */
  lemma OrderMatters(c: Chan, a: Burst, b: Burst)
    requires a.ts == b.ts == c.ts && (a.time == b.time ==> a == b)
    ensures Receive(Receive(c, a), b) == Receive(Receive(c, b), a) <==> !Overtaken(c, a, b) && !Overtaken(c, b, a)
  {
    if a.time != b.time && a.text != "" && b.text != "" {
      assert Receive(Receive(c, a), b) == Receive(Receive(c, b), a);
    }
  }

  // ----- the handler

  datatype Link = Link(peer: Server, tburst: bool, tb: bool)

  /** A line to a link: TBURST, or TB for links that do not support TBURST. */
  datatype Sent = Tburst(peer: Server, burst: Burst) | Tb(peer: Server, info: string, text: string)

  /** The line that goes over a link, if any, in the sends that ask for TBURST and for TB without TBURST. */
  function LineFor(l: Link, from: Server, tb: bool, b: Burst): Option<Sent> {
    if l.peer == from then None
    else if tb then if l.tb && !l.tburst then Some(Tb(l.peer, b.info, b.text)) else None
    else if l.tburst then Some(Tburst(l.peer, b)) else None
  }

  /** sendto_server() */
  function SendToServer(links: seq<Link>, from: Server, tb: bool, b: Burst): seq<Sent> {
    if links == [] then []
    else
      var line, rest := LineFor(links[0], from, tb, b), SendToServer(links[1..], from, tb, b);
      if line.Some? then [line.value] + rest else rest
  }

  /** The two sends of ms_tburst(). */
  function Relayed(links: seq<Link>, from: Server, b: Burst): seq<Sent> {
    SendToServer(links, from, false, b) + if b.text != "" then SendToServer(links, from, true, b) else []
  }

  class Channel {
    var channelts: int
    var topicTime: int
    var topic: Option<Topic>
    /** Whether the name starts with #: only such channels are known to other servers. */
    const shared: bool

    constructor (channelts: int, shared: bool)
      ensures Value() == Chan(channelts, 0, None) && this.shared == shared
    {
      this.channelts, this.shared := channelts, shared;
      topicTime, topic := 0, None;
    }

    function Value(): Chan
      reads this
    {
      Chan(channelts, topicTime, topic)
    }

    /** set_channel_topic() */
    method SetChannelTopic(text: string, info: string, time: int)
      modifies this
      ensures Value() == if text == "" then old(Value()).(topic := None)
                         else old(Value()).(topic := Some(Stored(Burst(channelts, time, info, text))), time := time)
    {
      if text != "" {
        topic := Some(Topic(Cut(text, TOPICLEN), Cut(info, USERHOST_REPLYLEN - 1)));
        topicTime := time;
      } else {
        topic := None;
      }
    }
  }

  /** ms_tburst(): `chptr` is the channel named by the line, null for an unknown one, and `from` the link
      the line came in on.  Returns the topic shown to the local members, if any, and the lines sent. */
  method MsTburst(chptr: Channel?, links: seq<Link>, from: Server, parc: nat, b: Burst)
      returns (shown: Option<string>, sent: seq<Sent>)
    modifies chptr
    ensures
      var c := if parc == 6 then b else b.(info := "", text := "");
      if chptr == null then shown == None && sent == []
      else
        && chptr.Value() == Receive(old(chptr.Value()), c)
        && shown == (if (c.ts < old(chptr.channelts) || (c.ts == old(chptr.channelts) && c.time > old(chptr.topicTime)))
                        && (if old(chptr.topic).Some? then old(chptr.topic).value.text else "") != c.text
                     then Some(Cut(c.text, 390)) else None)
        && sent == if chptr.shared then Relayed(links, from, c) else []
  {
    shown, sent := None, [];
    if chptr == null {
      return;
    }
    var text, info := "", "";
    if parc == 6 {
      text, info := b.text, b.info;
    }
    var accept := false;
    if b.ts < chptr.channelts {
      accept := true;
    } else if b.ts == chptr.channelts {
      if b.time > chptr.topicTime {
        accept := true;
      }
    }
    if accept {
      var differs := (if chptr.topic.Some? then chptr.topic.value.text else "") != text;
      chptr.SetChannelTopic(text, info, b.time);
      if differs {
        shown := Some(if chptr.topic.Some? then chptr.topic.value.text else "");
      }
    }
    if chptr.shared {
      sent := Send(links, from, false, Burst(b.ts, b.time, info, text));
      if parc > 5 && text != "" {
        var more := Send(links, from, true, Burst(b.ts, b.time, info, text));
        sent := sent + more;
      }
    }
  }

  method Send(links: seq<Link>, from: Server, tb: bool, b: Burst) returns (sent: seq<Sent>)
    ensures sent == SendToServer(links, from, tb, b)
  {
    sent := [];
    for i := 0 to |links|
      invariant sent + SendToServer(links[i..], from, tb, b) == SendToServer(links, from, tb, b)
    {
      SendNext(links, i, from, tb, b);
      if links[i].peer != from && links[i].tburst == !tb && (tb ==> links[i].tb) {
        var line := if tb then Tb(links[i].peer, b.info, b.text) else Tburst(links[i].peer, b);
        Regroup(sent, [line], SendToServer(links[i + 1..], from, tb, b));
        sent := sent + [line];
      }
    }
  }

  lemma SendNext(links: seq<Link>, i: nat, from: Server, tb: bool, b: Burst)
    requires i < |links|
    ensures
      var line, rest := LineFor(links[i], from, tb, b), SendToServer(links[i + 1..], from, tb, b);
      SendToServer(links[i..], from, tb, b) == if line.Some? then [line.value] + rest else rest
  {
    assert links[i..][1..] == links[i + 1..];
  }

  /** A line is due when there is a link it goes over. */
  predicate Due(links: seq<Link>, from: Server, tb: bool, b: Burst, s: Sent) {
    exists i :: 0 <= i < |links| && LineFor(links[i], from, tb, b) == Some(s)
  }

  /** One send puts exactly one line on every link that is due one. */
  lemma {:induction false} SentOnce(links: seq<Link>, from: Server, tb: bool, b: Burst, s: Sent)
    requires forall i, j :: 0 <= i < j < |links| ==> links[i].peer != links[j].peer
    ensures multiset(SendToServer(links, from, tb, b))[s] == if Due(links, from, tb, b, s) then 1 else 0
    decreases |links|
  {
    if links != [] {
      var rest, was := links[1..], links;
      SentOnce(rest, from, tb, b, s);
      assert forall i :: 0 <= i < |rest| ==> rest[i] == was[i + 1];
      if Due(links, from, tb, b, s) && LineFor(links[0], from, tb, b) != Some(s) {
        var i :| 0 <= i < |links| && LineFor(links[i], from, tb, b) == Some(s);
        assert rest[i - 1] == links[i];
      }
    }
  }

  /** Accepted or not, a burst goes on exactly once over every link but the one it came from: as TBURST,
      or to links without TBURST as TB, if they support that and it sets a topic. */
  lemma RelayedToAllOthers(links: seq<Link>, from: Server, b: Burst, l: Link)
    requires l in links && forall i, j :: 0 <= i < j < |links| ==> links[i].peer != links[j].peer
    ensures
      var sent := multiset(Relayed(links, from, b));
      && sent[Tburst(l.peer, b)] == (if l.peer != from && l.tburst then 1 else 0)
      && sent[Tb(l.peer, b.info, b.text)] == (if l.peer != from && l.tb && !l.tburst && b.text != "" then 1 else 0)
  {
    var i :| 0 <= i < |links| && links[i] == l;
    var x, y := Tburst(l.peer, b), Tb(l.peer, b.info, b.text);
    OverItsLink(links, from, false, b, i, x);
    OverItsLink(links, from, true, b, i, x);
    OverItsLink(links, from, false, b, i, y);
    OverItsLink(links, from, true, b, i, y);
  }

  lemma OverItsLink(links: seq<Link>, from: Server, tb: bool, b: Burst, i: nat, s: Sent)
    requires forall i, j :: 0 <= i < j < |links| ==> links[i].peer != links[j].peer
    requires i < |links| && s.peer == links[i].peer
    ensures multiset(SendToServer(links, from, tb, b))[s] == if LineFor(links[i], from, tb, b) == Some(s) then 1 else 0
  {
    SentOnce(links, from, tb, b, s);
    assert Due(links, from, tb, b, s) ==> LineFor(links[i], from, tb, b) == Some(s);
  }
}
