/** How the order of delivery can decide what a flood of GLINE lines leaves behind, on two linked servers
    (modules/m_gline.c:149-212, src/s_conf.c:3301-3504). */
module FloodOrder {
  import opened Options
  import opened Text
  import opened Masks
  import opened Gline
  import opened GlineNet
  import opened Flood
  import opened FloodOutcome
  import opened FloodRuns

  // ----- a misreading that gets in the way

  function Tokens(): string -> Token {
    h => Token(NoAddress, if '/' in h then Some(8) else None)
  }

  /** Two servers of this program; the second takes no address with fewer than 16 bits. */
  function Pair(): Network {
    Network([Server([Link(1, true, true)], Config(0, 0, 4), [], false),
             Server([Link(0, true, true)], Config(16, 16, 4), [], false)], Tokens())
  }

  function Asked(): Mask {
    Mask("*abcd", "x/8", NoAddress, Some(8))
  }

  function Misread(): Mask {
    Mask("*", "*abcd", NoAddress, None)
  }

  lemma PairIsWellFormed()
    ensures WellFormedNet(Pair()) && Readable(Pair(), Asked()) && Readable(Pair(), Misread())
    ensures Linked(Pair(), 0, 1) && Linked(Pair(), 1, 0)
  {
    forall g, h | SameName(g, h)
      ensures Tokens()(g).slash == Tokens()(h).slash
    {
      CharAlike(g, h, '/');
    }
    assert forall h :: GoodToken(Tokens(), h);
    assert Link(1, true, true) in Pair().servers[0].links && Link(0, true, true) in Pair().servers[1].links;
  }

  /** What either server makes of the lines about the two masks. */
  lemma PairReads()
    ensures Takes(Pair(), 0, Asked()) && !Takes(Pair(), 1, Asked())
    ensures Takes(Pair(), 0, Misread()) && Takes(Pair(), 1, Misread())
    ensures Reading(Pair(), 1, Split, Asked()) == Some(Misread()) && Reading(Pair(), 0, Split, Misread()) == None
  {
    PairIsWellFormed();
    NonWildAbcd();
    assert NonWild("x/8") == 3 by {
      assert "x/8"[1..] == "/8" && "/8"[1..] == "8" && "8"[1..] == "";
    }
    JoinedReading(Pair(), 0, Asked());
    JoinedReading(Pair(), 1, Asked());
    JoinedReading(Pair(), 0, Misread());
    JoinedReading(Pair(), 1, Misread());
    SplitReading(Pair(), 1, Asked());
    StarIsNotReadAgain(Pair(), 0, "*abcd");
    assert Star(Pair(), "*abcd") == Misread();
  }

  lemma OneLine(l: Link, one: Option<Peer>, needGln: bool, needTs6: bool, noGln: bool, noTs6: bool, form: Form, m: Mask)
    ensures SendToServer([l], one, needGln, needTs6, noGln, noTs6, form, m)
              == if Meets(l, one, needGln, needTs6, noGln, noTs6) then [Line(l.peer, form, m)] else []
  {
    assert SendToServer([l][1..], one, needGln, needTs6, noGln, noTs6, form, m) == [];
  }

  lemma OneCopy(peer: Peer, from: Option<Peer>, m: Mask)
    ensures Copies([Link(peer, true, true)], from, m)
              == [Line(peer, Split, m)] + if from == Some(peer) then [] else [Line(peer, Joined, m)]
  {
    var l := Link(peer, true, true);
    OneLine(l, None, true, true, false, false, Split, m);
    OneLine(l, None, true, false, false, true, Split, m);
    OneLine(l, from, true, false, false, false, Joined, m);
    OneLine(l, from, false, false, true, false, HybridSix, m);
    OneLine(l, None, false, true, true, false, HybridSix, m);
    OneLine(l, None, false, false, true, true, HybridSix, m);
  }

  ghost predicate TwoServers(net: Network) {
    |net.servers| == 2 && net.servers[0].links == [Link(1, true, true)] && net.servers[1].links == [Link(0, true, true)]
  }

  /** Server 1 misreads as r the mask m, which server 0 takes and 1 does not. */
  ghost predicate InTheWay(net: Network, m: Mask, r: Mask) {
    && TwoServers(net)
    && Takes(net, 0, m) && !Takes(net, 1, m) && Reading(net, 1, Split, m) == Some(r) && Readable(net, m)
    && Takes(net, 0, r) && Takes(net, 1, r) && Reading(net, 0, Split, r) == None
    && Matching(r, r) && !Matching(r, m)
  }

  function Asking(m: Mask): Trail {
    [Hold(0, m)]
  }

  function Misreading(m: Mask, r: Mask): Trail {
    [Hold(0, m), Hold(1, r)]
  }

  /** A run that has come to st, with introductions from base only. */
  ghost predicate ComesTo(net: Network, base: set<(Peer, Mask)>, es: seq<Event>, st: State) {
    IsRun(net, Empty(net), es) && IntroducesOnly(es, base) && Final(net, Empty(net), es) == st
  }

  lemma GoesOn(net: Network, base: set<(Peer, Mask)>, es: seq<Event>, st: State, e: Event, st': State)
    requires ComesTo(net, base, es, st) && Enabled(net, st, e) && (e.Introduce? ==> (e.at, e.mask) in base)
    requires |st.tables| == |net.servers| && Step(net, st, e) == st'
    ensures ComesTo(net, base, es + [e], st')
  {
    RunExtends(net, Empty(net), es, e);
  }

  lemma StepPlaces(net: Network, st: State, msg: Msg, m: Mask, lines: seq<Msg>)
    requires |st.tables| == |net.servers| == 2 && msg in st.flight && msg.to < 2
    requires Reading(net, msg.to, msg.form, msg.mask) == Some(m) && st.tables[msg.to] == []
    requires Sends(net, NewTrail(msg, m), msg.From()) == lines
    ensures Step(net, st, Deliver(msg))
              == State(if msg.to == 0 then [[m], st.tables[1]] else [st.tables[0], [m]],
                       st.flight - multiset{msg} + multiset(lines), st.log + [NewTrail(msg, m)], st.introduced)
  {
    assert [m] + [] == [m];
    assert !Found(m, []);
    assert st.tables == [st.tables[0], st.tables[1]];
  }

  lemma AskingIsSent(net: Network, m: Mask)
    requires TwoServers(net)
    ensures Sends(net, Asking(m), None) == [Msg(Asking(m), 1, Split, m), Msg(Asking(m), 1, Joined, m)]
  {
    OneCopy(1, None, m);
    assert Last(Asking(m)).at == 0;
  }

  lemma MisreadingIsSent(net: Network, m: Mask, r: Mask)
    requires InTheWay(net, m, r)
    ensures Sends(net, Misreading(m, r), Some(0)) == [Msg(Misreading(m, r), 0, Split, r)]
  {
    OneCopy(0, Some(0), r);
    assert Last(Misreading(m, r)).at == 1;
  }

  function AfterMask(m: Mask): State {
    State([[m], []], multiset{Msg(Asking(m), 1, Split, m), Msg(Asking(m), 1, Joined, m)}, [Asking(m)], {(0, m)})
  }

  lemma MaskPlaced(net: Network, m: Mask)
    requires |net.servers| == 2 && Reading(net, 0, Joined, m) == Some(m)
    requires Sends(net, Asking(m), None) == [Msg(Asking(m), 1, Split, m), Msg(Asking(m), 1, Joined, m)]
    ensures
      var msg := Msg([], 0, Joined, m);
      Step(net, State([[], []], multiset{msg}, [], {(0, m)}), Deliver(msg)) == AfterMask(m)
  {
    var msg := Msg([], 0, Joined, m);
    assert NewTrail(msg, m) == Asking(m);
    StepPlaces(net, State([[], []], multiset{msg}, [], {(0, m)}), msg, m, Sends(net, Asking(m), None));
  }

  lemma MaskIsPlaced(net: Network, base: set<(Peer, Mask)>, m: Mask) returns (es: seq<Event>)
    requires TwoServers(net) && Takes(net, 0, m) && (0, m) in base
    ensures ComesTo(net, base, es, AfterMask(m))
  {
    var msg := Msg([], 0, Joined, m);
    var st := State([[], []], multiset{msg}, [], {(0, m)});
    assert Empty(net).tables == [[], []];
    GoesOn(net, base, [], Empty(net), Introduce(0, m), st);
    AskingIsSent(net, m);
    MaskPlaced(net, m);
    GoesOn(net, base, [] + [Introduce(0, m)], st, Deliver(msg), AfterMask(m));
    es := [] + [Introduce(0, m)] + [Deliver(msg)];
  }

  function AfterMisreading(m: Mask, r: Mask): State {
    State([[m], [r]], multiset{Msg(Asking(m), 1, Joined, m), Msg(Misreading(m, r), 0, Split, r)},
          [Asking(m), Misreading(m, r)], {(0, m)})
  }

  lemma OneForAnother<A>(a: A, b: A, c: A, lines: seq<A>)
    requires lines == [c]
    ensures multiset{a, b} - multiset{a} + multiset(lines) == multiset{b, c}
  {
  }

  lemma MisreadPlaced(net: Network, m: Mask, r: Mask)
    requires |net.servers| == 2 && Reading(net, 1, Split, m) == Some(r)
    requires Sends(net, Misreading(m, r), Some(0)) == [Msg(Misreading(m, r), 0, Split, r)]
    ensures Step(net, AfterMask(m), Deliver(Msg(Asking(m), 1, Split, m))) == AfterMisreading(m, r)
  {
    var msg, lines := Msg(Asking(m), 1, Split, m), Sends(net, Misreading(m, r), Some(0));
    assert NewTrail(msg, r) == Misreading(m, r) && msg.From() == Some(0);
    OneForAnother(msg, Msg(Asking(m), 1, Joined, m), Msg(Misreading(m, r), 0, Split, r), lines);
    StepPlaces(net, AfterMask(m), msg, r, lines);
  }

  /** Server 1 gets the split form of the line from server 0 first. */
  lemma MisreadingIsPlaced(net: Network, base: set<(Peer, Mask)>, m: Mask, r: Mask) returns (es: seq<Event>)
    requires InTheWay(net, m, r) && (0, m) in base
    ensures ComesTo(net, base, es, AfterMisreading(m, r))
  {
    es := MaskIsPlaced(net, base, m);
    MisreadingIsSent(net, m, r);
    MisreadPlaced(net, m, r);
    GoesOn(net, base, es, AfterMask(m), Deliver(Msg(Asking(m), 1, Split, m)), AfterMisreading(m, r));
    es := es + [Deliver(Msg(Asking(m), 1, Split, m))];
  }

  lemma NothingMoreIsPlaced(net: Network, base: set<(Peer, Mask)>, m: Mask, r: Mask, es: seq<Event>)
    returns (more: seq<Event>)
    requires InTheWay(net, m, r) && ComesTo(net, base, es, AfterMisreading(m, r))
    ensures ComesTo(net, base, more, AfterMisreading(m, r).(flight := multiset{}))
  {
    var st, msg, back := AfterMisreading(m, r), Msg(Asking(m), 1, Joined, m), Msg(Misreading(m, r), 0, Split, r);
    JoinedReading(net, 1, m);
    GoesOn(net, base, es, st, Deliver(msg), st.(flight := multiset{back}));
    GoesOn(net, base, es + [Deliver(msg)], st.(flight := multiset{back}), Deliver(back), st.(flight := multiset{}));
    more := es + [Deliver(msg)] + [Deliver(back)];
  }

  lemma OwnIsRefused(net: Network, base: set<(Peer, Mask)>, m: Mask, r: Mask, es: seq<Event>) returns (more: seq<Event>)
    requires InTheWay(net, m, r) && (1, r) in base && ComesTo(net, base, es, AfterMisreading(m, r).(flight := multiset{}))
    ensures ComesTo(net, base, more, AfterMisreading(m, r).(flight := multiset{}, introduced := {(0, m), (1, r)}))
  {
    var st, msg := AfterMisreading(m, r).(flight := multiset{}), Msg([], 1, Joined, r);
    var st' := st.(flight := multiset{msg}, introduced := {(0, m), (1, r)});
    GoesOn(net, base, es, st, Introduce(1, r), st');
    assert Matching(r, st'.tables[1][0]);
    GoesOn(net, base, es + [Introduce(1, r)], st', Deliver(msg), st.(introduced := {(0, m), (1, r)}));
    more := es + [Introduce(1, r)] + [Deliver(msg)];
  }

  /** The outcome depends on which line comes first: when server 1 has misread the line of server 0, its own G-line for
      the same mask is known to it and not sent on, though server 0 would take it. */
  lemma MisreadingGetsInTheWay(net: Network, m: Mask, r: Mask) returns (es: seq<Event>)
    requires InTheWay(net, m, r)
    ensures IsRun(net, Empty(net), es) && IntroducesOnly(es, {(0, m), (1, r)}) && Over(Final(net, Empty(net), es))
    ensures
      var st := Final(net, Empty(net), es);
      |st.tables| == 2 && CameBy(net, st.introduced, 0, r) && !Found(r, st.tables[0])
  {
    var base := {(0, m), (1, r)};
    es := MisreadingIsPlaced(net, base, m, r);
    es := NothingMoreIsPlaced(net, base, m, r, es);
    es := OwnIsRefused(net, base, m, r, es);
    CouldComeBy(net, m, r);
  }

  lemma CouldComeBy(net: Network, m: Mask, r: Mask)
    requires InTheWay(net, m, r)
    ensures CameBy(net, {(0, m), (1, r)}, 0, r)
  {
    var q := [Hold(1, r), Hold(0, r)];
    assert q[..1] == [Hold(1, r)];
    assert Chain(net, {(0, m), (1, r)}, q[..1]);
    assert Link(0, true, true) in net.servers[1].links;
    assert Chain(net, {(0, m), (1, r)}, q) && Last(q) == Hold(0, r);
  }

  /** Of one G-line for m, another server can come to hold r. */
  lemma MisreadingTurnsUp(net: Network, m: Mask, r: Mask)
    requires WellFormedNet(net) && InTheWay(net, m, r)
    ensures CanBeFound(net, {(0, m)}, 1, r)
  {
    var q := Misreading(m, r);
    assert q[..1] == [Hold(0, m)];
    assert Chain(net, {(0, m)}, q[..1]);
    assert Link(1, true, true) in net.servers[0].links;
    assert Last(q) == Hold(1, r) && Chain(net, {(0, m)}, q);
    FoundInSomeRun(net, {(0, m)}, r, 1);
  }

  /** On the two servers above. */
  lemma PairIsInTheWay()
    ensures InTheWay(Pair(), Asked(), Misread())
    ensures TakenAlike(Pair(), Arising(Pair(), {(0, Asked()), (1, Misread())}))
  {
    PairIsWellFormed();
    PairReads();
    SelfMatching(Misread());
    PairTakesAlike();
  }

  /** A G-line for *abcd@x/8 leaves one for *@*abcd, which nobody asked for. */
  lemma StarTurnsUp()
    ensures CanBeFound(Pair(), {(0, Asked())}, 1, Misread())
  {
    PairIsWellFormed();
    PairIsInTheWay();
    MisreadingTurnsUp(Pair(), Asked(), Misread());
  }

  lemma PairTakesAlike()
    ensures TakenAlike(Pair(), Arising(Pair(), {(0, Asked()), (1, Misread())}))
  {
    var base := {(0, Asked()), (1, Misread())};
    forall m, n | m in Arising(Pair(), base) && n in Arising(Pair(), base) && Matching(m, n)
      ensures m == n
    {
      assert MasksOf(base) == {Asked(), Misread()};
      assert UserMasks(Pair()) == {};
    }
  }

  // ----- a mask that is known already

  /** n names m; server 0 takes both, server 1 only n. */
  ghost predicate KnownAlready(net: Network, m: Mask, n: Mask) {
    && TwoServers(net) && Matching(n, m) && Matching(n, n) && Readable(net, m)
    && Takes(net, 0, m) && !Takes(net, 1, m) && Reading(net, 1, Split, m) == None
    && Takes(net, 0, n) && Takes(net, 1, n)
  }

  lemma OtherRefusesIt(net: Network, base: set<(Peer, Mask)>, m: Mask, n: Mask) returns (es: seq<Event>)
    requires KnownAlready(net, m, n) && (0, m) in base
    ensures ComesTo(net, base, es, AfterMask(m).(flight := multiset{}))
  {
    var st, split, joined := AfterMask(m), Msg(Asking(m), 1, Split, m), Msg(Asking(m), 1, Joined, m);
    es := MaskIsPlaced(net, base, m);
    JoinedReading(net, 1, m);
    GoesOn(net, base, es, st, Deliver(split), st.(flight := multiset{joined}));
    GoesOn(net, base, es + [Deliver(split)], st.(flight := multiset{joined}), Deliver(joined), st.(flight := multiset{}));
    es := es + [Deliver(split)] + [Deliver(joined)];
  }

  lemma KnownIsRefused(net: Network, base: set<(Peer, Mask)>, m: Mask, n: Mask, es: seq<Event>) returns (more: seq<Event>)
    requires KnownAlready(net, m, n) && (0, n) in base && ComesTo(net, base, es, AfterMask(m).(flight := multiset{}))
    ensures ComesTo(net, base, more, AfterMask(m).(flight := multiset{}, introduced := {(0, m), (0, n)}))
  {
    var st, msg := AfterMask(m).(flight := multiset{}), Msg([], 0, Joined, n);
    var st' := st.(flight := multiset{msg}, introduced := {(0, m), (0, n)});
    GoesOn(net, base, es, st, Introduce(0, n), st');
    assert Matching(n, st'.tables[0][0]);
    GoesOn(net, base, es + [Introduce(0, n)], st', Deliver(msg), st.(introduced := {(0, m), (0, n)}));
    more := es + [Introduce(0, n)] + [Deliver(msg)];
  }

  /** Without any misreading the outcome depends on which of two masks that name each other comes first: the second one
      is known and not sent on, though server 1 would take it. */
  lemma KnownIsNotSent(net: Network, m: Mask, n: Mask) returns (es: seq<Event>)
    requires KnownAlready(net, m, n)
    ensures IsRun(net, Empty(net), es) && IntroducesOnly(es, {(0, m), (0, n)}) && Over(Final(net, Empty(net), es))
    ensures
      var st := Final(net, Empty(net), es);
      |st.tables| == 2 && CameBy(net, st.introduced, 1, n) && !Found(n, st.tables[1])
  {
    var base := {(0, m), (0, n)};
    es := OtherRefusesIt(net, base, m, n);
    es := KnownIsRefused(net, base, m, n, es);
    var q := [Hold(0, n), Hold(1, n)];
    assert q[..1] == [Hold(0, n)];
    assert Chain(net, base, q[..1]);
    assert Link(1, true, true) in net.servers[0].links;
    assert Chain(net, base, q) && Last(q) == Hold(1, n);
  }

  /** 10/8 is 10.* too, but only the former has a length that is compared with gline_min_cidr. */
  function TenTokens(): string -> Token {
    h => if h == "10.0.0.0/8" then Token(Ten(), Some(8)) else if h == "10.*" then Token(Ten(), None)
         else Token(NoAddress, None)
  }

  function Ten(): Netmask {
    V4(seq(32, i => i == 4 || i == 6), 8)
  }

  /** Two servers of this program with a gline_min_cidr of 8 and 16. */
  function TenPair(): Network {
    Network([Server([Link(1, true, true)], Config(8, 8, 4), [], false),
             Server([Link(0, true, true)], Config(16, 16, 4), [], false)], TenTokens())
  }

  function TenSlash(): Mask {
    Mask("abcd", "10.0.0.0/8", Ten(), Some(8))
  }

  function TenStar(): Mask {
    Mask("abcd", "10.*", Ten(), None)
  }

  /** A text without letters is its own name only. */
  lemma NoOtherCase(g: string, h: string)
    requires SameName(g, h) && forall i :: 0 <= i < |h| ==> h[i] < 'A'
    ensures g == h
  {
    assert forall i :: 0 <= i < |h| ==> ToUpper(g[i]) == ToUpper(h[i]) && g[i] == h[i];
  }

  lemma AbcdIsEnough(host: string)
    ensures EnoughNonWild(4, "abcd", host)
  {
    assert "abcd"[1..] == "bcd" && "bcd"[1..] == "cd" && "cd"[1..] == "d" && "d"[1..] == "";
    assert NonWild("abcd") == 4;
  }

  lemma TenTokensAreGood()
    ensures GoodTokens(TenTokens())
  {
    forall g, h | SameName(g, h)
      ensures TenTokens()(g).slash == TenTokens()(h).slash
    {
      SameNameIsEquivalence();
      if h == "10.0.0.0/8" {
        NoOtherCase(g, h);
      } else if g == "10.0.0.0/8" {
        NoOtherCase(h, g);
      }
    }
    forall h
      ensures GoodToken(TenTokens(), h)
    {
      if h == "10.0.0.0/8" || h == "10.*" {
        TenHosts(h);
      }
    }
  }

  lemma TenHosts(h: string)
    requires h == "10.0.0.0/8" || h == "10.*"
    ensures h[0] != '*' && !SameName(h, "ON") && '"' !in h
  {
  }
  lemma TenIsWellFormed()
    ensures WellFormedNet(TenPair()) && Readable(TenPair(), TenSlash()) && Readable(TenPair(), TenStar())
  {
    TenTokensAreGood();
  }

  lemma TenSlashIsTaken()
    ensures Takes(TenPair(), 0, TenSlash())
  {
    TenIsWellFormed();
    AbcdIsEnough("10.0.0.0/8");
    JoinedReading(TenPair(), 0, TenSlash());
  }

  lemma TenSlashIsRefused()
    ensures !Takes(TenPair(), 1, TenSlash())
  {
    TenIsWellFormed();
    JoinedReading(TenPair(), 1, TenSlash());
  }

  lemma TenStarIsTaken()
    ensures Takes(TenPair(), 0, TenStar()) && Takes(TenPair(), 1, TenStar())
  {
    TenIsWellFormed();
    AbcdIsEnough("10.*");
    JoinedReading(TenPair(), 0, TenStar());
    JoinedReading(TenPair(), 1, TenStar());
  }

  lemma TenIsKnownAlready()
    ensures WellFormedNet(TenPair()) && KnownAlready(TenPair(), TenSlash(), TenStar())
  {
    TenIsWellFormed();
    TenSlashIsTaken();
    TenSlashIsRefused();
    TenStarIsTaken();
    SplitReading(TenPair(), 1, TenSlash());
    SelfMatching(TenStar());
    TenNamesTen();
  }

  lemma TenNamesTen()
    ensures Matching(TenStar(), TenSlash())
  {
  }
}
