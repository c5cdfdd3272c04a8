/** Networks of servers that send each other GLINE lines, and what each server makes of a line. */
module GlineNet {
  import opened Options
  import opened Text
  import opened Masks
  import opened Gline

  /** `readsSplit`: the server reads `GLINE user host` as the mask user@host; the others read it as this program
      does.  `users` are the users it finds by nick. */
  datatype Server = Server(links: seq<Link>, config: Config, users: seq<Known>, readsSplit: bool)

  datatype Network = Network(servers: seq<Server>, tokens: string -> Token)

  ghost predicate Linked(net: Network, s: Peer, t: Peer) {
    s < |net.servers| && exists l :: l in net.servers[s].links && l.peer == t && l.gln
  }

  /** A user and host as one server can pass it on to the next. */
  predicate Sendable(user: string, host: string) {
    && 0 < |user| <= USERLEN * 4 && '@' !in user && 0 < |host| <= HOSTLEN
  }

  /** Links lead to other servers, and the users of a server have names of the usual form. */
  ghost predicate WellFormedNet(net: Network) {
    && GoodTokens(net.tokens)
    && (forall s, l :: 0 <= s < |net.servers| && l in net.servers[s].links ==> l.peer < |net.servers| && l.peer != s)
    && (forall s :: 0 <= s < |net.servers| ==> GoodUsers(net.servers[s].users))
  }

  predicate GoodUsers(users: seq<Known>) {
    forall i :: 0 <= i < |users| ==> Sendable(users[i].user, users[i].host) && '/' !in users[i].host
  }

  /** A mask as parse_aline() gives it. */
  ghost predicate Readable(net: Network, m: Mask) {
    Sendable(m.user, m.host) && '!' !in m.user && m == MaskOf(net.tokens, m.user, m.host)
  }

  function Made(net: Network, found: Option<(string, string)>): Option<Mask> {
    if found.None? then None else Some(MaskOf(net.tokens, found.value.0, found.value.1))
  }

  /** What server t reads in a line of the given form for m.  The reason of the line is one that is accepted. */
  function ReadAs(net: Network, t: Peer, form: Form, m: Mask): Option<Mask>
    requires t < |net.servers|
  {
    var s := net.servers[t];
    match form
    case HybridSix => None
    case Joined => Made(net, ReadMask(s.config.minNonWild, s.users, m.user + "@" + m.host, ""))
    case Split =>
      if s.readsSplit then Made(net, ReadMask(s.config.minNonWild, s.users, m.user + "@" + m.host, ""))
      else Made(net, ReadMask(s.config.minNonWild, s.users, m.user, m.host))
  }

  /** The mask that t places on such a line, if it has none like it. */
  function Reading(net: Network, t: Peer, form: Form, m: Mask): Option<Mask>
    requires t < |net.servers|
  {
    var r := ReadAs(net, t, form, m);
    if r.Some? && Accepts(net.servers[t].config, r.value) then r else None
  }

  /** t places m when it gets it in the joined form. */
  predicate Takes(net: Network, t: Peer, m: Mask) {
    t < |net.servers| && Reading(net, t, Joined, m) == Some(m)
  }

  /** The mask `*@text` that a user part `text` is taken for. */
  function Star(net: Network, text: string): Mask {
    MaskOf(net.tokens, "*", text)
  }

  lemma JoinedReading(net: Network, t: Peer, m: Mask)
    requires t < |net.servers| && Readable(net, m)
    ensures Reading(net, t, Joined, m) == if Takes(net, t, m) then Some(m) else None
    ensures Takes(net, t, m) <==>
              EnoughNonWild(net.servers[t].config.minNonWild, m.user, m.host) && Accepts(net.servers[t].config, m)
    ensures net.servers[t].readsSplit ==> Reading(net, t, Split, m) == Reading(net, t, Joined, m)
  {
    JoinedFormIsRead(net.servers[t].config.minNonWild, net.servers[t].users, m.user, m.host, "");
  }

  lemma {:induction false} LookupIsGood(users: seq<Known>, nick: string)
    requires GoodUsers(users) && Lookup(users, nick).Some?
    ensures
      var (user, host) := Lookup(users, nick).value;
      Sendable(user, host) && '/' !in host && exists k :: k in users && k.user == user && k.host == host
  {
    assert users[0] in users;
    if !SameName(nick, users[0].nick) {
      LookupIsGood(users[1..], nick);
    }
  }

  /** What a server that does not read the split form makes of it. */
  lemma SplitReading(net: Network, t: Peer, m: Mask)
    requires t < |net.servers| && Readable(net, m) && !net.servers[t].readsSplit
    ensures
      var s := net.servers[t];
      var r := if m.user[0] == '*' then Some(Star(net, m.user)) else Made(net, Lookup(s.users, m.user));
      Reading(net, t, Split, m)
        == if r.Some? && !IsTime(m.user) && !SameName(m.host, "ON") && '"' !in m.host && '!' !in r.value.user
              && EnoughNonWild(s.config.minNonWild, r.value.user, r.value.host) && Accepts(s.config, r.value)
           then r else None
  {
    SplitFormIsMisread(net.servers[t].config.minNonWild, net.servers[t].users, m.user, m.host);
  }

  /** What a server places can be sent on, and it would take it in the joined form too; a misreading has no stray
      bit. */
  lemma ReadingIsReadable(net: Network, t: Peer, form: Form, m: Mask)
    requires WellFormedNet(net) && t < |net.servers| && Readable(net, m) && Reading(net, t, form, m).Some?
    ensures
      var r := Reading(net, t, form, m).value;
      && Readable(net, r) && Takes(net, t, r)
      && (if form == Split && !net.servers[t].readsSplit then !r.Stray() else r == m)
  {
    JoinedReading(net, t, m);
    var s, r := net.servers[t], Reading(net, t, form, m).value;
    if form == Split && !s.readsSplit {
      SplitReading(net, t, m);
      if m.user[0] != '*' {
        LookupIsGood(s.users, m.user);
      }
      assert GoodToken(net.tokens, r.host);
      JoinedReading(net, t, r);
    }
  }

  // ----- the masks that can turn up

  ghost predicate Closed(net: Network, masks: set<Mask>) {
    forall t: Peer, form, m :: t < |net.servers| && m in masks && Reading(net, t, form, m).Some? ==>
      Reading(net, t, form, m).value in masks
  }

  /** The masks of the users that some server finds by nick. */
  function UserMasks(net: Network): set<Mask> {
    set s, k | 0 <= s < |net.servers| && k in net.servers[s].users && '!' !in k.user :: MaskOf(net.tokens, k.user, k.host)
  }

  predicate StartsWithStar(text: string) {
    text != "" && text[0] == '*'
  }

  /** All masks that readings can make of some: nicks are looked up, and what they give can be misread once more. */
  function Closure(net: Network, base: set<Mask>): set<Mask> {
    base + UserMasks(net) + (set m | m in base + UserMasks(net) && StartsWithStar(m.user) :: Star(net, m.user))
  }

  lemma UserMasksAreReadable(net: Network, m: Mask)
    requires WellFormedNet(net) && m in UserMasks(net)
    ensures Readable(net, m) && !m.Stray()
  {
    var s, k :| 0 <= s < |net.servers| && k in net.servers[s].users && '!' !in k.user && m == MaskOf(net.tokens, k.user, k.host);
    assert GoodToken(net.tokens, k.host);
  }

  lemma StarIsReadable(net: Network, m: Mask)
    requires WellFormedNet(net) && Readable(net, m)
    ensures Readable(net, Star(net, m.user))
    ensures m.user[0] == '*' ==> !Star(net, m.user).Stray() && Star(net, m.user).net.NoAddress?
  {
    assert GoodToken(net.tokens, m.user);
  }

  lemma ClosureIsReadable(net: Network, base: set<Mask>, m: Mask)
    requires WellFormedNet(net) && (forall b :: b in base ==> Readable(net, b)) && m in Closure(net, base)
    ensures Readable(net, m)
  {
    if m in UserMasks(net) {
      UserMasksAreReadable(net, m);
    } else if m !in base {
      var b :| b in base + UserMasks(net) && StartsWithStar(b.user) && m == Star(net, b.user);
      if b in UserMasks(net) {
        UserMasksAreReadable(net, b);
      }
      StarIsReadable(net, b);
    }
  }

  /** The user part of a star mask has too few characters to be read again. */
  lemma StarIsNotReadAgain(net: Network, t: Peer, text: string)
    requires t < |net.servers| && Readable(net, Star(net, text)) && !net.servers[t].readsSplit
    ensures Reading(net, t, Split, Star(net, text)) == None
  {
    SplitReading(net, t, Star(net, text));
    assert "*"[1..] == "";
  }

  lemma ClosureIsClosed(net: Network, base: set<Mask>)
    requires WellFormedNet(net) && forall b :: b in base ==> Readable(net, b)
    ensures Closed(net, Closure(net, base))
  {
    forall t: Peer, form, m | t < |net.servers| && m in Closure(net, base) && Reading(net, t, form, m).Some?
      ensures Reading(net, t, form, m).value in Closure(net, base)
    {
      ClosureIsReadable(net, base, m);
      ReadingIsReadable(net, t, form, m);
      if Reading(net, t, form, m).value != m {
        MisreadingIsInClosure(net, base, t, m);
      }
    }
  }

  lemma MisreadingIsInClosure(net: Network, base: set<Mask>, t: Peer, m: Mask)
    requires WellFormedNet(net) && forall b :: b in base ==> Readable(net, b)
    requires t < |net.servers| && !net.servers[t].readsSplit && m in Closure(net, base) && Reading(net, t, Split, m).Some?
    ensures Reading(net, t, Split, m).value in Closure(net, base)
  {
    ClosureIsReadable(net, base, m);
    SplitReading(net, t, m);
    if m.user[0] == '*' {
      if m !in base + UserMasks(net) {
        var b :| b in base + UserMasks(net) && StartsWithStar(b.user) && m == Star(net, b.user);
        StarIsNotReadAgain(net, t, b.user);
      }
    } else {
      LookupIsGood(net.servers[t].users, m.user);
    }
  }

  // ----- masks that name each other are read alike

  lemma {:induction false} NonWildAlike(a: string, b: string)
    requires SameName(a, b)
    ensures NonWild(a) == NonWild(b)
    decreases |a|
  {
    if a != "" {
      assert ToUpper(a[0]) == ToUpper(b[0]);
      NonWildAlike(a[1..], b[1..]);
    }
  }

  lemma {:induction false} LookupAlike(users: seq<Known>, a: string, b: string)
    requires SameName(a, b)
    ensures Lookup(users, a) == Lookup(users, b)
  {
    SameNameIsEquivalence();
    if users != [] {
      LookupAlike(users[1..], a, b);
    }
  }

  /** A character that has no other case is in both of two names or in neither. */
  lemma CharAlike(a: string, b: string, c: char)
    requires SameName(a, b) && c < 'A'
    ensures c in a <==> c in b
  {
    if c in a {
      var i :| 0 <= i < |a| && a[i] == c;
      assert b[i] == c;
    }
    if c in b {
      var i :| 0 <= i < |b| && b[i] == c;
      assert a[i] == c;
    }
  }

  lemma TimeAlike(a: string, b: string)
    requires SameName(a, b)
    ensures IsTime(a) <==> IsTime(b)
  {
    assert forall i :: 0 <= i < |a| ==> (IsDigit(a[i]) <==> IsDigit(b[i]));
  }

  ghost predicate BothOrNeither(a: Option<Mask>, b: Option<Mask>) {
    if a.Some? && b.Some? then Matching(a.value, b.value) else a == b
  }

  lemma HostsBehindAlike(net: Network, m: Mask, n: Mask)
    requires WellFormedNet(net) && Readable(net, m) && Readable(net, n) && Matching(m, n)
    ensures SameName(m.host, "ON") <==> SameName(n.host, "ON")
    ensures '"' in m.host <==> '"' in n.host
  {
    assert GoodToken(net.tokens, m.host) && GoodToken(net.tokens, n.host);
    SameNameIsEquivalence();
    if m.net.NoAddress? {
      CharAlike(m.host, n.host, '"');
    }
  }

  lemma StarsAlike(net: Network, m: Mask, n: Mask)
    requires WellFormedNet(net) && Readable(net, m) && Readable(net, n) && SameName(m.user, n.user) && m.user[0] == '*'
    ensures n.user[0] == '*' && Matching(Star(net, m.user), Star(net, n.user))
    ensures forall cfg :: Accepts(cfg, Star(net, m.user)) <==> Accepts(cfg, Star(net, n.user))
  {
    StarIsReadable(net, m);
    StarIsReadable(net, n);
    CharAlike(m.user, n.user, ':');
  }

  lemma StarReadAlike(net: Network, t: Peer, m: Mask, n: Mask)
    requires WellFormedNet(net) && t < |net.servers| && Readable(net, m) && Readable(net, n) && Matching(m, n)
    requires !net.servers[t].readsSplit && m.user[0] == '*'
    ensures BothOrNeither(Reading(net, t, Split, m), Reading(net, t, Split, n))
  {
    SplitReading(net, t, m);
    SplitReading(net, t, n);
    HostsBehindAlike(net, m, n);
    TimeAlike(m.user, n.user);
    StarsAlike(net, m, n);
    NonWildAlike(m.user, n.user);
  }

  lemma NickReadAlike(net: Network, t: Peer, m: Mask, n: Mask)
    requires WellFormedNet(net) && t < |net.servers| && Readable(net, m) && Readable(net, n) && Matching(m, n)
    requires !net.servers[t].readsSplit && m.user[0] != '*'
    ensures Reading(net, t, Split, m) == Reading(net, t, Split, n)
  {
    SplitReading(net, t, m);
    SplitReading(net, t, n);
    HostsBehindAlike(net, m, n);
    TimeAlike(m.user, n.user);
    LookupAlike(net.servers[t].users, m.user, n.user);
    assert ToUpper(m.user[0]) == ToUpper(n.user[0]);
  }

  /** Masks that name each other are read alike in the split form, where they are taken alike. */
  lemma SplitReadAlike(net: Network, t: Peer, m: Mask, n: Mask)
    requires WellFormedNet(net) && t < |net.servers| && Readable(net, m) && Readable(net, n) && Matching(m, n)
    requires Takes(net, t, m) <==> Takes(net, t, n)
    ensures BothOrNeither(Reading(net, t, Split, m), Reading(net, t, Split, n))
  {
    if net.servers[t].readsSplit {
      JoinedReading(net, t, m);
      JoinedReading(net, t, n);
    } else if m.user[0] == '*' {
      StarReadAlike(net, t, m, n);
    } else {
      NickReadAlike(net, t, m, n);
      if Reading(net, t, Split, m).Some? {
        ReadingIsReadable(net, t, Split, m);
        assert GoodToken(net.tokens, Reading(net, t, Split, m).value.host);
        SelfMatching(Reading(net, t, Split, m).value);
      }
    }
  }
}
