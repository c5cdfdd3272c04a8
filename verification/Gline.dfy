/** Temporary G-lines on one server: the list, GLINE and UNGLINE (modules/m_gline.c). */
module Gline {
  import opened Options
  import opened Seqs
  import opened Text
  import opened Masks

  type Peer = nat

  /** The two ways in which a GLINE line spells its mask: `user host` and `user@host`. */
  datatype Form = Split | Joined | HybridSix

  datatype Line = Line(peer: Peer, form: Form, mask: Mask)

  /** A server link with the capabilities that the sends of mo_gline() ask for. */
  datatype Link = Link(peer: Peer, gln: bool, ts6: bool)

  /** gline_min_cidr, gline_min_cidr6 and min_nonwildcard. */
  datatype Config = Config(minCidr: int, minCidr6: int, minNonWild: int)

  predicate Accepts(cfg: Config, m: Mask) {
    m.slash.None? || m.slash.value >= (if ':' in m.host then cfg.minCidr6 else cfg.minCidr)
  }

  predicate Found(m: Mask, glines: seq<Mask>) {
    exists i :: 0 <= i < |glines| && Matching(m, glines[i])
  }

  function Naming(m: Mask): Mask -> bool {
    entry => Matching(m, entry)
  }

  /** The list without the first entry that m names. */
  function RemoveMatch(m: Mask, glines: seq<Mask>): seq<Mask> {
    RemoveFirst(Naming(m), glines)
  }

  predicate Meets(l: Link, one: Option<Peer>, needGln: bool, needTs6: bool, noGln: bool, noTs6: bool) {
    one != Some(l.peer) && (needGln ==> l.gln) && (needTs6 ==> l.ts6) && !(noGln && l.gln) && !(noTs6 && l.ts6)
  }

  /** sendto_server(one, ..., caps, nocaps, ...): one line to every link that has all of `need`
      and none of `forbid`, but for the link of `one`. */
  function SendToServer(links: seq<Link>, one: Option<Peer>, needGln: bool, needTs6: bool,
                        noGln: bool, noTs6: bool, form: Form, m: Mask): seq<Line>
  {
    if links == [] then []
    else
      var l := links[0];
      var rest := SendToServer(links[1..], one, needGln, needTs6, noGln, noTs6, form, m);
      if Meets(l, one, needGln, needTs6, noGln, noTs6) then [Line(l.peer, form, m)] + rest else rest
  }

  // ----- how parse_aline() reads a mask

  const USERLEN: nat := 10
  const HOSTLEN: nat := 63

  /** A user that find_chasing() finds by nick, with the user and host that a ban of him gets. */
  datatype Known = Known(nick: string, user: string, host: string)

  function Lookup(users: seq<Known>, nick: string): Option<(string, string)> {
    if users == [] then None
    else if SameName(nick, users[0].nick) then Some((users[0].user, users[0].host))
    else Lookup(users[1..], nick)
  }

  /** find_user_host() */
  function FindUserHost(users: seq<Known>, text: string): Option<(string, string)> {
    var user := Before(text, '@');
    if |user| < |text| then
      var host := text[|user| + 1..];
      Some((if user == "" then "*" else Cut(user, USERLEN * 4), if host == "" then "*" else Cut(host, HOSTLEN)))
    else if text != "" && text[0] == '*' then Some(("*", Cut(text, HOSTLEN * 4)))
    else Lookup(users, text)
  }

  /** A parameter that valid_tkline() takes for a time. */
  predicate IsTime(text: string) {
    forall i :: 0 <= i < |text| ==> IsDigit(text[i])
  }

  /** valid_wild_card() */
  predicate EnoughNonWild(minNonWild: int, user: string, host: string) {
    NonWild(user) + NonWild(host) >= 1 && NonWild(user) + NonWild(host) >= minNonWild
  }

  /** parse_aline() on a first parameter `text` with the parameter `next` behind it: what it takes for user and
      host, if it does not refuse the line. */
  function ReadMask(minNonWild: int, users: seq<Known>, text: string, next: string): Option<(string, string)> {
    if IsTime(text) then None
    else
      var found := FindUserHost(users, text);
      if found.None? || SameName(next, "ON") || '!' in found.value.0 || '"' in next
         || !EnoughNonWild(minNonWild, found.value.0, found.value.1)
      then None else found
  }

  /** The joined form is read as the mask, cut to the sizes of the buffers; an empty part stands for a star. */
  lemma JoinedFormIsRead(minNonWild: int, users: seq<Known>, user: string, host: string, reason: string)
    requires '@' !in user && !SameName(reason, "ON") && '"' !in reason
    ensures
      var u, h := if user == "" then "*" else Cut(user, 40), if host == "" then "*" else Cut(host, 63);
      ReadMask(minNonWild, users, user + "@" + host, reason)
        == if '!' !in u && EnoughNonWild(minNonWild, u, h) then Some((u, h)) else None
    ensures ReadMask(minNonWild, users, user + "@" + host, reason) == Some((user, host))
       <==> 0 < |user| <= 40 && 0 < |host| <= 63 && '!' !in user && EnoughNonWild(minNonWild, user, host)
  {
    var text := user + "@" + host;
    BeforeFirst(user, '@', host);
    BeforeNone(user, '@');
    assert text == user + ['@'] + host && text[|user|] == '@';
    assert text[|user| + 1..] == host;
  }

  lemma {:induction false} SomeNonWild(s: string)
    ensures NonWild(s) > 0 <==> exists i :: 0 <= i < |s| && !IsKWildChar(s[i])
  {
    if s != "" {
      SomeNonWild(s[1..]);
      assert forall i :: 0 <= i < |s| - 1 ==> s[1..][i] == s[i + 1];
      if i :| 0 <= i < |s| && !IsKWildChar(s[i]) {
        assert i > 0 ==> s[1..][i - 1] == s[i];
      }
    }
  }

  /** One character that is no wildcard is asked for even if the configuration asks for none. */
  lemma OneIsEnough(minNonWild: int, user: string, host: string)
    requires minNonWild <= 1
    ensures EnoughNonWild(minNonWild, user, host)
       <==> (exists i :: 0 <= i < |user| && !IsKWildChar(user[i])) || exists i :: 0 <= i < |host| && !IsKWildChar(host[i])
  {
    SomeNonWild(user);
    SomeNonWild(host);
  }

  /** A number is a time, and no mask. */
  lemma NumberIsNoMask(minNonWild: int, users: seq<Known>, text: string, next: string)
    requires forall i :: 0 <= i < |text| ==> '0' <= text[i] <= '9'
    ensures ReadMask(minNonWild, users, text, next) == None
  {
  }

  /** A nick is looked up in any case of its letters; the first user that has it is found. */
  lemma {:induction false} LookupFindsFirst(users: seq<Known>, nick: string, k: nat)
    requires k < |users| && SameName(nick, users[k].nick) && forall j :: 0 <= j < k ==> !SameName(nick, users[j].nick)
    ensures Lookup(users, nick) == Some((users[k].user, users[k].host))
  {
    if k > 0 {
      LookupFindsFirst(users[1..], nick, k - 1);
    }
  }

  /** In the split form only the user is looked at.  If it starts with a star it is read as a host, any user on
      it; else as a nick. */
  lemma SplitFormIsMisread(minNonWild: int, users: seq<Known>, user: string, host: string)
    requires user != "" && '@' !in user
    ensures
      var star := user[0] == '*';
      var asked := if star then Some(("*", Cut(user, HOSTLEN * 4))) else Lookup(users, user);
      ReadMask(minNonWild, users, user, host)
        == if asked.Some? && !IsTime(user) && !SameName(host, "ON") && '"' !in host && '!' !in asked.value.0
              && EnoughNonWild(minNonWild, asked.value.0, asked.value.1)
           then asked else None
  {
    BeforeNone(user, '@');
  }

  /** It is read as the mask it stands for exactly when the user's nick is looked up and this is his own mask. */
  lemma SplitFormIsNotRead(minNonWild: int, users: seq<Known>, user: string, host: string)
    requires user != "" && '@' !in user
    requires !IsTime(user) && !SameName(host, "ON") && '"' !in host && '!' !in user && EnoughNonWild(minNonWild, user, host)
    ensures ReadMask(minNonWild, users, user, host) == Some((user, host))
       <==> user[0] != '*' && Lookup(users, user) == Some((user, host))
  {
    SplitFormIsMisread(minNonWild, users, user, host);
    NonWildAbcd();
  }

  /** GLINE *abcd h places a mask that nobody asked for. */
  lemma StarIsMisread(users: seq<Known>, host: string)
    requires !SameName(host, "ON") && '"' !in host
    ensures ReadMask(4, users, "*abcd", host) == Some(("*", "*abcd"))
  {
    SplitFormIsMisread(4, users, "*abcd", host);
    NonWildAbcd();
  }

  lemma NonWildAbcd()
    ensures NonWild("*abcd") == 4 && NonWild("*") == 0
  {
    assert "*abcd"[1..] == "abcd" && "abcd"[1..] == "bcd" && "bcd"[1..] == "cd" && "cd"[1..] == "d" && "d"[1..] == "";
    assert "*"[1..] == "";
  }

  class GlineServer {
    var glines: seq<Mask>
    var rehashedKlines: bool
    var links: seq<Link>
    const config: Config

    /** No entry names an older one.  The list is newest first. */
    ghost predicate Valid()
      reads this
    {
      && (forall i :: 0 <= i < |glines| ==> glines[i].WellFormed())
      && NoneNamesOlder(glines)
      && (forall i, j :: 0 <= i < j < |links| ==> links[i].peer != links[j].peer)
    }

    constructor (config: Config)
      ensures Valid() && glines == [] && links == [] && this.config == config
    {
      this.config := config;
      glines, links, rehashedKlines := [], [], false;
    }

    /** _find_gline() */
    method FindGline(m: Mask) returns (r: int)
      ensures r == if Found(m, glines) then 1 else 0
      ensures r == 1 <==> exists i :: 0 <= i < |glines| && SameMeaning(m, glines[i]) && !glines[i].Stray()
    {
      FoundIsMeaning(m, glines);
      for i := 0 to |glines|
        invariant forall j :: 0 <= j < i ==> !Matching(m, glines[j])
      {
        if Matching(m, glines[i]) {
          return 1;
        }
      }
      return 0;
    }

    /** mo_gline() once its parameters are parsed: `from` is the link the line came in on. */
    method MoGline(trusted: bool, from: Option<Peer>, m: Mask) returns (sent: seq<Line>)
      requires Valid() && m.WellFormed()
      modifies this`glines, this`rehashedKlines
      ensures Valid()
      ensures if trusted && Accepts(config, m) && !Found(m, old(glines)) then
                glines == [m] + old(glines) && sent == Copies(links, from, m) && rehashedKlines
              else
                glines == old(glines) && sent == [] && rehashedKlines == old(rehashedKlines)
    {
      sent := [];
      if !trusted {
        return;
      }
      if m.slash.Some? {
        var minBitlen := if ':' in m.host then config.minCidr6 else config.minCidr;
        if m.slash.value < minBitlen {
          return;
        }
      }
      var known := FindGline(m);
      if known == 1 {
        return;
      }
      PlacingKeeps(m, glines);
      glines := [m] + glines;
      rehashedKlines := true;
      sent := SendToServer(links, None, true, true, false, false, Split, m);
      sent := sent + SendToServer(links, None, true, false, false, true, Split, m);
      sent := sent + SendToServer(links, from, true, false, false, false, Joined, m);
      sent := sent + SendToServer(links, from, false, false, true, false, HybridSix, m);
      sent := sent + SendToServer(links, None, false, true, true, false, HybridSix, m);
      sent := sent + SendToServer(links, None, false, false, true, true, HybridSix, m);
    }

    /** remove_gline_match() */
    method RemoveGlineMatch(m: Mask) returns (r: int)
      requires Valid()
      modifies this`glines
      ensures Valid() && glines == RemoveMatch(m, old(glines))
      ensures r == if Found(m, old(glines)) then 1 else 0
    {
      for i := 0 to |glines|
        invariant glines == old(glines)
        invariant forall j :: 0 <= j < i ==> !Matching(m, glines[j])
      {
        if Matching(m, glines[i]) {
          RemoveMatchAt(m, glines, i);
          glines := glines[..i] + glines[i + 1..];
          return 1;
        }
      }
      RemoveMatchNone(m, glines);
      return 0;
    }
  }

  /** A mask is found exactly if an entry that nothing hides means the same. */
  lemma FoundIsMeaning(m: Mask, glines: seq<Mask>)
    ensures Found(m, glines) <==> exists i :: 0 <= i < |glines| && SameMeaning(m, glines[i]) && !glines[i].Stray()
  {
    forall i | 0 <= i < |glines|
      ensures Matching(m, glines[i]) <==> SameMeaning(m, glines[i]) && !glines[i].Stray()
    {
      MatchingIsMeaning(m, glines[i]);
    }
  }

  /** Of the masks of addresses with a slash exactly those with a prefix shorter than the limit of their family are
      refused. */
  lemma ShortPrefixIsRefused(cfg: Config, m: Mask)
    requires m.slash.Some? ==> !m.net.NoAddress? && m.slash == Some(m.net.bits) && (m.net.V6? <==> ':' in m.host)
    ensures !Accepts(cfg, m) <==> m.slash.Some? && (if m.net.V4? then m.net.bits < cfg.minCidr else m.net.bits < cfg.minCidr6)
  {
  }

  lemma RemoveMatchAt(m: Mask, glines: seq<Mask>, k: nat)
    requires k < |glines| && Matching(m, glines[k]) && forall j :: 0 <= j < k ==> !Matching(m, glines[j])
    ensures RemoveMatch(m, glines) == glines[..k] + glines[k + 1..] && Found(m, glines)
    ensures NoneNamesOlder(glines) ==> NoneNamesOlder(RemoveMatch(m, glines))
    ensures forall x :: x in RemoveMatch(m, glines) ==> x in glines
  {
    RemoveFirstAt(Naming(m), glines, k);
    var r := glines[..k] + glines[k + 1..];
    forall i, j | 0 <= i < j < |r| && NoneNamesOlder(glines)
      ensures !Matching(r[i], r[j])
    {
      assert r[i] == glines[if i < k then i else i + 1] && r[j] == glines[if j < k then j else j + 1];
    }
  }

  lemma RemoveMatchNone(m: Mask, glines: seq<Mask>)
    requires !Found(m, glines)
    ensures RemoveMatch(m, glines) == glines
  {
    RemoveFirstNone(Naming(m), glines);
  }

  ghost predicate NoneNamesOlder(glines: seq<Mask>) {
    forall i, j :: 0 <= i < j < |glines| ==> !Matching(glines[i], glines[j])
  }

  lemma PlacingKeeps(m: Mask, glines: seq<Mask>)
    requires NoneNamesOlder(glines) && !Found(m, glines)
    ensures NoneNamesOlder([m] + glines)
  {
  }

  /** The lines a server sends when it places a mask, in order. */
  function Copies(links: seq<Link>, from: Option<Peer>, m: Mask): seq<Line> {
    SendToServer(links, None, true, true, false, false, Split, m)
    + SendToServer(links, None, true, false, false, true, Split, m)
    + SendToServer(links, from, true, false, false, false, Joined, m)
    + SendToServer(links, from, false, false, true, false, HybridSix, m)
    + SendToServer(links, None, false, true, true, false, HybridSix, m)
    + SendToServer(links, None, false, false, true, true, HybridSix, m)
  }

  // ----- what the list guarantees

  /** No two entries name each other, unless an older entry with a stray bit names a newer one. */
  lemma EntriesInequivalent(glines: seq<Mask>, i: nat, j: nat)
    requires NoneNamesOlder(glines) && i < |glines| && j < |glines| && i != j
    requires i < j || !glines[i].Stray()
    ensures !Matching(glines[i], glines[j])
  {
    if i > j && Matching(glines[i], glines[j]) {
      MatchingSymmetric(glines[i], glines[j]);
    }
  }

  /** Every mask names at most one entry. */
  lemma OneEntry(glines: seq<Mask>, m: Mask, i: nat, j: nat)
    requires NoneNamesOlder(glines) && i < |glines| && j < |glines|
    requires Matching(m, glines[i]) && Matching(m, glines[j])
    ensures i == j
  {
    NamedByOne(m, glines[i], glines[j]);
    NamedByOne(m, glines[j], glines[i]);
  }

  /** After a removal the mask is no longer found. */
  lemma RemovedIsGone(m: Mask, glines: seq<Mask>)
    requires NoneNamesOlder(glines)
    ensures !Found(m, RemoveMatch(m, glines))
  {
    if Found(m, glines) {
      var k := FirstMatch(m, glines);
      RemoveFirstAt(Naming(m), glines, k);
      var r := glines[..k] + glines[k + 1..];
      forall i | 0 <= i < |r|
        ensures !Matching(m, r[i])
      {
        if i >= k && Matching(m, glines[i + 1]) {
          NamedByOne(m, glines[k], glines[i + 1]);
        }
      }
    } else {
      RemoveFirstNone(Naming(m), glines);
    }
  }

  lemma FirstMatch(m: Mask, glines: seq<Mask>) returns (k: nat)
    requires Found(m, glines)
    ensures k < |glines| && Matching(m, glines[k]) && forall j :: 0 <= j < k ==> !Matching(m, glines[j])
  {
    k := 0;
    while !Matching(m, glines[k])
      invariant k < |glines| && forall j :: 0 <= j < k ==> !Matching(m, glines[j])
      invariant exists i :: k <= i < |glines| && Matching(m, glines[i])
      decreases |glines| - k
    {
      k := k + 1;
    }
  }

  /** Placing a new mask and removing it restores the list, exactly when it has no stray bit. */
  lemma PlaceThenRemove(m: Mask, glines: seq<Mask>)
    requires m.WellFormed() && !Found(m, glines)
    ensures RemoveMatch(m, [m] + glines) == glines <==> !m.Stray()
  {
    SelfMatching(m);
    if m.Stray() {
      RemoveFirstNone(Naming(m), glines);
      assert ([m] + glines)[1..] == glines;
      assert |RemoveMatch(m, [m] + glines)| == |glines| + 1;
    }
  }

  /** An entry with a stray bit is there for nobody: every mask finds and removes what it would without it. */
  lemma StrayEntryIsUnseen(given: Mask, m: Mask, glines: seq<Mask>)
    requires m.WellFormed() && m.Stray()
    ensures Found(given, [m] + glines) <==> Found(given, glines)
    ensures RemoveMatch(given, [m] + glines) == [m] + RemoveMatch(given, glines)
  {
    var all := [m] + glines;
    StrayIsUnreachable(given, m);
    assert all[0] == m && all[1..] == glines;
    if i :| 0 <= i < |glines| && Matching(given, glines[i]) {
      assert all[i + 1] == glines[i];
    }
    if i :| 0 <= i < |all| && Matching(given, all[i]) {
      assert i > 0 && all[i] == glines[i - 1];
    }
  }

  /** A mask with a stray bit does find and remove the entry it was meant to be. */
  lemma StrayFindsCleared(m: Mask)
    requires m.WellFormed() && m.Stray()
    ensures Found(m, [Cleared(m)]) && RemoveMatch(m, [Cleared(m)]) == []
  {
    StrayNamesCleared(m);
    assert [Cleared(m)][0] == Cleared(m);
  }

  // ----- what one placement sends

  lemma {:induction false} SendToServerLines(links: seq<Link>, one: Option<Peer>, needGln: bool, needTs6: bool,
                                             noGln: bool, noTs6: bool, form: Form, m: Mask, line: Line)
    ensures line in SendToServer(links, one, needGln, needTs6, noGln, noTs6, form, m) <==>
            line.form == form && line.mask == m
            && exists l :: l in links && l.peer == line.peer && Meets(l, one, needGln, needTs6, noGln, noTs6)
  {
    if links != [] {
      SendToServerLines(links[1..], one, needGln, needTs6, noGln, noTs6, form, m, line);
      assert forall l :: l in links <==> l == links[0] || l in links[1..];
    }
  }

  /** Every line goes to a linked server and carries the mask; each server that knows GLINE gets
      the split form, and the joined form unless the mask came from it. */
  lemma CopiesLines(links: seq<Link>, from: Option<Peer>, m: Mask, line: Line)
    ensures line in Copies(links, from, m) ==> line.mask == m && exists l :: l in links && l.peer == line.peer
    ensures line.form == Joined ==>
              (line in Copies(links, from, m) <==>
                line.mask == m && from != Some(line.peer) && exists l :: l in links && l.peer == line.peer && l.gln)
    ensures line.form == Split ==>
              (line in Copies(links, from, m) <==>
                line.mask == m && exists l :: l in links && l.peer == line.peer && l.gln)
  {
    SendToServerLines(links, None, true, true, false, false, Split, m, line);
    SendToServerLines(links, None, true, false, false, true, Split, m, line);
    SendToServerLines(links, from, true, false, false, false, Joined, m, line);
    SendToServerLines(links, from, false, false, true, false, HybridSix, m, line);
    SendToServerLines(links, None, false, true, true, false, HybridSix, m, line);
    SendToServerLines(links, None, false, false, true, true, HybridSix, m, line);
  }

  /** The lines to one server, in order. */
  function LinesTo(lines: seq<Line>, peer: Peer): seq<Form> {
    if lines == [] then []
    else (if lines[0].peer == peer then [lines[0].form] else []) + LinesTo(lines[1..], peer)
  }

  lemma {:induction false} LinesToConcat(a: seq<Line>, b: seq<Line>, peer: Peer)
    ensures LinesTo(a + b, peer) == LinesTo(a, peer) + LinesTo(b, peer)
  {
    if a == [] {
      assert a + b == b;
    } else {
      assert (a + b)[0] == a[0] && (a + b)[1..] == a[1..] + b;
      LinesToConcat(a[1..], b, peer);
      Regroup(if a[0].peer == peer then [a[0].form] else [], LinesTo(a[1..], peer), LinesTo(b, peer));
    }
  }

  lemma {:induction false} NoLineTo(links: seq<Link>, one: Option<Peer>, needGln: bool, needTs6: bool,
                                    noGln: bool, noTs6: bool, form: Form, m: Mask, peer: Peer)
    requires forall l :: l in links ==> l.peer != peer
    ensures LinesTo(SendToServer(links, one, needGln, needTs6, noGln, noTs6, form, m), peer) == []
  {
    if links != [] {
      var rest := SendToServer(links[1..], one, needGln, needTs6, noGln, noTs6, form, m);
      NoLineTo(links[1..], one, needGln, needTs6, noGln, noTs6, form, m, peer);
      assert ([Line(links[0].peer, form, m)] + rest)[1..] == rest;
    }
  }

  lemma {:induction false} OneSend(links: seq<Link>, one: Option<Peer>, needGln: bool, needTs6: bool,
                                   noGln: bool, noTs6: bool, form: Form, m: Mask, k: nat)
    requires k < |links| && forall i, j :: 0 <= i < j < |links| ==> links[i].peer != links[j].peer
    ensures LinesTo(SendToServer(links, one, needGln, needTs6, noGln, noTs6, form, m), links[k].peer)
              == if Meets(links[k], one, needGln, needTs6, noGln, noTs6) then [form] else []
  {
    var rest := SendToServer(links[1..], one, needGln, needTs6, noGln, noTs6, form, m);
    assert ([Line(links[0].peer, form, m)] + rest)[1..] == rest;
    if k == 0 {
      NoLineTo(links[1..], one, needGln, needTs6, noGln, noTs6, form, m, links[0].peer);
    } else {
      OneSend(links[1..], one, needGln, needTs6, noGln, noTs6, form, m, k - 1);
    }
  }

  /** What each server is sent: one that knows GLINE gets the split form and the joined form, the others the old form
      twice; one line less goes to the server that the mask came from. */
  lemma EachIsSent(links: seq<Link>, from: Option<Peer>, m: Mask, k: nat)
    requires k < |links| && forall i, j :: 0 <= i < j < |links| ==> links[i].peer != links[j].peer
    ensures
      var back := from == Some(links[k].peer);
      LinesTo(Copies(links, from, m), links[k].peer)
        == (if links[k].gln then if back then [Split] else [Split, Joined]
            else if back then [HybridSix] else [HybridSix, HybridSix])
  {
    var p := links[k].peer;
    OneSend(links, None, true, true, false, false, Split, m, k);
    OneSend(links, None, true, false, false, true, Split, m, k);
    OneSend(links, from, true, false, false, false, Joined, m, k);
    OneSend(links, from, false, false, true, false, HybridSix, m, k);
    OneSend(links, None, false, true, true, false, HybridSix, m, k);
    OneSend(links, None, false, false, true, true, HybridSix, m, k);
    LinesToSix(SendToServer(links, None, true, true, false, false, Split, m),
               SendToServer(links, None, true, false, false, true, Split, m),
               SendToServer(links, from, true, false, false, false, Joined, m),
               SendToServer(links, from, false, false, true, false, HybridSix, m),
               SendToServer(links, None, false, true, true, false, HybridSix, m),
               SendToServer(links, None, false, false, true, true, HybridSix, m), p);
    SixSends(links[k], from);
  }

  /** Which of the six sends meet a link. */
  lemma SixSends(l: Link, from: Option<Peer>)
    ensures
      var back := from == Some(l.peer);
      (if Meets(l, None, true, true, false, false) then [Split] else [])
      + (if Meets(l, None, true, false, false, true) then [Split] else [])
      + (if Meets(l, from, true, false, false, false) then [Joined] else [])
      + (if Meets(l, from, false, false, true, false) then [HybridSix] else [])
      + (if Meets(l, None, false, true, true, false) then [HybridSix] else [])
      + (if Meets(l, None, false, false, true, true) then [HybridSix] else [])
        == (if l.gln then if back then [Split] else [Split, Joined]
            else if back then [HybridSix] else [HybridSix, HybridSix])
  {
    var none: seq<Form> := [];
    if l.gln {
      assert [Split] + none == [Split] && none + [Split] == [Split];
    } else {
      assert none + none == none && [HybridSix] + none == [HybridSix];
    }
  }

  lemma LinesToSix(a: seq<Line>, b: seq<Line>, c: seq<Line>, d: seq<Line>, e: seq<Line>, f: seq<Line>, p: Peer)
    ensures LinesTo(a + b + c + d + e + f, p)
              == LinesTo(a, p) + LinesTo(b, p) + LinesTo(c, p) + LinesTo(d, p) + LinesTo(e, p) + LinesTo(f, p)
  {
    LinesToConcat(a, b, p);
    LinesToConcat(a + b, c, p);
    LinesToConcat(a + b + c, d, p);
    LinesToConcat(a + b + c + d, e, p);
    LinesToConcat(a + b + c + d + e, f, p);
  }

  /** No server is sent more than two lines. */
  lemma {:induction false} CopiesBounded(links: seq<Link>, from: Option<Peer>, m: Mask)
    ensures |Copies(links, from, m)| <= 2 * |links|
  {
    if links != [] {
      CopiesBounded(links[1..], from, m);
    }
  }
}
