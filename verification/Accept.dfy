/** ACCEPT: who may message a user with +g (modules/m_accept.c, del_from_accept() and del_all_accepts() in
    src/client.c). */
module Accept {
  import opened Options
  import opened Seqs
  import opened Text

  type Client = nat

  /** allow_list and on_allow_list of every client there has been, newest entry first. */
  datatype Lists = Lists(allow: seq<seq<Client>>, on: seq<seq<Client>>)

  predicate Known(l: Lists, c: Client) {
    c < |l.allow| == |l.on|
  }

  predicate AllKnown(l: Lists, cs: seq<Client>) {
    forall i :: 0 <= i < |cs| ==> Known(l, cs[i])
  }

  ghost predicate WellFormed(l: Lists) {
    && |l.allow| == |l.on|
    && (forall s: Client :: s < |l.allow| ==> Distinct(l.allow[s]) && Distinct(l.on[s]))
    && (forall s: Client, t: Client :: s < |l.allow| && Listed(l.allow[s], t) ==> t < |l.on|)
    && (forall s: Client, t: Client :: t < |l.on| && Listed(l.on[t], s) ==> s < |l.allow|)
  }

  /** The two sides of the relation say the same. */
  ghost predicate Mirrored(l: Lists)
    requires WellFormed(l)
  {
    forall s: Client, t: Client :: s < |l.allow| && t < |l.on| ==> (Listed(l.allow[s], t) <==> Listed(l.on[t], s))
  }

  ghost predicate Bounded(l: Lists, max: nat) {
    forall s: Client :: s < |l.allow| ==> |l.allow[s]| <= max
  }

  ghost predicate Good(l: Lists, max: nat) {
    WellFormed(l) && Mirrored(l) && Bounded(l, max)
  }

  /** add_accept() */
  function Add(l: Lists, s: Client, t: Client): (r: Lists)
    requires Known(l, s) && Known(l, t)
    ensures |r.allow| == |l.allow| && |r.on| == |l.on|
  {
    Lists(l.allow[s := [t] + l.allow[s]], l.on[t := [s] + l.on[t]])
  }

  /** del_from_accept(t, s): t is taken from the list of s. */
  function Del(l: Lists, s: Client, t: Client): (r: Lists)
    requires Known(l, s) && Known(l, t)
    ensures |r.allow| == |l.allow| && |r.on| == |l.on|
  {
    if t !in l.allow[s] then l else Lists(l.allow[s := Remove(l.allow[s], t)], l.on[t := Remove(l.on[t], s)])
  }

  lemma AddKeepsGood(l: Lists, s: Client, t: Client, max: nat)
    requires Good(l, max) && Known(l, s) && Known(l, t) && t !in l.allow[s] && |l.allow[s]| < max
    ensures Good(Add(l, s, t), max)
  {
    ConsMembers(t, l.allow[s]);
    ConsMembers(s, l.on[t]);
    AddListed(l, s, t);
  }

  lemma AddListed(l: Lists, s: Client, t: Client)
    requires Known(l, s) && Known(l, t)
    ensures forall a: Client, b: Client :: a < |l.allow| ==>
              (Listed(Add(l, s, t).allow[a], b) <==> Listed(l.allow[a], b) || (a == s && b == t))
    ensures forall a: Client, b: Client :: b < |l.on| ==>
              (Listed(Add(l, s, t).on[b], a) <==> Listed(l.on[b], a) || (a == s && b == t))
  {
  }

  lemma DelListed(l: Lists, s: Client, t: Client)
    requires Known(l, s) && Known(l, t) && Distinct(l.allow[s]) && Distinct(l.on[t]) && Listed(l.allow[s], t)
    ensures forall a: Client, b: Client :: a < |l.allow| ==>
              (Listed(Del(l, s, t).allow[a], b) <==> Listed(l.allow[a], b) && !(a == s && b == t))
    ensures forall a: Client, b: Client :: b < |l.on| ==>
              (Listed(Del(l, s, t).on[b], a) <==> Listed(l.on[b], a) && !(a == s && b == t))
  {
    RemoveIsExact(l.allow[s], t);
    RemoveIsExact(l.on[t], s);
  }

  lemma DelKeepsGood(l: Lists, s: Client, t: Client, max: nat)
    requires Good(l, max) && Known(l, s) && Known(l, t)
    ensures Good(Del(l, s, t), max) && t !in Del(l, s, t).allow[s]
  {
    RemoveIsExact(l.allow[s], t);
    RemoveIsExact(l.on[t], s);
    if Listed(l.allow[s], t) {
      DelListed(l, s, t);
    }
  }

  // ----- one command

  datatype Reply =
    | NoSuchNick(name: string)
    | AcceptNot(who: Client)
    | AcceptExist(who: Client)
    | AcceptFull
    | AcceptList(text: string)
    | EndOfAccept

  /** The deletions of one command. */
  function DelAll(l: Lists, s: Client, ts: seq<Client>): (r: Lists)
    requires Known(l, s) && AllKnown(l, ts)
    ensures |r.allow| == |l.allow| && |r.on| == |l.on|
    decreases |ts|
  {
    if ts == [] then l else DelAll(Del(l, s, ts[0]), s, ts[1..])
  }

  /** The additions of one command, `num` being the counter that is compared with the limit. */
  function AddAll(l: Lists, s: Client, ts: seq<Client>, num: nat, max: nat): (r: Lists)
    requires Known(l, s) && AllKnown(l, ts)
    ensures |r.allow| == |l.allow| && |r.on| == |l.on|
    decreases |ts|
  {
    if ts == [] then l
    else if ts[0] in l.allow[s] then AddAll(l, s, ts[1..], num + 1, max)
    else if num >= max then l
    else AddAll(Add(l, s, ts[0]), s, ts[1..], num + 1, max)
  }

  lemma {:induction false} DelAllKeepsGood(l: Lists, s: Client, ts: seq<Client>, max: nat)
    requires Known(l, s) && AllKnown(l, ts) && Good(l, max)
    ensures Good(DelAll(l, s, ts), max)
    decreases |ts|
  {
    if ts != [] {
      DelKeepsGood(l, s, ts[0], max);
      DelAllKeepsGood(Del(l, s, ts[0]), s, ts[1..], max);
    }
  }

  /** Exactly the named clients are taken off the list, and no other client's list changes. */
  lemma {:induction false} DelAllIsExact(l: Lists, s: Client, ts: seq<Client>)
    requires Known(l, s) && AllKnown(l, ts) && Distinct(l.allow[s])
    ensures forall t: Client :: Listed(DelAll(l, s, ts).allow[s], t) <==> Listed(l.allow[s], t) && t !in ts
    ensures forall c: Client :: c < |l.allow| && c != s ==> DelAll(l, s, ts).allow[c] == l.allow[c]
    decreases |ts|
  {
    if ts != [] {
      RemoveIsExact(l.allow[s], ts[0]);
      DelAllIsExact(Del(l, s, ts[0]), s, ts[1..]);
    }
  }

  lemma TurnKeepsGood(l: Lists, s: Client, t: Client, num: nat, max: nat)
    requires Known(l, s) && Known(l, t) && Good(l, max) && |l.allow[s]| <= num && (t in l.allow[s] || num < max)
    ensures
      var next := if t in l.allow[s] then l else Add(l, s, t);
      Good(next, max) && |next.allow[s]| <= num + 1
  {
    if t !in l.allow[s] {
      AddKeepsGood(l, s, t, max);
    }
  }

  /** The counter starts at the length of the list and grows with every name, so that it never falls behind
      the length: the limit holds. */
  lemma {:induction false} AddAllKeepsGood(l: Lists, s: Client, ts: seq<Client>, num: nat, max: nat)
    requires Known(l, s) && AllKnown(l, ts) && Good(l, max) && |l.allow[s]| <= num
    ensures Good(AddAll(l, s, ts, num, max), max)
    decreases |ts|
  {
    if ts != [] && (ts[0] in l.allow[s] || num < max) {
      TurnKeepsGood(l, s, ts[0], num, max);
      AddAllKeepsGood(if ts[0] in l.allow[s] then l else Add(l, s, ts[0]), s, ts[1..], num + 1, max);
    }
  }

  /** Nobody is added but those named, nobody is lost, and no other client's list changes. */
  lemma {:induction false} AddAllAddsOnly(l: Lists, s: Client, ts: seq<Client>, num: nat, max: nat)
    requires Known(l, s) && AllKnown(l, ts)
    ensures forall t :: t in l.allow[s] ==> t in AddAll(l, s, ts, num, max).allow[s]
    ensures forall t :: t in AddAll(l, s, ts, num, max).allow[s] ==> t in l.allow[s] || t in ts
    ensures forall c: Client :: c < |l.allow| && c != s ==> AddAll(l, s, ts, num, max).allow[c] == l.allow[c]
    decreases |ts|
  {
    if ts != [] {
      if ts[0] in l.allow[s] {
        AddAllAddsOnly(l, s, ts[1..], num + 1, max);
      } else if num < max {
        AddAllAddsOnly(Add(l, s, ts[0]), s, ts[1..], num + 1, max);
      }
    }
  }

  /** Names that are new when their turn comes, with the counter at the limit. */
  ghost predicate TurnedAway(have: seq<Client>, ts: seq<Client>, num: nat, max: nat) {
    exists i :: 0 <= i < |ts| && num + i >= max && ts[i] !in have && ts[i] !in ts[..i]
  }

  /** All names of a command are accepted unless a new one comes with the counter at the limit; and every name
      counts for that, also those that were accepted before. */
  lemma {:induction false} AllAdded(l: Lists, s: Client, ts: seq<Client>, num: nat, max: nat)
    requires Known(l, s) && AllKnown(l, ts)
    ensures (forall i :: 0 <= i < |ts| ==> ts[i] in AddAll(l, s, ts, num, max).allow[s])
        <==> !TurnedAway(l.allow[s], ts, num, max)
    decreases |ts|
  {
    if ts != [] {
      var rest := ts[1..];
      var next := if ts[0] in l.allow[s] then l else Add(l, s, ts[0]);
      if ts[0] !in l.allow[s] && num >= max {
        assert TurnedAway(l.allow[s], ts, num, max);
      } else {
        AllAdded(next, s, rest, num + 1, max);
        TurnOfTheRest(l.allow[s], next.allow[s], ts, num, max);
        AddAllAddsOnly(next, s, rest, num + 1, max);
        assert ts[0] in next.allow[s];
        assert forall i :: 0 < i < |ts| ==> ts[i] == rest[i - 1];
      }
    }
  }

  lemma TurnOfTheRest(have: seq<Client>, now: seq<Client>, ts: seq<Client>, num: nat, max: nat)
    requires ts != [] && (ts[0] in have || num < max)
    requires forall t :: t in now <==> t in have || t == ts[0]
    ensures TurnedAway(have, ts, num, max) <==> TurnedAway(now, ts[1..], num + 1, max)
  {
    var rest := ts[1..];
    forall i | 0 <= i < |rest|
      ensures rest[i] == ts[i + 1] && (rest[i] in ts[..i + 1] <==> rest[i] == ts[0] || rest[i] in rest[..i])
    {
      assert ts[..i + 1] == [ts[0]] + rest[..i];
    }
    if i :| 0 <= i < |ts| && num + i >= max && ts[i] !in have && ts[i] !in ts[..i] {
      assert i > 0 && ts[i] == rest[i - 1];
    }
    if i :| 0 <= i < |rest| && num + 1 + i >= max && rest[i] !in now && rest[i] !in rest[..i] {
      assert ts[i + 1] == rest[i];
    }
  }

  // ----- leaving

  function ForgetBy(l: Lists, c: Client, ss: seq<Client>): (r: Lists)
    requires Known(l, c) && AllKnown(l, ss)
    ensures |r.allow| == |l.allow| && |r.on| == |l.on|
    decreases |ss|
  {
    if ss == [] then l else ForgetBy(Del(l, ss[0], c), c, ss[1..])
  }

  lemma ListedAreKnown(l: Lists, c: Client)
    requires Known(l, c) && WellFormed(l)
    ensures AllKnown(l, l.allow[c]) && AllKnown(l, l.on[c])
  {
    assert forall i :: 0 <= i < |l.allow[c]| ==> Listed(l.allow[c], l.allow[c][i]);
    assert forall i :: 0 <= i < |l.on[c]| ==> Listed(l.on[c], l.on[c][i]);
  }

  /** del_all_accepts() */
  function Quit(l: Lists, c: Client, max: nat): Lists
    requires Known(l, c) && Good(l, max)
  {
    ListedAreKnown(l, c);
    var own := DelAll(l, c, l.allow[c]);
    DelAllKeepsGood(l, c, l.allow[c], max);
    ListedAreKnown(own, c);
    ForgetBy(own, c, own.on[c])
  }

  lemma {:induction false} ForgetByIsExact(l: Lists, c: Client, ss: seq<Client>, max: nat)
    requires Known(l, c) && AllKnown(l, ss) && Good(l, max)
    ensures Good(ForgetBy(l, c, ss), max)
    ensures forall s: Client, t: Client :: s < |l.allow| ==>
              (Listed(ForgetBy(l, c, ss).allow[s], t) <==> Listed(l.allow[s], t) && !(t == c && s in ss))
    decreases |ss|
  {
    if ss != [] {
      DelKeepsGood(l, ss[0], c, max);
      if Listed(l.allow[ss[0]], c) {
        DelListed(l, ss[0], c);
      }
      ForgetByIsExact(Del(l, ss[0], c), c, ss[1..], max);
    }
  }

  lemma NoneListed(list: seq<Client>)
    requires forall c: Client :: !Listed(list, c)
    ensures list == []
  {
    if list != [] {
      assert Listed(list, list[0]);
    }
  }

  /** A client that leaves is on no list, and has none; the others keep all other entries. */
  lemma QuitForgets(l: Lists, c: Client, max: nat)
    requires Known(l, c) && Good(l, max)
    ensures
      var r := Quit(l, c, max);
      && Good(r, max) && r.allow[c] == [] && r.on[c] == []
      && forall s: Client, t: Client :: s < |l.allow| && s != c ==> (Listed(r.allow[s], t) <==> t != c && Listed(l.allow[s], t))
  {
    ListedAreKnown(l, c);
    var own := DelAll(l, c, l.allow[c]);
    DelAllKeepsGood(l, c, l.allow[c], max);
    DelAllIsExact(l, c, l.allow[c]);
    ListedAreKnown(own, c);
    ForgetByIsExact(own, c, own.on[c], max);
    var r := Quit(l, c, max);
    forall s: Client, t: Client | s < |l.allow|
      ensures Listed(r.allow[s], t) <==> s != c && t != c && Listed(l.allow[s], t)
    {
      assert s in own.on[c] <==> Listed(own.on[c], s);
    }
    NoneListed(r.allow[c]);
    forall s: Client
      ensures !Listed(r.on[c], s)
    {
      if s < |r.allow| {
        assert Listed(r.allow[s], c) <==> Listed(r.on[c], s);
      }
    }
    NoneListed(r.on[c]);
  }

  // ----- parsing the argument

  function SkipCommas(s: string): (r: string)
    ensures |r| <= |s| && (r != "" ==> r[0] != ',')
  {
    if s != "" && s[0] == ',' then SkipCommas(s[1..]) else s
  }

  /** The tokens that strtoken() finds between commas. */
  function Tokens(s: string): seq<string>
    decreases |s|
  {
    var t := SkipCommas(s);
    if t == "" then []
    else
      var name := Before(t, ',');
      [name] + if |name| == |t| then [] else Tokens(t[|name| + 1..])
  }

  /** One more name in addbuf or delbuf. */
  function Append(buf: string, name: string): string {
    if buf == "" then name else buf + "," + name
  }

  function Joined(names: seq<string>): string {
    if names == [] then "" else if |names| == 1 then names[0] else names[0] + "," + Joined(names[1..])
  }

  predicate IsName(name: string) {
    name != "" && ',' !in name
  }

  lemma {:induction false} JoinedSnoc(names: seq<string>, name: string)
    requires IsName(name) && forall i :: 0 <= i < |names| ==> IsName(names[i])
    ensures Append(Joined(names), name) == Joined(names + [name])
    decreases |names|
  {
    var all := names + [name];
    if |names| > 0 {
      assert all[1..] == names[1..] + [name];
      JoinedSnoc(names[1..], name);
      if |names| > 1 {
        assert Joined(names[1..]) != "";
        assert names[0] + "," + Joined(names[1..]) + "," + name == names[0] + "," + (Joined(names[1..]) + "," + name);
      }
    }
  }

  /** What is put into the buffers comes out of them. */
  lemma {:induction false} BuffersKeepNames(names: seq<string>)
    requires forall i :: 0 <= i < |names| ==> IsName(names[i])
    ensures Tokens(Joined(names)) == names
    decreases |names|
  {
    if names != [] {
      var name, rest := names[0], Joined(names[1..]);
      assert IsName(name) && name[0] in name && names == [name] + names[1..];
      BuffersKeepNames(names[1..]);
      if |names| == 1 {
        BeforeNone(name, ',');
      } else {
        BeforeFirst(name, ',', rest);
        BeforeNone(name, ',');
        TokensFirst(name, rest);
      }
    }
  }

  lemma TokensFirst(name: string, rest: string)
    requires IsName(name) && Before(name + [','] + rest, ',') == name
    ensures Tokens(name + "," + rest) == [name] + Tokens(rest)
  {
    var text := name + [','] + rest;
    assert text == name + "," + rest && name[0] in name && text[0] == name[0];
    assert SkipCommas(text) == text && text[|name| + 1..] == rest;
  }

  // ----- printing the list

  const IRCD_BUFSIZE: nat := 512

  /** The lines of list_accepts() when `nicks` is in the buffer; `len` is the room that the rest of a reply takes. */
  function ListFrom(nicks: string, names: seq<string>, len: nat): seq<string>
    requires forall i :: 0 <= i < |names| ==> |names[i]| + len <= IRCD_BUFSIZE
    decreases |names|
  {
    if names == [] then if nicks == "" then [] else [nicks[..|nicks| - 1]]
    else if |nicks| + |names[0]| + len > IRCD_BUFSIZE then
      [nicks[..|nicks| - 1]] + ListFrom(names[0] + " ", names[1..], len)
    else ListFrom(nicks + names[0] + " ", names[1..], len)
  }

  predicate EndsInSpace(s: string) {
    s == "" || s[|s| - 1] == ' '
  }

  lemma SpacedOne(s: string, rest: seq<string>)
    ensures Spaced([s] + rest) == s + " " + Spaced(rest)
  {
    assert ([s] + rest)[1..] == rest;
  }

  /** The lines joined by spaces are the list, in order, and no line is too long for a reply. */
  lemma {:induction false} LinesAreTheList(nicks: string, names: seq<string>, len: nat)
    requires forall i :: 0 <= i < |names| ==> |names[i]| + len <= IRCD_BUFSIZE
    requires EndsInSpace(nicks) && (nicks != "" ==> |nicks| - 1 + len <= IRCD_BUFSIZE)
    ensures Spaced(ListFrom(nicks, names, len)) == nicks + Spaced(names)
    ensures forall i :: 0 <= i < |ListFrom(nicks, names, len)| ==> |ListFrom(nicks, names, len)[i]| + len <= IRCD_BUFSIZE
    decreases |names|
  {
    var lines := ListFrom(nicks, names, len);
    if names == [] {
      if nicks != "" {
        SpacedOne(nicks[..|nicks| - 1], []);
        assert lines == [nicks[..|nicks| - 1]] + [];
      }
    } else if |nicks| + |names[0]| + len > IRCD_BUFSIZE {
      LinesAreTheList(names[0] + " ", names[1..], len);
      SpacedOne(nicks[..|nicks| - 1], ListFrom(names[0] + " ", names[1..], len));
      assert nicks == nicks[..|nicks| - 1] + " ";
    } else {
      LinesAreTheList(nicks + names[0] + " ", names[1..], len);
      assert nicks + (names[0] + " " + Spaced(names[1..])) == nicks + names[0] + " " + Spaced(names[1..]);
    }
  }

  /** A name that can stand in a line of names. */
  predicate IsWord(name: string) {
    name != "" && ' ' !in name
  }

  /** The first name of the first line. */
  lemma {:induction false} FirstOfLines(nicks: string, names: seq<string>, len: nat)
    requires forall i :: 0 <= i < |names| ==> |names[i]| + len <= 512 && IsWord(names[i])
    requires EndsInSpace(nicks) && (nicks == "" ==> names != [])
    ensures
      var lines := ListFrom(nicks, names, len);
      lines != [] && Before(lines[0], ' ') == if nicks == "" then names[0] else Before(nicks, ' ')
    decreases |names|
  {
    if names == [] || |nicks| + |names[0]| + len > 512 {
      assert nicks == nicks[..|nicks| - 1] + [' '];
      SpaceAfter(nicks[..|nicks| - 1]);
    } else {
      var more := nicks + names[0] + " ";
      FirstOfLines(more, names[1..], len);
      FirstWord(nicks, names[0]);
    }
  }

  lemma SpaceAfter(s: string)
    ensures Before(s + [' '], ' ') == Before(s, ' ')
  {
    BeforeFirst(s, ' ', "");
    assert s + [' '] + "" == s + [' '];
  }

  lemma FirstWord(nicks: string, name: string)
    requires IsWord(name) && EndsInSpace(nicks)
    ensures Before(nicks + name + " ", ' ') == if nicks == "" then name else Before(nicks, ' ')
  {
    if nicks == "" {
      assert nicks + name + " " == name + [' '] + "";
      BeforeFirst(name, ' ', "");
      BeforeNone(name, ' ');
    } else {
      var s := nicks[..|nicks| - 1];
      assert nicks + name + " " == s + [' '] + (name + " ");
      BeforeFirst(s, ' ', name + " ");
      assert nicks == s + [' '];
      SpaceAfter(s);
    }
  }

  lemma NextStarts(names: seq<string>, len: nat)
    requires names != [] && forall i :: 0 <= i < |names| ==> |names[i]| + len <= 512 && IsWord(names[i])
    ensures
      var rest := ListFrom(names[0] + " ", names[1..], len);
      rest != [] && Before(rest[0], ' ') == names[0]
  {
    FirstOfLines(names[0] + " ", names[1..], len);
    FirstWord("", names[0]);
    assert "" + names[0] + " " == names[0] + " ";
  }

  /** A line is ended only when the next name does not fit into its reply. */
  lemma {:induction false} LinesAreFull(nicks: string, names: seq<string>, len: nat, k: nat)
    requires forall i :: 0 <= i < |names| ==> |names[i]| + len <= 512 && IsWord(names[i])
    requires EndsInSpace(nicks) && k + 1 < |ListFrom(nicks, names, len)|
    ensures
      var lines := ListFrom(nicks, names, len);
      |lines[k]| + 1 + |Before(lines[k + 1], ' ')| + len > 512
    decreases |names|
  {
    if names != [] {
      if |nicks| + |names[0]| + len > 512 {
        var rest := ListFrom(names[0] + " ", names[1..], len);
        NextStarts(names, len);
        assert ([nicks[..|nicks| - 1]] + rest)[k + 1] == rest[k];
        if k > 0 {
          LinesAreFull(names[0] + " ", names[1..], len, k - 1);
          assert ([nicks[..|nicks| - 1]] + rest)[k] == rest[k - 1];
        }
      } else {
        LinesAreFull(nicks + names[0] + " ", names[1..], len, k);
      }
    }
  }

  /** RPL_ACCEPTLIST with its line end */
  function ReplyLine(me: string, nick: string, text: string): string {
    ":" + me + " 281 " + nick + " :" + text + "\r\n"
  }

  /** Every reply fits into a message with its CR and LF. */
  lemma RepliesFit(me: string, nick: string, names: seq<string>)
    requires forall i :: 0 <= i < |names| ==> |names[i]| + (|me| + |nick| + 12) <= IRCD_BUFSIZE
    ensures
      var lines := ListFrom("", names, |me| + |nick| + 12);
      forall i :: 0 <= i < |lines| ==> |ReplyLine(me, nick, lines[i])| <= IRCD_BUFSIZE - 2
  {
    LinesAreTheList("", names, |me| + |nick| + 12);
    assert |" 281 "| == 5 && |" :"| == 2 && |"\r\n"| == 2;
  }

  // ----- the handler

  function NamesOf(names: seq<string>, cs: seq<Client>): (r: seq<string>)
    ensures |r| == |cs| && forall i :: 0 <= i < |cs| ==> r[i] == if cs[i] < |names| then names[cs[i]] else ""
  {
    seq(|cs|, i requires 0 <= i < |cs| => if cs[i] < |names| then names[cs[i]] else "")
  }

  /** All the names fit into a reply to s. */
  predicate Fit(names: seq<string>, me: string, s: Client) {
    s < |names| && forall t :: 0 <= t < |names| ==> |names[t]| + (|me| + |names[s]| + 12) <= IRCD_BUFSIZE
  }

  function ListOf(names: seq<string>, me: string, s: Client, cs: seq<Client>): seq<string>
    requires Fit(names, me, s)
  {
    assert |names[s]| >= 0;
    ListFrom("", NamesOf(names, cs), |me| + |names[s]| + 12)
  }

  /** find_client(), for the time of one command */
  type Directory = map<string, Client>

  predicate Covers(dir: Directory, names: seq<string>) {
    forall i :: 0 <= i < |names| ==> names[i] in dir
  }

  function Ids(names: seq<string>, dir: Directory): (r: seq<Client>)
    requires Covers(dir, names)
    ensures |r| == |names| && forall i :: 0 <= i < |r| ==> r[i] == dir[names[i]]
  {
    seq(|names|, i requires 0 <= i < |names| => dir[names[i]])
  }

  function ListReplies(lines: seq<string>): seq<Reply> {
    seq(|lines|, i requires 0 <= i < |lines| => AcceptList(lines[i])) + [EndOfAccept]
  }

  /** The texts of the lines of a list. */
  function TextsOf(rs: seq<Reply>): seq<string> {
    if rs == [] then [] else (if rs[0].AcceptList? then [rs[0].text] else []) + TextsOf(rs[1..])
  }

  /** The replies list some names, in order, and nothing else, and end. */
  ghost predicate IsListing(rs: seq<Reply>, list: seq<string>) {
    && rs != [] && rs[|rs| - 1] == EndOfAccept
    && (forall i :: 0 <= i < |rs| - 1 ==> rs[i].AcceptList?)
    && Spaced(TextsOf(rs[..|rs| - 1])) == Spaced(list)
  }

  lemma {:induction false} TextsOfLines(lines: seq<string>)
    ensures TextsOf(seq(|lines|, i requires 0 <= i < |lines| => AcceptList(lines[i]))) == lines
  {
    var rs := seq(|lines|, i requires 0 <= i < |lines| => AcceptList(lines[i]));
    if lines != [] {
      var rest := lines[1..];
      assert rs[1..] == seq(|rest|, i requires 0 <= i < |rest| => AcceptList(rest[i]));
      TextsOfLines(rest);
    }
  }

  /** What ACCEPT * sends is a listing of the names on the list. */
  lemma ListingSays(names: seq<string>, me: string, s: Client, cs: seq<Client>)
    requires Fit(names, me, s)
    ensures IsListing(ListReplies(ListOf(names, me, s, cs)), NamesOf(names, cs))
  {
    var lines := ListOf(names, me, s, cs);
    var rs := ListReplies(lines);
    var texts := seq(|lines|, i requires 0 <= i < |lines| => AcceptList(lines[i]));
    assert rs[..|rs| - 1] == texts;
    TextsOfLines(lines);
    LinesAreTheList("", NamesOf(names, cs), |me| + |names[s]| + 12);
    assert "" + Spaced(NamesOf(names, cs)) == Spaced(NamesOf(names, cs));
  }

  function DelReplies(l: Lists, s: Client, ts: seq<Client>): seq<Reply>
    requires Known(l, s) && AllKnown(l, ts)
    decreases |ts|
  {
    if ts == [] then []
    else (if ts[0] !in l.allow[s] then [AcceptNot(ts[0])] else []) + DelReplies(Del(l, s, ts[0]), s, ts[1..])
  }

  function AddReplies(l: Lists, s: Client, ts: seq<Client>, num: nat, max: nat, names: seq<string>, me: string): seq<Reply>
    requires Known(l, s) && AllKnown(l, ts) && Fit(names, me, s)
    decreases |ts|
  {
    if ts == [] then []
    else if ts[0] in l.allow[s] then [AcceptExist(ts[0])] + AddReplies(l, s, ts[1..], num + 1, max, names, me)
    else if num >= max then [AcceptFull]
    else
      var next := Add(l, s, ts[0]);
      ListReplies(ListOf(names, me, s, next.allow[s])) + AddReplies(next, s, ts[1..], num + 1, max, names, me)
  }

  /** Who is told off for a deletion: those who are not on the list when their turn comes. */
  lemma {:induction false} DelRepliesAre(l: Lists, s: Client, ts: seq<Client>, r: Reply)
    requires Known(l, s) && AllKnown(l, ts) && Distinct(l.allow[s])
    ensures r in DelReplies(l, s, ts) <==>
              exists i :: 0 <= i < |ts| && r == AcceptNot(ts[i]) && (ts[i] !in l.allow[s] || ts[i] in ts[..i])
    ensures |DelReplies(l, s, ts)| <= |ts|
    decreases |ts|
  {
    if ts != [] {
      var rest, next := ts[1..], Del(l, s, ts[0]);
      RemoveIsExact(l.allow[s], ts[0]);
      DelRepliesAre(next, s, rest, r);
      forall i | 0 <= i < |rest|
        ensures (rest[i] !in next.allow[s] || rest[i] in rest[..i]) <==> (ts[i + 1] !in l.allow[s] || ts[i + 1] in ts[..i + 1])
      {
        assert ts[..i + 1] == [ts[0]] + rest[..i];
        assert Listed(next.allow[s], rest[i]) <==> Listed(l.allow[s], rest[i]) && rest[i] != ts[0];
      }
      if r in DelReplies(next, s, rest) {
        var i :| 0 <= i < |rest| && r == AcceptNot(rest[i]) && (rest[i] !in next.allow[s] || rest[i] in rest[..i]);
        assert ts[i + 1] == rest[i];
      }
      if i :| 0 < i < |ts| && r == AcceptNot(ts[i]) && (ts[i] !in l.allow[s] || ts[i] in ts[..i]) {
        assert rest[i - 1] == ts[i];
      }
    }
  }

  /** What is said of each addition: of a client on the list that he is, of a new one, when the counter is at the limit,
      that the list is full, and nothing more; else the whole list, the new client first. */
  lemma AddRepliesAre(l: Lists, s: Client, ts: seq<Client>, num: nat, max: nat, names: seq<string>, me: string)
    requires Known(l, s) && AllKnown(l, ts) && Fit(names, me, s) && ts != []
    ensures
      var all, rest := AddReplies(l, s, ts, num, max, names, me), ts[1..];
      if ts[0] in l.allow[s] then
        all != [] && all[0] == AcceptExist(ts[0]) && all[1..] == AddReplies(l, s, rest, num + 1, max, names, me)
      else if num >= max then all == [AcceptFull]
      else
        ListedThen(all, NamesOf(names, [ts[0]] + l.allow[s]), AddReplies(Add(l, s, ts[0]), s, rest, num + 1, max, names, me))
  {
    var rest := ts[1..];
    if ts[0] !in l.allow[s] && num < max {
      var listing := ListReplies(ListOf(names, me, s, [ts[0]] + l.allow[s]));
      ListingSays(names, me, s, [ts[0]] + l.allow[s]);
      assert Add(l, s, ts[0]).allow[s] == [ts[0]] + l.allow[s];
      ThenListed(listing, NamesOf(names, [ts[0]] + l.allow[s]), AddReplies(Add(l, s, ts[0]), s, rest, num + 1, max, names, me));
    }
  }

  /** A listing comes first, and then other replies. */
  ghost predicate ListedThen(all: seq<Reply>, list: seq<string>, others: seq<Reply>) {
    exists k :: 0 <= k <= |all| && IsListing(all[..k], list) && all[k..] == others
  }

  lemma ThenListed(listing: seq<Reply>, list: seq<string>, others: seq<Reply>)
    requires IsListing(listing, list)
    ensures ListedThen(listing + others, list, others)
  {
    var all := listing + others;
    assert all[..|listing|] == listing && all[|listing|..] == others;
  }

  lemma NextDeletion(l: Lists, s: Client, ts: seq<Client>, i: nat)
    requires Known(l, s) && AllKnown(l, ts) && i < |ts|
    ensures DelAll(l, s, ts[i..]) == DelAll(Del(l, s, ts[i]), s, ts[i + 1..])
    ensures DelReplies(l, s, ts[i..]) ==
              (if ts[i] !in l.allow[s] then [AcceptNot(ts[i])] else []) + DelReplies(Del(l, s, ts[i]), s, ts[i + 1..])
  {
    var rest := ts[i..];
    assert rest[0] == ts[i] && rest[1..] == ts[i + 1..];
  }

  lemma RepliesSoFar(replies: seq<Reply>, l: Lists, s: Client, ts: seq<Client>, i: nat)
    requires Known(l, s) && AllKnown(l, ts) && i < |ts|
    ensures replies + DelReplies(l, s, ts[i..]) ==
              (if ts[i] !in l.allow[s] then replies + [AcceptNot(ts[i])] else replies)
              + DelReplies(Del(l, s, ts[i]), s, ts[i + 1..])
  {
    NextDeletion(l, s, ts, i);
    var rest := DelReplies(Del(l, s, ts[i]), s, ts[i + 1..]);
    if ts[i] !in l.allow[s] {
      Regroup(replies, [AcceptNot(ts[i])], rest);
    } else {
      assert [] + rest == rest;
    }
  }

  lemma NextAddition(replies: seq<Reply>, l: Lists, s: Client, ts: seq<Client>, i: nat, num: nat, max: nat,
                     names: seq<string>, me: string)
    requires Known(l, s) && AllKnown(l, ts) && i < |ts| && Fit(names, me, s)
    ensures
      var t, rest := ts[i], ts[i + 1..];
      var all := AddReplies(l, s, ts[i..], num, max, names, me);
      if t in l.allow[s] then
        && AddAll(l, s, ts[i..], num, max) == AddAll(l, s, rest, num + 1, max)
        && replies + all == replies + [AcceptExist(t)] + AddReplies(l, s, rest, num + 1, max, names, me)
      else if num >= max then AddAll(l, s, ts[i..], num, max) == l && all == [AcceptFull]
      else
        var next := Add(l, s, t);
        && AddAll(l, s, ts[i..], num, max) == AddAll(next, s, rest, num + 1, max)
        && replies + all == replies + ListReplies(ListOf(names, me, s, next.allow[s]))
                            + AddReplies(next, s, rest, num + 1, max, names, me)
  {
    assert ts[i..][0] == ts[i] && ts[i..][1..] == ts[i + 1..];
  }

  ghost predicate GoodDirectory(dir: Directory, n: nat) {
    forall name :: name in dir ==> IsName(name) && dir[name] < n
  }

  function NameIn(token: string): string {
    if token != "" && token[0] == '-' then token[1..] else token
  }

  /** The names of clients among the tokens, to delete or to add. */
  function Wanted(tokens: seq<string>, dir: Directory, del: bool): (r: seq<string>)
    ensures Covers(dir, r)
  {
    if tokens == [] then []
    else
      var token := tokens[0];
      var hit := NameIn(token) in dir && (token != "" && token[0] == '-') == del;
      (if hit then [NameIn(token)] else []) + Wanted(tokens[1..], dir, del)
  }

  function Misses(tokens: seq<string>, dir: Directory): seq<Reply> {
    if tokens == [] then []
    else (if NameIn(tokens[0]) in dir then [] else [NoSuchNick(NameIn(tokens[0]))]) + Misses(tokens[1..], dir)
  }

  /** Names with a dash are to be deleted, the others to be added, each in the order in which they are given. */
  lemma {:induction false} WantedIs(tokens: seq<string>, dir: Directory, del: bool, name: string)
    ensures name in Wanted(tokens, dir, true) <==> name in dir && "-" + name in tokens
    ensures name in Wanted(tokens, dir, false) <==> name in dir && name in tokens && (name == "" || name[0] != '-')
  {
    if tokens != [] {
      WantedIs(tokens[1..], dir, del, name);
      var token := tokens[0];
      assert tokens == [token] + tokens[1..];
      if token != "" && token[0] == '-' {
        assert token == "-" + token[1..];
      } else {
        assert token != "-" + name;
      }
      assert "-" + name == token ==> token[1..] == name;
    }
  }

  lemma {:induction false} WantedConcat(a: seq<string>, b: seq<string>, dir: Directory, del: bool)
    ensures Wanted(a + b, dir, del) == Wanted(a, dir, del) + Wanted(b, dir, del)
  {
    if a == [] {
      assert a + b == b;
    } else {
      assert (a + b)[0] == a[0] && (a + b)[1..] == a[1..] + b;
      WantedConcat(a[1..], b, dir, del);
      var hit := NameIn(a[0]) in dir && (a[0] != "" && a[0][0] == '-') == del;
      Regroup(if hit then [NameIn(a[0])] else [], Wanted(a[1..], dir, del), Wanted(b, dir, del));
    }
  }

  lemma {:induction false} MissesConcat(a: seq<string>, b: seq<string>, dir: Directory)
    ensures Misses(a + b, dir) == Misses(a, dir) + Misses(b, dir)
  {
    if a == [] {
      assert a + b == b;
    } else {
      assert (a + b)[0] == a[0] && (a + b)[1..] == a[1..] + b;
      MissesConcat(a[1..], b, dir);
      Regroup(if NameIn(a[0]) in dir then [] else [NoSuchNick(NameIn(a[0]))], Misses(a[1..], dir), Misses(b, dir));
    }
  }

  /** Of an unknown name it is said that it is, without its dash. */
  lemma {:induction false} MissesAre(tokens: seq<string>, dir: Directory, r: Reply)
    ensures r in Misses(tokens, dir) <==>
              r.NoSuchNick? && r.name !in dir && ("-" + r.name in tokens || (r.name in tokens && (r.name == "" || r.name[0] != '-')))
  {
    if tokens != [] {
      MissesAre(tokens[1..], dir, r);
      var token := tokens[0];
      assert tokens == [token] + tokens[1..];
      if token != "" && token[0] == '-' {
        assert token == "-" + token[1..];
      }
      if r.NoSuchNick? {
        assert "-" + r.name == token ==> token[1..] == r.name;
        assert ("-" + r.name)[0] == '-';
      }
    }
  }

  lemma {:induction false} WantedAreNames(tokens: seq<string>, dir: Directory, del: bool, n: nat)
    requires GoodDirectory(dir, n)
    ensures forall i :: 0 <= i < |Wanted(tokens, dir, del)| ==> IsName(Wanted(tokens, dir, del)[i])
  {
    if tokens != [] {
      WantedAreNames(tokens[1..], dir, del, n);
    }
  }

  lemma ConnectKeepsGood(l: Lists, max: nat)
    requires Good(l, max)
    ensures Good(Lists(l.allow + [[]], l.on + [[]]), max)
  {
    var r := Lists(l.allow + [[]], l.on + [[]]);
    forall s: Client, t: Client | s < |r.allow|
      ensures Listed(r.allow[s], t) <==> s < |l.allow| && Listed(l.allow[s], t)
      ensures Listed(r.on[s], t) <==> s < |l.on| && Listed(l.on[s], t)
    {
    }
  }

  lemma ConnectKeepsFit(names: seq<string>, me: string, name: string)
    requires forall s: Client :: s < |names| ==> Fit(names, me, s) && |name| + (|me| + |names[s]| + 12) <= IRCD_BUFSIZE
    requires |name| + (|me| + |name| + 12) <= IRCD_BUFSIZE
    ensures forall s: Client :: s <= |names| ==> Fit(names + [name], me, s)
  {
  }

  method SkipCommasFrom(s: string, from: nat) returns (at: nat)
    requires from <= |s|
    ensures from <= at <= |s| && s[at..] == SkipCommas(s[from..])
  {
    at := from;
    while at < |s| && s[at] == ','
      invariant from <= at <= |s| && SkipCommas(s[at..]) == SkipCommas(s[from..])
    {
      assert s[at..][1..] == s[at + 1..];
      at := at + 1;
    }
  }

  /** strtoken() for commas, from `pos` on. */
  method StrToken(s: string, pos: nat) returns (token: Option<string>, next: nat)
    requires pos <= |s|
    ensures token.None? ==> Tokens(s[pos..]) == []
    ensures token.Some? ==> pos < next <= |s| && Tokens(s[pos..]) == [token.value] + Tokens(s[next..])
  {
    var at := SkipCommasFrom(s, pos);
    if at == |s| {
      return None, at;
    }
    var end := StrChr(s, at, ',');
    DropTake(s, at, end - at);
    token := Some(s[at..end]);
    if end == |s| {
      next := end;
    } else {
      DropDrop(s, at, end - at + 1);
      next := end + 1;
    }
  }

  /** All tokens of a buffer. */
  method Split(s: string) returns (tokens: seq<string>)
    ensures tokens == Tokens(s)
  {
    tokens := [];
    var token, pos := StrToken(s, 0);
    assert s[0..] == s;
    while token.Some?
      invariant pos <= |s| || token.None?
      invariant tokens + (if token.Some? then [token.value] + Tokens(s[pos..]) else []) == Tokens(s)
      decreases token.Some?, |s| - pos
    {
      Regroup(tokens, [token.value], Tokens(s[pos..]));
      tokens := tokens + [token.value];
      token, pos := StrToken(s, pos);
    }
  }

  /** build_nicklist() */
  method BuildNicklist(nicks: string, dir: Directory) returns (addbuf: string, delbuf: string, misses: seq<Reply>)
    requires forall name :: name in dir ==> IsName(name)
    ensures addbuf == Joined(Wanted(Tokens(nicks), dir, false)) && delbuf == Joined(Wanted(Tokens(nicks), dir, true))
    ensures misses == Misses(Tokens(nicks), dir)
  {
    addbuf, delbuf, misses := "", "", [];
    ghost var adds, dels: seq<string> := [], [];
    ghost var all := Tokens(nicks);
    var tokens := Split(nicks);
    StartOfTokens(all, dir);
    for i := 0 to |tokens|
      invariant addbuf == Joined(adds) && delbuf == Joined(dels)
      invariant forall j :: 0 <= j < |adds| ==> IsName(adds[j])
      invariant forall j :: 0 <= j < |dels| ==> IsName(dels[j])
      invariant adds + Wanted(all[i..], dir, false) == Wanted(all, dir, false)
      invariant dels + Wanted(all[i..], dir, true) == Wanted(all, dir, true)
      invariant misses + Misses(all[i..], dir) == Misses(all, dir)
    {
      NextToken(adds, all, i, dir, false);
      NextToken(dels, all, i, dir, true);
      NextMiss(misses, all, i, dir);
      var del := tokens[i] != "" && tokens[i][0] == '-';
      var name := if del then tokens[i][1..] else tokens[i];
      if name !in dir {
        misses := misses + [NoSuchNick(name)];
      } else if del {
        JoinedSnoc(dels, name);
        delbuf := Append(delbuf, name);
        dels := dels + [name];
      } else {
        JoinedSnoc(adds, name);
        addbuf := Append(addbuf, name);
        adds := adds + [name];
      }
    }
    assert adds + [] == adds && dels + [] == dels && misses + [] == misses;
  }

  lemma StartOfTokens(all: seq<string>, dir: Directory)
    ensures all[0..] == all && [] + Wanted(all, dir, false) == Wanted(all, dir, false)
    ensures [] + Wanted(all, dir, true) == Wanted(all, dir, true) && [] + Misses(all, dir) == Misses(all, dir)
  {
  }

  lemma NextToken(names: seq<string>, all: seq<string>, i: nat, dir: Directory, del: bool)
    requires i < |all|
    ensures
      var name := NameIn(all[i]);
      names + Wanted(all[i..], dir, del) ==
        (if name in dir && (all[i] != "" && all[i][0] == '-') == del then names + [name] else names)
        + Wanted(all[i + 1..], dir, del)
  {
    assert all[i..][1..] == all[i + 1..];
    Regroup(names, [NameIn(all[i])], Wanted(all[i + 1..], dir, del));
  }

  lemma NextMiss(misses: seq<Reply>, all: seq<string>, i: nat, dir: Directory)
    requires i < |all|
    ensures
      var name := NameIn(all[i]);
      misses + Misses(all[i..], dir) ==
        (if name in dir then misses else misses + [NoSuchNick(name)]) + Misses(all[i + 1..], dir)
  {
    assert all[i..][1..] == all[i + 1..];
    Regroup(misses, [NoSuchNick(NameIn(all[i]))], Misses(all[i + 1..], dir));
  }

  datatype Command =
    | Connecting(name: string)
    | Quitting(who: Client)
    | Accepting(who: Client, arg: Option<string>, dir: Directory)

  class Accepts {
    var allow: seq<seq<Client>>
    var on: seq<seq<Client>>
    var names: seq<string>
    const me: string
    const max: nat

    constructor (me: string, max: nat)
      ensures State() == Lists([], []) && Valid() && this.max == max
    {
      this.me, this.max := me, max;
      allow, on, names := [], [], [];
    }

    function State(): Lists
      reads this
    {
      Lists(allow, on)
    }

    /** No name is so long that it does not fit into a reply. */
    ghost predicate Valid()
      reads this
    {
      && Good(State(), max) && |names| == |allow|
      && forall s: Client :: s < |names| ==> Fit(names, me, s)
    }

    /** The two calls of dlinkAdd() in add_accept(). */
    method AddAccept(s: Client, t: Client)
      requires Known(State(), s) && Known(State(), t)
      modifies `allow, `on
      ensures State() == Add(old(State()), s, t)
    {
      allow := allow[s := [t] + allow[s]];
      on := on[t := [s] + on[t]];
    }

    /** del_from_accept(t, s) */
    method DelFromAccept(s: Client, t: Client)
      requires Known(State(), s) && Known(State(), t)
      modifies `allow, `on
      ensures State() == Del(old(State()), s, t)
    {
      if t in allow[s] {
        allow := allow[s := Remove(allow[s], t)];
        on := on[t := Remove(on[t], s)];
      }
    }

    /** list_accepts() */
    method ListAccepts(s: Client) returns (lines: seq<string>)
      requires Valid() && Known(State(), s)
      ensures lines == ListOf(names, me, s, allow[s])
    {
      ListedAreKnown(State(), s);
      assert Fit(names, me, s);
      lines := PrintList(names, allow[s], |me| + |names[s]| + 12);
    }

    /** del_all_accepts() */
    method DelAllAccepts(c: Client)
      requires Good(State(), max) && Known(State(), c)
      modifies `allow, `on
      ensures State() == Quit(old(State()), c, max)
    {
      ListedAreKnown(State(), c);
      DelAllKeepsGood(State(), c, allow[c], max);
      DelEach(c, allow[c]);
      ListedAreKnown(State(), c);
      DelFromEach(c, on[c]);
    }

    /** The loop of m_accept() over the names to delete. */
    method DeletePhase(s: Client, names: seq<string>, dir: Directory) returns (replies: seq<Reply>)
      requires Known(State(), s) && Covers(dir, names) && AllKnown(State(), Ids(names, dir))
      modifies `allow, `on
      ensures State() == DelAll(old(State()), s, Ids(names, dir))
      ensures replies == DelReplies(old(State()), s, Ids(names, dir))
    {
      ghost var was, ts := State(), Ids(names, dir);
      replies := [];
      assert [] + DelReplies(was, s, ts) == DelReplies(was, s, ts) && ts[0..] == ts;
      for i := 0 to |names|
        invariant Known(State(), s) && AllKnown(State(), ts)
        invariant DelAll(State(), s, ts[i..]) == DelAll(was, s, ts)
        invariant replies + DelReplies(State(), s, ts[i..]) == DelReplies(was, s, ts)
      {
        var t := dir[names[i]];
        NextDeletion(State(), s, ts, i);
        RepliesSoFar(replies, State(), s, ts, i);
        if t !in allow[s] {
          replies := replies + [AcceptNot(t)];
        } else {
          DelFromAccept(s, t);
        }
      }
    }

    /** add_accept() */
    method AddAndList(s: Client, t: Client) returns (listing: seq<Reply>)
      requires Valid() && Known(State(), s) && Known(State(), t) && t !in allow[s] && |allow[s]| < max
      modifies `allow, `on
      ensures Valid() && State() == Add(old(State()), s, t) && |allow[s]| == old(|allow[s]|) + 1
      ensures listing == ListReplies(ListOf(names, me, s, allow[s]))
      ensures IsListing(listing, NamesOf(names, [t] + old(allow[s])))
    {
      ListingSays(names, me, s, [t] + allow[s]);
      AddKeepsGood(State(), s, t, max);
      AddAccept(s, t);
      var lines := ListAccepts(s);
      listing := ListReplies(lines);
    }

    method AddTurn(s: Client, t: Client) returns (listing: seq<Reply>)
      requires Valid() && Known(State(), s) && Known(State(), t) && t !in allow[s] && |allow[s]| < max
      modifies `allow, `on
      ensures Valid() && State() == Add(old(State()), s, t) && |allow[s]| == old(|allow[s]|) + 1
      ensures listing == ListReplies(ListOf(names, me, s, allow[s]))
    {
      listing := AddAndList(s, t);
    }

    /** The loop over the names to add. */
    method AddPhase(s: Client, adds: seq<string>, dir: Directory) returns (replies: seq<Reply>)
      requires Valid() && Known(State(), s) && Covers(dir, adds) && AllKnown(State(), Ids(adds, dir))
      modifies `allow, `on
      ensures State() == AddAll(old(State()), s, Ids(adds, dir), old(|allow[s]|), max)
      ensures replies == AddReplies(old(State()), s, Ids(adds, dir), old(|allow[s]|), max, names, me)
    {
      ghost var was, ts, start := State(), Ids(adds, dir), |allow[s]|;
      var num := |allow[s]|;
      replies := [];
      assert [] + AddReplies(was, s, ts, num, max, names, me) == AddReplies(was, s, ts, num, max, names, me) && ts[0..] == ts;
      for i := 0 to |adds|
        invariant Valid() && Known(State(), s) && AllKnown(State(), ts)
        invariant num == start + i && |allow[s]| <= num
        invariant AddAll(State(), s, ts[i..], num, max) == AddAll(was, s, ts, start, max)
        invariant replies + AddReplies(State(), s, ts[i..], num, max, names, me) == AddReplies(was, s, ts, start, max, names, me)
      {
        var t := dir[adds[i]];
        NextAddition(replies, State(), s, ts, i, num, max, names, me);
        if t in allow[s] {
          replies := replies + [AcceptExist(t)];
        } else if num >= max {
          replies := replies + [AcceptFull];
          return;
        } else {
          var listing := AddTurn(s, t);
          replies := replies + listing;
        }
        num := num + 1;
      }
    }

    /** m_accept(): `arg` is parv[1], if there is one. */
    method MAccept(s: Client, arg: Option<string>, dir: Directory) returns (replies: seq<Reply>)
      requires Valid() && Known(State(), s) && GoodDirectory(dir, |allow|)
      modifies `allow, `on
      ensures Valid() && |allow| == old(|allow|)
      ensures
        if arg.None? || (arg.value != "" && arg.value[0] == '*') then
          State() == old(State()) && IsListing(replies, NamesOf(names, allow[s]))
          && replies == ListReplies(ListOf(names, me, s, allow[s]))
        else
          var dels, adds := Wanted(Tokens(arg.value), dir, true), Wanted(Tokens(arg.value), dir, false);
          var mid := DelAll(old(State()), s, Ids(dels, dir));
          && State() == AddAll(mid, s, Ids(adds, dir), |mid.allow[s]|, max)
          && replies == Misses(Tokens(arg.value), dir) + DelReplies(old(State()), s, Ids(dels, dir))
                        + AddReplies(mid, s, Ids(adds, dir), |mid.allow[s]|, max, names, me)
    {
      if arg.None? || (arg.value != "" && arg.value[0] == '*') {
        var lines := ListAccepts(s);
        ListingSays(names, me, s, allow[s]);
        return ListReplies(lines);
      }
      var addbuf, delbuf, misses := BuildNicklist(arg.value, dir);
      WantedAreNames(Tokens(arg.value), dir, true, |allow|);
      WantedAreNames(Tokens(arg.value), dir, false, |allow|);
      BuffersKeepNames(Wanted(Tokens(arg.value), dir, true));
      BuffersKeepNames(Wanted(Tokens(arg.value), dir, false));
      var dels := Split(delbuf);
      var adds := Split(addbuf);
      ghost var was := State();
      DelAllKeepsGood(was, s, Ids(dels, dir), max);
      var deleted := DeletePhase(s, dels, dir);
      ghost var mid := State();
      AddAllKeepsGood(mid, s, Ids(adds, dir), |mid.allow[s]|, max);
      var added := AddPhase(s, adds, dir);
      replies := misses + deleted + added;
    }

    /** A new client. */
    method Connect(name: string)
      requires Valid() && forall s :: 0 <= s < |names| ==> |name| + (|me| + |names[s]| + 12) <= IRCD_BUFSIZE
      requires |name| + (|me| + |name| + 12) <= IRCD_BUFSIZE
      modifies this
      ensures Valid() && State() == Lists(old(allow) + [[]], old(on) + [[]]) && names == old(names) + [name]
    {
      ConnectKeepsGood(State(), max);
      ConnectKeepsFit(names, me, name);
      allow, on, names := allow + [[]], on + [[]], names + [name];
    }

    /** Any run of clients connecting, quitting and sending ACCEPT keeps the lists mirrored, free of repeats
        and within the limit. */
    method Run(commands: seq<Command>)
      requires Valid()
      modifies this
      ensures Valid()
    {
      for i := 0 to |commands|
        invariant Valid()
      {
        match commands[i]
        case Connecting(name) =>
          if (forall s :: 0 <= s < |names| ==> |name| + (|me| + |names[s]| + 12) <= IRCD_BUFSIZE)
             && |name| + (|me| + |name| + 12) <= IRCD_BUFSIZE {
            Connect(name);
          }
        case Quitting(c) =>
          if c < |allow| {
            QuitForgets(State(), c, max);
            DelAllAccepts(c);
          }
        case Accepting(s, arg, dir) =>
          if s < |allow| && forall name :: name in dir ==> IsName(name) && dir[name] < |allow| {
            var replies := MAccept(s, arg, dir);
          }
      }
    }

    method DelEach(s: Client, ts: seq<Client>)
      requires Known(State(), s) && AllKnown(State(), ts)
      modifies `allow, `on
      ensures State() == DelAll(old(State()), s, ts)
    {
      ghost var was := State();
      for i := 0 to |ts|
        invariant Known(State(), s) && AllKnown(State(), ts)
        invariant DelAll(State(), s, ts[i..]) == DelAll(was, s, ts)
      {
        assert ts[i..][0] == ts[i] && ts[i..][1..] == ts[i + 1..];
        DelFromAccept(s, ts[i]);
      }
    }

    method DelFromEach(c: Client, ss: seq<Client>)
      requires Known(State(), c) && AllKnown(State(), ss)
      modifies `allow, `on
      ensures State() == ForgetBy(old(State()), c, ss)
    {
      ghost var was := State();
      for i := 0 to |ss|
        invariant Known(State(), c) && AllKnown(State(), ss)
        invariant ForgetBy(State(), c, ss[i..]) == ForgetBy(was, c, ss)
      {
        assert ss[i..][0] == ss[i] && ss[i..][1..] == ss[i + 1..];
        DelFromAccept(ss[i], c);
      }
    }
  }

  method PrintList(names: seq<string>, cs: seq<Client>, len: nat) returns (lines: seq<string>)
    requires forall i :: 0 <= i < |cs| ==> cs[i] < |names| && |names[cs[i]]| + len <= IRCD_BUFSIZE
    ensures lines == ListFrom("", NamesOf(names, cs), len)
  {
    var nicks := "";
    lines := [];
    ghost var all := NamesOf(names, cs);
    StartOfList(all, len);
    for i := 0 to |cs|
      invariant nicks == "" ==> i == 0
      invariant lines + ListFrom(nicks, all[i..], len) == ListFrom("", all, len)
    {
      NextOfList(lines, nicks, all, i, len);
      var name := names[cs[i]];
      if |nicks| + |name| + len > IRCD_BUFSIZE {
        lines := lines + [nicks[..|nicks| - 1]];
        nicks := "";
      }
      nicks := nicks + name + " ";
    }
    if nicks != "" {
      lines := lines + [nicks[..|nicks| - 1]];
    }
  }

  lemma StartOfList(all: seq<string>, len: nat)
    requires forall i :: 0 <= i < |all| ==> |all[i]| + len <= IRCD_BUFSIZE
    ensures all[0..] == all && [] + ListFrom("", all, len) == ListFrom("", all, len)
  {
  }

  lemma NextOfList(lines: seq<string>, nicks: string, all: seq<string>, i: nat, len: nat)
    requires i < |all| && forall i :: 0 <= i < |all| ==> |all[i]| + len <= IRCD_BUFSIZE
    ensures lines + ListFrom(nicks, all[i..], len) ==
              if |nicks| + |all[i]| + len > IRCD_BUFSIZE
              then lines + [nicks[..|nicks| - 1]] + ListFrom("" + all[i] + " ", all[i + 1..], len)
              else lines + ListFrom(nicks + all[i] + " ", all[i + 1..], len)
  {
    assert all[i..][0] == all[i] && all[i..][1..] == all[i + 1..];
    assert "" + all[i] + " " == all[i] + " ";
  }
}
