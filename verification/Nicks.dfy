/** SVSNICK and the table of client names (modules/m_services.c, the client table of src/hash.c). */
module Nicks {
  import opened Options
  import opened Seqs
  import opened Text

  type Client = nat

  const NICKLEN: nat := 30
  const TRIES: nat := 10

  // ----- names

  /** NICK_C in CharAttrs. */
  predicate IsNickChar(c: char) {
    c == '-' || IsDigit(c) || 'A' <= c <= '}'
  }

  /** clean_nick_name(nick, 1) */
  predicate CleanNick(nick: string) {
    && nick != "" && nick[0] != '-' && !IsDigit(nick[0])
    && forall i :: 0 <= i < |nick| ==> IsNickChar(nick[i])
  }

  /** The letters, and the characters that RFC 1459 counts among the special ones, with the underscore. */
  predicate IsLetterOfNick(c: char) {
    'a' <= c <= 'z' || 'A' <= c <= 'Z' || c in {'[', ']', '\\', '`', '^', '_', '{', '|', '}'}
  }

  method CleanNickName(nick: string) returns (r: bool)
    ensures r <==> CleanNick(nick)
    ensures r <==> nick != "" && nick[0] != '-' && !('0' <= nick[0] <= '9')
                   && forall i :: 0 <= i < |nick| ==> IsLetterOfNick(nick[i]) || '0' <= nick[i] <= '9' || nick[i] == '-'
  {
    if nick == "" || nick[0] == '-' || IsDigit(nick[0]) {
      return false;
    }
    for i := 0 to |nick|
      invariant forall j :: 0 <= j < i ==> IsNickChar(nick[j])
    {
      if !IsNickChar(nick[i]) {
        return false;
      }
    }
    r := true;
  }

  /** A buffer of NICKLEN characters holds one less. */
  function CutNick(s: string): (r: string)
    ensures |r| < NICKLEN
  {
    if |s| < NICKLEN then s else s[..NICKLEN - 1]
  }

  /** %d */
  function Decimal(n: nat): (s: string)
    ensures s != "" && forall i :: 0 <= i < |s| ==> IsDigit(s[i])
  {
    var digit := ['0' + (n % 10) as char];
    if n < 10 then digit else Decimal(n / 10) + digit
  }

  /** What a number in decimal says. */
  function ReadNumber(s: string): nat
    requires forall i :: 0 <= i < |s| ==> IsDigit(s[i])
  {
    if s == "" then 0
    else
      var last := s[|s| - 1];
      assert IsDigit(last);
      10 * ReadNumber(s[..|s| - 1]) + (last - '0') as nat
  }

  /** A number is read back as it was, and has no needless zero in front. */
  lemma {:induction false} DecimalIsRead(n: nat)
    ensures ReadNumber(Decimal(n)) == n && (|Decimal(n)| > 1 ==> Decimal(n)[0] != '0')
    ensures n < 100000 ==> |Decimal(n)| <= 5
  {
    var digits, last := Decimal(n), '0' + (n % 10) as char;
    if n < 10 {
      assert digits[..0] == "" && digits[0] == last;
    } else {
      DecimalIsRead(n / 10);
      assert digits[..|digits| - 1] == Decimal(n / 10) && digits[|digits| - 1] == last;
      if n / 10 < 10 {
        assert Decimal(n / 10)[0] == '0' + (n / 10) as char;
      }
      DecimalIsShort(n);
    }
  }

  lemma {:induction false} DecimalIsShort(n: nat)
    ensures n < 10 ==> |Decimal(n)| == 1
    ensures n < 100 ==> |Decimal(n)| <= 2
    ensures n < 1000 ==> |Decimal(n)| <= 3
    ensures n < 10000 ==> |Decimal(n)| <= 4
    ensures n < 100000 ==> |Decimal(n)| <= 5
  {
    if n >= 10 {
      DecimalIsShort(n / 10);
    }
  }

  /** The nick of one retry. */
  function Candidate(wanted: string, random: nat): string {
    CutNick(wanted + "-" + Decimal(random % 99999))
  }

  /** A candidate is as good a nick as the one that was asked for. */
  lemma CandidateIsClean(wanted: string, random: nat)
    requires CleanNick(CutNick(wanted))
    ensures CleanNick(Candidate(wanted, random)) && |Candidate(wanted, random)| < NICKLEN
    ensures |wanted| >= NICKLEN - 1 ==> Candidate(wanted, random) == CutNick(wanted)
  {
    var digits := Decimal(random % 99999);
    var all := wanted + "-" + digits;
    var nick := Candidate(wanted, random);
    forall i | 0 <= i < |nick|
      ensures IsNickChar(nick[i]) && (i < |wanted| ==> i < |CutNick(wanted)| && nick[i] == CutNick(wanted)[i])
    {
      assert nick[i] == all[i];
      assert i > |wanted| ==> all[i] == digits[i - |wanted| - 1];
    }
    assert nick[0] == CutNick(wanted)[0];
  }

  /** A candidate for a nick that leaves room is the nick, a dash and the number. */
  lemma CandidateSays(wanted: string, random: nat)
    requires |wanted| <= 23
    ensures
      var r := Candidate(wanted, random);
      && |r| > |wanted| + 1 && r[..|wanted| + 1] == wanted + "-"
      && (forall i :: |wanted| < i < |r| ==> IsDigit(r[i])) && ReadNumber(r[|wanted| + 1..]) == random % 99999
  {
    var digits := Decimal(random % 99999);
    DecimalIsRead(random % 99999);
    assert Candidate(wanted, random) == wanted + "-" + digits;
    assert (wanted + "-" + digits)[|wanted| + 1..] == digits;
  }

  /** The first 29 characters of a nick are kept. */
  lemma NickIsCut(s: string)
    ensures CutNick(s) <= s && |CutNick(s)| == if |s| <= 29 then |s| else 29
  {
  }

  // ----- the hash function

  function Mix(h: bv32, c: char, key: bv32): bv32 {
    var sum := h + ((h << 1) + (h << 4) + (h << 7) + (h << 8) + (h << 24));
    sum ^ ((ToLower(c) as int % 256) as bv32 ^ key)
  }

  function HashFrom(h: bv32, name: string, key: bv32): bv32
    decreases |name|
  {
    if name == "" then h else HashFrom(Mix(h, name[0], key), name[1..], key)
  }

  /** strhash(); `key` is the random key of the server. */
  function StrHash(name: string, key: bv32): bv16 {
    if name == "" then 0 else Fold(HashFrom(0x811c9dc5, name, key))
  }

  /** The hash takes one character after the other into account. */
  lemma {:induction false} HashSnoc(h: bv32, name: string, c: char, key: bv32)
    ensures HashFrom(h, name + [c], key) == Mix(HashFrom(h, name, key), c, key)
    decreases |name|
  {
    if name == "" {
      assert [c][1..] == "" && "" + [c] == [c];
    } else {
      assert (name + [c])[0] == name[0] && (name + [c])[1..] == name[1..] + [c];
      HashSnoc(Mix(h, name[0], key), name[1..], c, key);
    }
  }

  /** The two halves of a word taken together */
  function Fold(h: bv32): bv16 {
    ((h >> 16) ^ (h & 0xffff)) as bv16
  }

  lemma MixFirst()
    ensures Mix(0x811c9dc5, 'N', 0x12345678) == 0x17380b09
  {
    var h: bv32 := 0x811c9dc5;
    assert ToLower('N') == 'n' && ToLower('N') as int % 256 == 110 && 110 as bv32 == 0x6e;
    assert h + ((h << 1) + (h << 4) + (h << 7) + (h << 8) + (h << 24)) == 0x50c5d1f;
  }

  lemma MixSecond()
    ensures Mix(0x17380b09, '[', 0x12345678) == 0x840d0928
  {
    var h: bv32 := 0x17380b09;
    assert ToLower('[') == '{' && ToLower('[') as int % 256 == 123 && 123 as bv32 == 0x7b;
    assert h + ((h << 1) + (h << 4) + (h << 7) + (h << 8) + (h << 24)) == 0x96395f2b;
  }

  /** The hash of one name under one key. */
  lemma HashOfOneName()
    ensures StrHash("N[", 0x12345678) == 0x8d25 && StrHash("", 0x12345678) == 0
  {
    MixFirst();
    MixSecond();
    assert "N["[1..] == "[" && "["[1..] == "";
    assert HashFrom(0x811c9dc5, "N[", 0x12345678) == HashFrom(0x17380b09, "[", 0x12345678) == HashFrom(0x840d0928, "", 0x12345678);
    FoldOne();
  }

  lemma FoldOne()
    ensures Fold(0x840d0928) == 0x8d25
  {
  }

  lemma {:induction false} SameNameSameHashFrom(h: bv32, s: string, t: string, key: bv32)
    requires SameName(s, t)
    ensures HashFrom(h, s, key) == HashFrom(h, t, key)
    decreases |s|
  {
    if s != "" {
      CaseTablesAgree(s[0], t[0]);
      SameNameSameHashFrom(Mix(h, s[0], key), s[1..], t[1..], key);
    }
  }

  /** Names that are the same fall into the same bucket. */
  lemma SameNameSameHash(s: string, t: string, key: bv32)
    requires SameName(s, t)
    ensures StrHash(s, key) == StrHash(t, key)
  {
    SameNameSameHashFrom(0x811c9dc5, s, t, key);
  }

  // ----- the table

  const HASHSIZE: nat := 65536

  /** Names that are the same have the same hash. */
  ghost predicate Agrees(hash: string -> nat) {
    && (forall s, t :: SameName(s, t) ==> hash(s) == hash(t))
    && (forall s :: hash(s) < HASHSIZE)
  }

  /** The server's hash function is one of these. */
  lemma StrHashAgrees(key: bv32)
    ensures Agrees(s => StrHash(s, key) as nat)
  {
    forall s, t | SameName(s, t)
      ensures StrHash(s, key) == StrHash(t, key)
    {
      SameNameSameHash(s, t, key);
    }
  }

  /** The names of the clients in the table, and its chains, first client first. */
  datatype Table = Table(names: map<Client, string>, chains: seq<seq<Client>>)

  /** Every client is in the chain of its name, once, and nowhere else. */
  ghost predicate Indexed(t: Table, hash: string -> nat) {
    && |t.chains| == HASHSIZE && Agrees(hash)
    && (forall h: nat :: h < |t.chains| ==> Distinct(t.chains[h]))
    && (forall h: nat, c: Client :: h < |t.chains| ==>
          (Listed(t.chains[h], c) <==> c in t.names && hash(t.names[c]) == h))
  }

  ghost predicate Injective(t: Table) {
    forall c: Client, d: Client :: c in t.names && d in t.names && SameName(t.names[c], t.names[d]) ==> c == d
  }

  /** hash_add_client() */
  function Insert(t: Table, c: Client, name: string, hash: string -> nat): Table
    requires Indexed(t, hash)
  {
    var h := hash(name);
    Table(t.names[c := name], t.chains[h := [c] + t.chains[h]])
  }

  /** hash_del_client() */
  function Delete(t: Table, c: Client, hash: string -> nat): Table
    requires Indexed(t, hash) && c in t.names
  {
    var h := hash(t.names[c]);
    Table(t.names - {c}, t.chains[h := Remove(t.chains[h], c)])
  }

  /** What find_client() does to the chain of the client it finds. */
  function Front(t: Table, c: Client, hash: string -> nat): Table
    requires Indexed(t, hash) && c in t.names
  {
    var h := hash(t.names[c]);
    t.(chains := t.chains[h := [c] + Remove(t.chains[h], c)])
  }

  lemma ConsIsExact(list: seq<Client>, x: Client)
    requires Distinct(list) && !Listed(list, x)
    ensures Distinct([x] + list)
    ensures forall y: Client :: Listed([x] + list, y) <==> Listed(list, y) || y == x
  {
    ConsMembers(x, list);
  }

  lemma InsertKeepsIndexed(t: Table, c: Client, name: string, hash: string -> nat)
    requires Indexed(t, hash) && c !in t.names
    ensures Indexed(Insert(t, c, name, hash), hash)
  {
    ConsIsExact(t.chains[hash(name)], c);
  }

  lemma DeleteKeepsIndexed(t: Table, c: Client, hash: string -> nat)
    requires Indexed(t, hash) && c in t.names
    ensures Indexed(Delete(t, c, hash), hash)
  {
    RemoveIsExact(t.chains[hash(t.names[c])], c);
  }

  lemma FrontKeepsIndexed(t: Table, c: Client, hash: string -> nat)
    requires Indexed(t, hash) && c in t.names
    ensures Indexed(Front(t, c, hash), hash)
  {
    var chain := t.chains[hash(t.names[c])];
    RemoveIsExact(chain, c);
    ConsIsExact(Remove(chain, c), c);
    assert Listed(chain, c);
  }

  // ----- SVSNICK

  /** No client has a name. */
  ghost predicate Free(names: map<Client, string>, nick: string) {
    forall c: Client :: c in names ==> !SameName(nick, names[c])
  }

  datatype Outcome = Ignored | Renamed(nick: string) | Exited(who: Client)

  class ClientTable {
    var names: map<Client, string>
    var chains: seq<seq<Client>>
    const hash: string -> nat

    constructor (hash: string -> nat)
      requires Agrees(hash)
      ensures Valid() && names == map[] && this.hash == hash
    {
      this.hash := hash;
      names, chains := map[], seq(HASHSIZE, i => []);
    }

    function State(): Table
      reads this
    {
      Table(names, chains)
    }

    ghost predicate Valid()
      reads this
    {
      Indexed(State(), hash) && Injective(State())
    }

    /** find_client() */
    method FindClient(name: string) returns (r: Option<Client>)
      requires Valid()
      modifies `chains
      ensures Valid()
      ensures r.None? ==> Free(names, name)
      ensures r.Some? ==> r.value in names && SameName(name, names[r.value])
      ensures State() == if r.None? then old(State()) else Front(old(State()), r.value, hash)
    {
      var chain := chains[hash(name)];
      for i := 0 to |chain|
        invariant chains == old(chains)
        invariant forall j :: 0 <= j < i ==> Listed(chain, chain[j]) && !SameName(name, names[chain[j]])
      {
        assert Listed(chain, chain[i]);
        var differs := IrcCmp(name, names[chain[i]]);
        if differs == 0 {
          r := Some(chain[i]);
          FrontKeepsIndexed(State(), chain[i], hash);
          chains := chains[hash(name) := [chain[i]] + Remove(chain, chain[i])];
          return;
        }
      }
      r := None;
      forall c: Client | c in names
        ensures !SameName(name, names[c])
      {
        assert hash(names[c]) == hash(name) ==> Listed(chain, c);
      }
    }

    /** hash_del_client() of an exiting client */
    method Exit(c: Client)
      requires Valid() && c in names
      modifies this
      ensures Valid() && names == old(names) - {c}
    {
      DeleteKeepsIndexed(State(), c, hash);
      var h := hash(names[c]);
      chains := chains[h := Remove(chains[h], c)];
      names := names - {c};
    }

    /** The last lines of me_svsnick(): the client leaves its chain and enters that of its new name. */
    method Rename(c: Client, nick: string)
      requires Valid() && c in names && Free(names, nick)
      modifies this
      ensures Valid() && names == old(names)[c := nick]
    {
      ghost var was := names;
      Exit(c);
      InsertKeepsIndexed(State(), c, nick, hash);
      StaysInjective(State(), c, nick, hash);
      var h := hash(nick);
      chains := chains[h := [c] + chains[h]];
      names := names[c := nick];
      assert names == was[c := nick];
    }

    /** me_svsnick(): `target` is the person that parv[1] names, `allowed` whether the command comes from
        services for a client of this server whose TS is parv[2], `wanted` is parv[3]; `randoms` are the
        values of my_rand() and `unknown` the clients that are not registered yet. */
    method MeSvsNick(allowed: bool, target: Client, wanted: string, randoms: seq<nat>, unknown: set<Client>)
        returns (r: Outcome)
      requires Valid() && target in names && |randoms| == TRIES
      modifies this
      ensures Valid()
      ensures match r
        case Ignored => names == old(names)
        case Renamed(nick) =>
          && names == old(names)[target := nick]
          && CleanNick(nick) && |nick| < NICKLEN && Free(old(names), nick)
        case Exited(who) =>
          && who in old(names) && names == old(names) - {who}
          && (who == target || (who in unknown && SameName(Candidate(wanted, randoms[TRIES - 1]), old(names)[who])))
      ensures r == Expected(old(names), allowed, target, wanted, randoms) || (r.Exited? && r.who != target)
      ensures r.Exited? ==> Expected(old(names), allowed, target, wanted, randoms) == Exited(target)
    {
      if !allowed || wanted == "" {
        return Ignored;
      }
      var nick := if |wanted| < NICKLEN then wanted else wanted[..NICKLEN - 1];
      var clean := CleanNickName(nick);
      if !clean {
        return Ignored;
      }
      var exists_p := FindClient(nick);
      if exists_p.Some? {
        OnlyHolder(names, nick, exists_p.value, target);
        if exists_p == Some(target) {
          return Ignored;
        }
        nick, exists_p := Retry(wanted, randoms);
        if exists_p.Some? {
          if exists_p.value in unknown {
            Exit(exists_p.value);
            return Exited(exists_p.value);
          } else {
            Exit(target);
            return Exited(target);
          }
        }
      }
      Rename(target, nick);
      r := Renamed(nick);
    }

    /** The do loop: another nick until one is free or it was tried often enough. */
    method Retry(wanted: string, randoms: seq<nat>) returns (nick: string, exists_p: Option<Client>)
      requires Valid() && |randoms| == TRIES && CleanNick(CutNick(wanted))
      modifies `chains
      ensures Valid()
      ensures exists_p.None? ==>
                FirstFree(names, wanted, randoms) < TRIES
                && nick == Candidate(wanted, randoms[FirstFree(names, wanted, randoms)]) && Free(names, nick) && CleanNick(nick)
      ensures exists_p.Some? ==>
                FirstFree(names, wanted, randoms) == TRIES && exists_p.value in names
                && SameName(Candidate(wanted, randoms[TRIES - 1]), names[exists_p.value])
    {
      nick, exists_p := "", None;
      var tries := 0;
      assert randoms[0..] == randoms;
      while tries == 0 || (exists_p.Some? && tries < TRIES)
        invariant Valid() && tries <= TRIES && (exists_p.Some? ==> tries > 0)
        invariant tries > 0 ==> nick == Candidate(wanted, randoms[tries - 1]) && CleanNick(nick)
        invariant Tried(names, wanted, randoms, tries, exists_p)
        decreases TRIES - tries
      {
        CandidateIsClean(wanted, randoms[tries]);
        NextTry(names, wanted, randoms, tries);
        nick := Candidate(wanted, randoms[tries]);
        exists_p := FindClient(nick);
        tries := tries + 1;
      }
    }
  }

  /** What is known after some tries. */
  ghost predicate Tried(names: map<Client, string>, wanted: string, randoms: seq<nat>, tries: nat, holder: Option<Client>)
    requires |randoms| == TRIES && tries <= TRIES
  {
    var first := FirstFree(names, wanted, randoms);
    if tries == 0 || holder.Some? then
      && first == tries + FirstFree(names, wanted, randoms[tries..])
      && (tries > 0 ==> holder.value in names && SameName(Candidate(wanted, randoms[tries - 1]), names[holder.value]))
    else first == tries - 1 && Free(names, Candidate(wanted, randoms[tries - 1]))
  }

  /** The first try that gives a free nick; the number of tries when none does. */
  ghost function FirstFree(names: map<Client, string>, wanted: string, randoms: seq<nat>): nat {
    if randoms == [] || Free(names, Candidate(wanted, randoms[0])) then 0 else 1 + FirstFree(names, wanted, randoms[1..])
  }

  /** It is what it says. */
  lemma {:induction false} FirstFreeIsFirst(names: map<Client, string>, wanted: string, randoms: seq<nat>)
    ensures
      var first := FirstFree(names, wanted, randoms);
      && first <= |randoms|
      && (first < |randoms| ==> Free(names, Candidate(wanted, randoms[first])))
      && forall i :: 0 <= i < first ==> !Free(names, Candidate(wanted, randoms[i]))
    decreases |randoms|
  {
    if randoms != [] {
      FirstFreeIsFirst(names, wanted, randoms[1..]);
    }
  }

  lemma NextTry(names: map<Client, string>, wanted: string, randoms: seq<nat>, k: nat)
    requires k < |randoms|
    ensures FirstFree(names, wanted, randoms[k..]) ==
              if Free(names, Candidate(wanted, randoms[k])) then 0 else 1 + FirstFree(names, wanted, randoms[k + 1..])
  {
    assert randoms[k..][1..] == randoms[k + 1..];
  }

  /** What SVSNICK is to do, but for the choice of whom to let go when every try hits a taken nick. */
  ghost function Expected(names: map<Client, string>, allowed: bool, target: Client, wanted: string, randoms: seq<nat>): Outcome
    requires target in names && |randoms| == TRIES
  {
    var nick := CutNick(wanted);
    var first := FirstFree(names, wanted, randoms);
    if !allowed || !CleanNick(nick) then Ignored
    else if Free(names, nick) then Renamed(nick)
    else if SameName(nick, names[target]) then Ignored
    else if first < TRIES then Renamed(Candidate(wanted, randoms[first]))
    else Exited(target)
  }

  /** A person keeps his nick if the command is refused, or if it is his already; else he gets it if it is free, or the
      first candidate that is, or has to leave. */
  lemma ExpectedIs(names: map<Client, string>, allowed: bool, target: Client, wanted: string, randoms: seq<nat>)
    requires target in names && |randoms| == 10
    ensures
      var r, nick := Expected(names, allowed, target, wanted, randoms), CutNick(wanted);
      var taken := allowed && CleanNick(nick) && !Free(names, nick) && !SameName(nick, names[target]);
      && (r == Ignored <==> !allowed || !CleanNick(nick) || SameName(nick, names[target]))
      && (r == Exited(target) <==> taken && forall k :: 0 <= k < 10 ==> !Free(names, Candidate(wanted, randoms[k])))
      && (r.Renamed? && !taken ==> Free(names, nick) && r == Renamed(nick))
      && (r.Renamed? && taken ==>
            exists k :: 0 <= k < 10 && r == Renamed(Candidate(wanted, randoms[k])) && Free(names, Candidate(wanted, randoms[k]))
              && forall j :: 0 <= j < k ==> !Free(names, Candidate(wanted, randoms[j])))
      && (r.Exited? ==> r.who == target)
  {
    FirstFreeIsFirst(names, wanted, randoms);
  }

  lemma OnlyHolder(names: map<Client, string>, nick: string, holder: Client, target: Client)
    requires Injective(Table(names, [])) && holder in names && target in names && SameName(nick, names[holder])
    ensures SameName(nick, names[target]) <==> holder == target
    ensures !Free(names, nick)
  {
    SameNameIsEquivalence();
  }

  lemma StaysInjective(t: Table, c: Client, nick: string, hash: string -> nat)
    requires Indexed(t, hash) && Injective(t) && c !in t.names && Free(t.names, nick)
    ensures Injective(Insert(t, c, nick, hash))
  {
    SameNameIsEquivalence();
  }

  /** A nick that fills the buffer leaves no room for a suffix: if another client has it, no try helps. */
  lemma LongNickCollides(names: map<Client, string>, target: Client, wanted: string, randoms: seq<nat>)
    requires target in names && |randoms| == TRIES && |wanted| >= NICKLEN - 1
    requires CleanNick(CutNick(wanted)) && !Free(names, CutNick(wanted)) && !SameName(CutNick(wanted), names[target])
    ensures Expected(names, true, target, wanted, randoms) == Exited(target)
  {
    var first := FirstFree(names, wanted, randoms);
    FirstFreeIsFirst(names, wanted, randoms);
    if first < TRIES {
      CandidateIsClean(wanted, randoms[first]);
    }
  }
}
