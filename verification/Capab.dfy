/** Client capability negotiation: the CAP command (modules/m_cap.c).  A word of capabilities
    is the set of its bits; every table entry has a bit of its own. */
module Capab {
  import opened Options
  import opened Text

  datatype CapFlag = Hidden | Prohibit | Proto | Sticky

  datatype Capability = Capability(bit: nat, flags: set<CapFlag>, name: string)

  type Table = seq<Capability>

  // ----- comparing names

  ghost predicate SameFold(s: string, t: string) {
    |s| == |t| && forall i :: 0 <= i < |s| ==> ToLower(s[i]) == ToLower(t[i])
  }

  /** The order of folded names, a proper prefix first. */
  predicate Less(s: string, t: string) {
    if t == "" then false
    else if s == "" then true
    else if ToLower(s[0]) != ToLower(t[0]) then ToLower(s[0]) < ToLower(t[0])
    else Less(s[1..], t[1..])
  }

  lemma {:induction false} LessTransitive(s: string, t: string, u: string)
    requires Less(s, t) && Less(t, u)
    ensures Less(s, u)
    decreases |s|
  {
    if s != "" && ToLower(s[0]) == ToLower(t[0]) == ToLower(u[0]) {
      LessTransitive(s[1..], t[1..], u[1..]);
    }
  }

  lemma {:induction false} LessIrreflexive(s: string, t: string)
    requires SameFold(s, t)
    ensures !Less(s, t)
    decreases |s|
  {
    if s != "" {
      LessIrreflexive(s[1..], t[1..]);
    }
  }

  lemma {:induction false} LessSame(s: string, t: string, u: string)
    requires SameFold(s, t)
    ensures Less(s, u) <==> Less(t, u)
    ensures Less(u, s) <==> Less(u, t)
    decreases |s|
  {
    if s != "" && u != "" {
      LessSame(s[1..], t[1..], u[1..]);
    }
  }

  /** The character at k, NUL past the end. */
  function At(s: string, k: nat): char {
    if k < |s| then s[k] else '\0'
  }

  /** The characters before the first space. */
  function Token(s: string): (w: string)
    ensures w <= s && (|w| < |s| ==> IsSpace(s[|w|])) && forall i :: 0 <= i < |w| ==> !IsSpace(w[i])
  {
    if s == "" || IsSpace(s[0]) then "" else [s[0]] + Token(s[1..])
  }

  /** No spaces, and no sign at the start. */
  ghost predicate GoodName(name: string) {
    name != "" && (forall i :: 0 <= i < |name| ==> name[i] > ' ') && name[0] != '-'
  }

  /** Sorted by name, with names the search can tell apart, and one bit each. */
  ghost predicate GoodTable(table: Table) {
    && (forall i :: 0 <= i < |table| ==> GoodName(table[i].name))
    && (forall i, j :: 0 <= i < j < |table| ==> Less(table[i].name, table[j].name))
    && (forall i, j :: 0 <= i < j < |table| ==> table[i].bit != table[j].bit)
  }

  lemma {:induction false} LessAfterPrefix(s: string, t: string, k: nat)
    requires k <= |s| && k <= |t| && SameFold(s[..k], t[..k])
    ensures Less(s, t) <==> Less(s[k..], t[k..])
    decreases k
  {
    if k > 0 {
      assert SameFold(s[1..][..k - 1], t[1..][..k - 1]) by {
        forall i | 0 <= i < k - 1
          ensures ToLower(s[1..][i]) == ToLower(t[1..][i])
        {
          assert ToLower(s[..k][i + 1]) == ToLower(t[..k][i + 1]);
        }
      }
      assert ToLower(s[..k][0]) == ToLower(t[..k][0]);
      LessAfterPrefix(s[1..], t[1..], k - 1);
      assert s[1..][k - 1..] == s[k..] && t[1..][k - 1..] == t[k..];
    } else {
      assert s[0..] == s && t[0..] == t;
    }
  }

  /** capab_search(): compares the token at the start of `key` with a name. */
  method CapabSearch(key: string, name: string) returns (r: int)
    requires GoodName(name) && '\0' !in key
    ensures r == 0 <==> SameFold(Token(key), name)
    ensures r < 0 <==> Less(Token(key), name)
  {
    ghost var token := Token(key);
    var k := 0;
    while ToLower(At(key, k)) == ToLower(At(name, k))
      invariant k <= |token| && k <= |name| && SameFold(token[..k], name[..k])
      decreases |key| - k
    {
      if At(key, k) == '\0' {
        assert token == token[..k] && name == name[..k];
        LessIrreflexive(token, name);
        return 0;
      }
      assert k < |name| && k < |token| && token[k] == key[k];
      k := k + 1;
    }
    Verdict(key, token, name, k);
    if IsSpace(At(key, k)) && At(name, k) == '\0' {
      return 0;
    }
    r := ToLower(At(key, k)) as int - ToLower(At(name, k)) as int;
  }

  /** How a token compares with a name that it agrees with up to k. */
  lemma Verdict(key: string, token: string, name: string, k: nat)
    requires GoodName(name) && '\0' !in key && k <= |token| && k <= |name|
    requires token <= key && (|token| < |key| ==> IsSpace(key[|token|])) && forall i :: 0 <= i < |token| ==> !IsSpace(token[i])
    requires SameFold(token[..k], name[..k]) && ToLower(At(key, k)) != ToLower(At(name, k))
    ensures IsSpace(At(key, k)) && At(name, k) == '\0' ==> SameFold(token, name) && !Less(token, name)
    ensures !(IsSpace(At(key, k)) && At(name, k) == '\0') ==>
              !SameFold(token, name) && (Less(token, name) <==> ToLower(At(key, k)) < ToLower(At(name, k)))
  {
    LessAfterPrefix(token, name, k);
    if IsSpace(At(key, k)) && At(name, k) == '\0' {
      assert token == token[..k] && name == name[..k];
      LessIrreflexive(token, name);
    }
  }

  // ----- finding the capabilities of a list

  /** The entry a token names. */
  ghost function Lookup(table: Table, token: string): (r: Option<nat>)
    ensures r.Some? ==> r.value < |table| && SameFold(token, table[r.value].name)
    ensures r.None? ==> forall k :: 0 <= k < |table| ==> !SameFold(token, table[k].name)
  {
    if k: nat :| k < |table| && SameFold(token, table[k].name) then Some(k) else None
  }

  lemma LookupIs(table: Table, token: string, k: nat)
    requires GoodTable(table) && k < |table| && SameFold(token, table[k].name)
    ensures Lookup(table, token) == Some(k)
  {
    var j := Lookup(table, token).value;
    if j < k {
      LessSame(token, table[j].name, table[k].name);
      LessIrreflexive(token, table[k].name);
    } else if k < j {
      LessSame(token, table[k].name, table[j].name);
      LessIrreflexive(token, table[j].name);
    }
  }

  /** bsearch() over the table with capab_search(). */
  method BSearch(table: Table, key: string) returns (r: Option<nat>)
    requires GoodTable(table) && '\0' !in key
    ensures r == Lookup(table, Token(key))
  {
    var token := Token(key);
    var lo, hi := 0, |table|;
    while lo < hi
      invariant lo <= hi <= |table|
      invariant forall k :: 0 <= k < lo ==> Less(table[k].name, token)
      invariant forall k :: hi <= k < |table| ==> Less(token, table[k].name)
    {
      var mid := (lo + hi) / 2;
      var c := CapabSearch(key, table[mid].name);
      if c == 0 {
        LookupIs(table, token, mid);
        return Some(mid);
      } else if c < 0 {
        forall k | mid <= k < |table|
          ensures Less(token, table[k].name)
        {
          if mid < k {
            LessTransitive(token, table[mid].name, table[k].name);
          }
        }
        hi := mid;
      } else {
        LessTotal(token, table[mid].name);
        forall k | 0 <= k <= mid
          ensures Less(table[k].name, token)
        {
          if k < mid {
            LessTransitive(table[k].name, table[mid].name, token);
          }
        }
        lo := mid + 1;
      }
    }
    forall k | 0 <= k < |table|
      ensures !SameFold(token, table[k].name)
    {
      if SameFold(token, table[k].name) {
        LessIrreflexive(token, table[k].name);
        LessSame(token, table[k].name, token);
        LessIrreflexive(token, token);
      }
    }
    r := None;
  }

  lemma {:induction false} LessTotal(s: string, t: string)
    ensures Less(s, t) || Less(t, s) || SameFold(s, t)
    decreases |s|
  {
    if s != "" && t != "" {
      LessTotal(s[1..], t[1..]);
      if SameFold(s[1..], t[1..]) && ToLower(s[0]) == ToLower(t[0]) {
        assert SameFold(s, t) by {
          forall i | 0 <= i < |s|
            ensures ToLower(s[i]) == ToLower(t[i])
          {
            assert i > 0 ==> ToLower(s[1..][i - 1]) == ToLower(t[1..][i - 1]);
          }
        }
      }
    }
  }

  function SkipSpaces(s: string): (r: string)
    ensures |r| <= |s| && (r != "" ==> !IsSpace(r[0]))
  {
    if s != "" && IsSpace(s[0]) then SkipSpaces(s[1..]) else s
  }

  /** The next element of a list: the entry it names, whether it is negative, and what is left of
      the list; nothing is left where find_cap() zeroes the caller's pointer. */
  datatype Found = Found(cap: Option<nat>, neg: bool, rest: Option<string>)

  ghost function FindNext(table: Table, list: string): (r: Found)
    ensures r.rest.Some? ==> 0 < |r.rest.value| < |list|
    ensures r.cap.Some? ==> r.cap.value < |table|
  {
    var s := SkipSpaces(list);
    var neg := s != "" && s[0] == '-';
    FindIn(table, neg, if neg then s[1..] else s)
  }

  /** What find_cap() answers once the spaces and the minus sign are passed. */
  ghost function FindIn(table: Table, neg: bool, key: string): (r: Found)
    ensures r.rest.Some? ==> 0 < |r.rest.value| <= |key| && (key != "" && !IsSpace(key[0]) ==> |r.rest.value| < |key|)
    ensures r.cap.Some? ==> r.cap.value < |table|
  {
    if key == "" then Found(None, neg, None)
    else
      var rest := key[|Token(key)|..];
      Found(Lookup(table, Token(key)), neg, if rest == "" then None else Some(rest))
  }

  /** find_cap()'s first loop. */
  method SkipToElement(list: string, pos: nat) returns (at: nat)
    requires pos <= |list|
    ensures pos <= at <= |list| && list[at..] == SkipSpaces(list[pos..])
  {
    at := pos;
    while at < |list| && IsSpace(list[at])
      invariant pos <= at <= |list| && SkipSpaces(list[pos..]) == SkipSpaces(list[at..])
    {
      assert list[at..][1..] == list[at + 1..];
      at := at + 1;
    }
  }

  /** find_cap()'s lookup of the element at `pos`, and the step past it. */
  method TakeElement(table: Table, list: string, pos: nat) returns (cap: Option<nat>, at: nat)
    requires GoodTable(table) && '\0' !in list && pos < |list|
    ensures cap == Lookup(table, Token(list[pos..])) && at == pos + |Token(list[pos..])|
  {
    ghost var key := list[pos..];
    at := pos;
    cap := BSearch(table, list[pos..]);
    if cap == None {
      while at < |list| && !IsSpace(list[at])
        invariant pos <= at <= |list| && at - pos <= |Token(key)|
      {
        assert list[at] == key[at - pos];
        at := at + 1;
      }
      assert at < |list| ==> list[at] == key[at - pos];
    } else {
      at := at + |table[cap.value].name|;
    }
  }

  /** find_cap(), with the cursor as an index into the list.  The cursor always advances. */
  method FindCap(table: Table, list: string, pos: nat) returns (cap: Option<nat>, neg: bool, next: Option<nat>)
    requires GoodTable(table) && '\0' !in list && pos <= |list|
    ensures next.Some? ==> pos < next.value < |list|
    ensures Found(cap, neg, if next.None? then None else Some(list[next.value..])) == FindNext(table, list[pos..])
  {
    neg, cap := false, None;
    var at := SkipToElement(list, pos);
    ghost var first := list[at..];
    if at < |list| && list[at] == '-' {
      DropDrop(list, at, 1);
      at := at + 1;
      neg := true;
    }
    ghost var key := list[at..];
    assert key == if neg then first[1..] else first;
    if at < |list| {
      DropDrop(list, at, |Token(key)|);
      cap, at := TakeElement(table, list, at);
    }
    next := if at < |list| then Some(at) else None;
  }
}
