/** Characters and names: the tables and comparisons of src/match.c. */
module Text {
  import opened Seqs

  /** ToLowerTab: RFC 1459 counts { | } ~ as the lower case of [ \ ] ^. */
  function ToLower(c: char): char {
    if 'A' <= c <= '^' then c + 32 as char else c
  }

  function ToUpper(c: char): char {
    if 'a' <= c <= '~' then c - 32 as char else c
  }

  lemma CaseTablesAgree(c: char, d: char)
    ensures ToUpper(c) == ToUpper(d) <==> ToLower(c) == ToLower(d)
  {
  }

  predicate IsSpace(c: char) {
    c == ' ' || '\t' <= c <= '\r'
  }

  predicate IsDigit(c: char) {
    '0' <= c <= '9'
  }

  /** Equality of names under the case mapping. */
  predicate SameName(s: string, t: string) {
    |s| == |t| && forall i :: 0 <= i < |s| ==> ToUpper(s[i]) == ToUpper(t[i])
  }

  lemma SameNameIsEquivalence()
    ensures forall s :: SameName(s, s)
    ensures forall s, t :: SameName(s, t) ==> SameName(t, s)
    ensures forall s, t, u :: SameName(s, t) && SameName(t, u) ==> SameName(s, u)
  {
  }

  /** irccmp(): 0 for the same name, 1 for different ones.  The end of a string is its NUL. */
  method IrcCmp(s: string, t: string) returns (r: int)
    ensures r == if SameName(s, t) then 0 else 1
  {
    var i := 0;
    while i < |s| && i < |t| && ToUpper(s[i]) == ToUpper(t[i])
      invariant i <= |s| && i <= |t|
      invariant forall j :: 0 <= j < i ==> ToUpper(s[j]) == ToUpper(t[j])
    {
      i := i + 1;
    }
    r := if i == |s| && i == |t| then 0 else 1;
  }

  /** KWILD_C in CharAttrs. */
  predicate IsKWildChar(c: char) {
    c in {'!', '#', '*', '.', ':', '?', '@'}
  }

  /** HOST_C in CharAttrs. */
  predicate IsHostChar(c: char) {
    IsDigit(c) || 'a' <= c <= 'z' || 'A' <= c <= 'Z' || c in {'-', '.', ':'}
  }

  /** The spaces are blank, tab, LF, VT, FF and CR; digits stand for numbers from 0 to 9; host names are made of letters of
      either case, digits, dash, dot and colon. */
  lemma CharactersAre(c: char)
    ensures IsSpace(c) <==> c as int in {32, 9, 10, 11, 12, 13}
    ensures IsDigit(c) <==> 48 <= c as int < 58
    ensures IsHostChar(c) <==> 'a' <= ToLower(c) <= 'z' || IsDigit(c) || c in {'-', '.', ':'}
  {
  }

  /** How many characters of s are no wildcards in a K-line. */
  function NonWild(s: string): nat {
    if s == "" then 0 else (if IsKWildChar(s[0]) then 0 else 1) + NonWild(s[1..])
  }

  lemma DropDrop(s: string, m: nat, n: nat)
    requires m + n <= |s|
    ensures s[m..][n..] == s[m + n..]
  {
  }

  lemma DropTake(s: string, m: nat, n: nat)
    requires m + n <= |s|
    ensures s[m..][..n] == s[m..m + n]
  {
  }

  /** The part of s before the first c; all of s when there is none. */
  function Before(s: string, c: char): (r: string)
    ensures |r| <= |s| && r == s[..|r|]
  {
    if s == "" || s[0] == c then "" else [s[0]] + Before(s[1..], c)
  }

  lemma {:induction false} BeforeFirst(s: string, c: char, rest: string)
    ensures Before(s + [c] + rest, c) == Before(s, c)
  {
    var t := s + [c] + rest;
    if s != "" {
      assert t[1..] == s[1..] + [c] + rest;
      BeforeFirst(s[1..], c, rest);
    }
  }

  lemma {:induction false} BeforeSkips(s: string, c: char, rest: string)
    requires c !in s
    ensures Before(s + rest, c) == s + Before(rest, c)
  {
    if s == "" {
      assert s + rest == rest;
    } else {
      assert (s + rest)[1..] == s[1..] + rest;
      BeforeSkips(s[1..], c, rest);
      assert s == [s[0]] + s[1..];
    }
  }

  lemma {:induction false} BeforeNone(s: string, c: char)
    requires c !in s
    ensures Before(s, c) == s
  {
    if s != "" {
      BeforeNone(s[1..], c);
      assert s == [s[0]] + s[1..];
    }
  }

  /** Either c is not in s, or the part before it is a shorter part without c. */
  lemma {:induction false} BeforeSome(s: string, c: char)
    requires c in s
    ensures |Before(s, c)| < |s| && c !in Before(s, c)
  {
    if s[0] != c {
      assert c in s[1..];
      BeforeSome(s[1..], c);
    }
  }

  lemma {:induction false} BeforeStops(s: string, c: char)
    requires |Before(s, c)| < |s|
    ensures s[|Before(s, c)|] == c
  {
    if s[0] != c {
      BeforeStops(s[1..], c);
    }
  }

  /** strchr() from `from` on; |s| for a null result. */
  method StrChr(s: string, from: nat, c: char) returns (at: nat)
    requires from <= |s|
    ensures at == from + |Before(s[from..], c)|
  {
    at := from;
    while at < |s| && s[at] != c
      invariant from <= at <= |s| && |Before(s[from..], c)| == at - from + |Before(s[at..], c)|
    {
      assert s[at..][1..] == s[at + 1..];
      at := at + 1;
    }
  }

  /** Each word with a space after it. */
  function Spaced(words: seq<string>): string {
    if words == [] then "" else words[0] + " " + Spaced(words[1..])
  }

  lemma {:induction false} SpacedConcat(a: seq<string>, b: seq<string>)
    ensures Spaced(a + b) == Spaced(a) + Spaced(b)
    decreases |a|
  {
    if a == [] {
      assert a + b == b;
    } else {
      assert (a + b)[1..] == a[1..] + b;
      SpacedConcat(a[1..], b);
      Regroup(a[0] + " ", Spaced(a[1..]), Spaced(b));
    }
  }

  /** strlcpy() into a buffer of n characters and a NUL */
  function Cut(s: string, n: nat): string {
    if |s| <= n then s else s[..n]
  }
}
