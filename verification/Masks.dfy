/** User@host masks of G-lines and when two of them are the same (modules/m_gline.c over
    src/hostmask.c). */
module Masks {
  import opened Options
  import opened Text

  /** What the tokenizer of parse_netmask() finds in a host: no address, or the bits of an
      address, most significant first, with the length of its prefix. */
  datatype Netmask =
    | NoAddress
    | V4(addr: seq<bool>, bits: nat)
    | V6(addr: seq<bool>, bits: nat)

  /** A mask; `net` is what the tokenizer finds in `host`, `slash` the number after its slash. */
  datatype Mask = Mask(user: string, host: string, net: Netmask, slash: Option<int>)
  {
    predicate WellFormed() {
      match net
      case NoAddress => true
      case V4(addr, bits) => |addr| == 32 && 1 <= bits <= 32
      case V6(addr, bits) => |addr| == 128 && bits <= 128
    }

    /** try_parse_v4_netmask(): the bits after the prefix are cleared. */
    function Kept4(i: nat): bool
      requires WellFormed() && net.V4? && i < 32
    {
      i < net.bits && net.addr[i]
    }

    /** try_parse_v6_netmask(): the 16-bit word in which the prefix ends is masked with
        ~((1 << (15 - bits % 16)) - 1), which keeps one bit too many, see KeepsOneBitMore. */
    function Kept6(i: nat): bool
      requires WellFormed() && net.V6? && i < 128
    {
      (i < net.bits || (i == net.bits && net.bits % 16 != 0)) && net.addr[i]
    }

    /** The bit after the prefix is set and survives in the byte in which the prefix ends. */
    predicate Stray() {
      net.V6? && net.bits % 8 != 0 && net.bits < |net.addr| && net.addr[net.bits]
    }
  }

  /** What parse_netmask() and the search for a slash make of a host. */
  datatype Token = Token(net: Netmask, slash: Option<int>)

  function MaskOf(tokens: string -> Token, user: string, host: string): Mask {
    Mask(user, host, tokens(host).net, tokens(host).slash)
  }

  /** What is used of parse_netmask(): an address has no more bits than it can have; a host that starts with a
      star, is the word ON or holds a quotation mark is no address; a prefix that does not end with a word comes
      from a slash; and letters of either case after a slash are no digits. */
  ghost predicate GoodTokens(tokens: string -> Token) {
    && (forall h :: GoodToken(tokens, h))
    && (forall g, h {:trigger SameName(g, h)} :: SameName(g, h) ==> tokens(g).slash == tokens(h).slash)
  }

  predicate GoodToken(tokens: string -> Token, h: string) {
    var m := Mask("", h, tokens(h).net, None);
    && m.WellFormed()
    && ((h != "" && h[0] == '*') || SameName(h, "ON") || '"' in h ==> m.net.NoAddress?)
    && ('/' !in h ==> !m.Stray())
  }

  /** The bit of weight 15 - i of a 16-bit word, for the word mask with k bits of prefix. */
  lemma KeepsOneBitMore(k: bv4, i: bv4)
    requires k != 0
    ensures (!(((1 as bv16) << (15 - k)) - 1) >> (15 - i)) & 1 == (if i <= k then 1 else 0)
  {
  }

  /** match_ipv4(): the prefix of one address against the whole of the other. */
  predicate MatchV4(a: Mask, b: Mask)
    requires a.WellFormed() && b.WellFormed() && a.net.V4? && b.net.V4?
  {
    forall i :: 0 <= i < 32 ==> (i < a.net.bits && a.Kept4(i)) == b.Kept4(i)
  }

  /** match_ipv6(): whole bytes first, then the byte in which the prefix ends, if it ends inside one. */
  predicate MatchV6(a: Mask, b: Mask)
    requires a.WellFormed() && b.WellFormed() && a.net.V6? && b.net.V6?
  {
    var n := a.net.bits / 8;
    && (forall i :: 0 <= i < 8 * n ==> a.Kept6(i) == b.Kept6(i))
    && (a.net.bits % 8 != 0 ==>
          forall i :: 8 * n <= i < 8 * n + 8 ==> (i < a.net.bits && a.Kept6(i)) == b.Kept6(i))
  }

  /** The test of _find_gline() and remove_gline_match(): does the given mask name the entry? */
  predicate Matching(given: Mask, entry: Mask) {
    && given.WellFormed() && entry.WellFormed()
    && SameName(given.user, entry.user)
    && match (given.net, entry.net)
       case (NoAddress, NoAddress) => SameName(given.host, entry.host)
       case (V4(_, bits), V4(_, cbits)) => bits == cbits && MatchV4(given, entry)
       case (V6(_, bits), V6(_, cbits)) => bits == cbits && MatchV6(given, entry)
       case _ => false
  }

  /** A mask names itself exactly when it has no stray bit. */
  lemma SelfMatching(m: Mask)
    requires m.WellFormed()
    ensures Matching(m, m) <==> !m.Stray()
  {
    if m.Stray() {
      assert m.Kept6(m.net.bits);
    }
  }

  /** What a mask of addresses is for: the addresses that agree with it on its prefix. */
  predicate Covers(m: Mask, x: seq<bool>)
    requires m.WellFormed() && !m.net.NoAddress?
  {
    |x| == |m.net.addr| && forall i :: 0 <= i < m.net.bits ==> x[i] == m.net.addr[i]
  }

  /** The same users on the same hosts, or on addresses of one family with prefixes of one length that cover the same. */
  ghost predicate SameMeaning(a: Mask, b: Mask) {
    && a.WellFormed() && b.WellFormed() && SameName(a.user, b.user)
    && match (a.net, b.net)
       case (NoAddress, NoAddress) => SameName(a.host, b.host)
       case (V4(_, bits), V4(_, cbits)) => bits == cbits && forall x :: Covers(a, x) <==> Covers(b, x)
       case (V6(_, bits), V6(_, cbits)) => bits == cbits && forall x :: Covers(a, x) <==> Covers(b, x)
       case _ => false
  }

  /** A mask names exactly the entries without a stray bit that mean the same. */
  lemma MatchingIsMeaning(a: Mask, b: Mask)
    ensures Matching(a, b) <==> SameMeaning(a, b) && !b.Stray()
  {
    if a.WellFormed() && b.WellFormed() {
      if b.Stray() {
        StrayIsUnreachable(a, b);
      } else if (a.net.V4? && b.net.V4?) || (a.net.V6? && b.net.V6?) {
        if a.net.bits == b.net.bits {
          PrefixIsCovered(a, b);
          if a.net.V6? {
            MatchV6IsPrefix(a, b);
          } else {
            MatchV4IsPrefix(a, b);
          }
        }
      }
    }
  }

  predicate SamePrefix(a: Mask, b: Mask)
    requires a.WellFormed() && b.WellFormed() && !a.net.NoAddress? && !b.net.NoAddress?
    requires a.net.V4? == b.net.V4? && a.net.bits == b.net.bits
  {
    forall i :: 0 <= i < a.net.bits ==> a.net.addr[i] == b.net.addr[i]
  }

  lemma PrefixIsCovered(a: Mask, b: Mask)
    requires a.WellFormed() && b.WellFormed() && !a.net.NoAddress? && !b.net.NoAddress?
    requires a.net.V4? == b.net.V4? && a.net.bits == b.net.bits
    ensures SamePrefix(a, b) <==> forall x :: Covers(a, x) <==> Covers(b, x)
  {
    if forall x :: Covers(a, x) <==> Covers(b, x) {
      assert Covers(a, a.net.addr);
    }
  }

  lemma MatchV4IsPrefix(a: Mask, b: Mask)
    requires a.WellFormed() && b.WellFormed() && a.net.V4? && b.net.V4? && a.net.bits == b.net.bits
    ensures MatchV4(a, b) <==> SamePrefix(a, b)
  {
    if MatchV4(a, b) {
      forall i | 0 <= i < a.net.bits
        ensures a.net.addr[i] == b.net.addr[i]
      {
        assert (i < a.net.bits && a.Kept4(i)) == b.Kept4(i);
      }
    }
  }

  lemma MatchV6IsPrefix(a: Mask, b: Mask)
    requires a.WellFormed() && b.WellFormed() && a.net.V6? && b.net.V6? && a.net.bits == b.net.bits && !b.Stray()
    ensures MatchV6(a, b) <==> SamePrefix(a, b)
  {
    var n := a.net.bits / 8;
    if MatchV6(a, b) {
      forall i | 0 <= i < a.net.bits
        ensures a.net.addr[i] == b.net.addr[i]
      {
        assert i < 8 * n ==> a.Kept6(i) == b.Kept6(i);
        assert i >= 8 * n ==> (i < a.net.bits && a.Kept6(i)) == b.Kept6(i);
      }
    }
  }

  /** No mask names an entry with a stray bit: nothing finds it and nothing removes it. */
  lemma StrayIsUnreachable(given: Mask, entry: Mask)
    requires entry.WellFormed() && entry.Stray()
    ensures !Matching(given, entry)
  {
    if given.WellFormed() && given.net.V6? && given.net.bits == entry.net.bits {
      assert entry.Kept6(entry.net.bits);
    }
  }

  /** Between masks without stray bits, naming is an equivalence relation. */
  lemma MatchingSymmetric(a: Mask, b: Mask)
    requires Matching(a, b) && !a.Stray()
    ensures Matching(b, a)
  {
    if a.net.V4? {
      assert forall i :: 0 <= i < 32 ==> (i < b.net.bits && b.Kept4(i)) == a.Kept4(i);
    } else if a.net.V6? && a.net.bits % 8 != 0 {
      var n := a.net.bits / 8;
      forall i | 8 * n <= i < 8 * n + 8
        ensures (i < b.net.bits && b.Kept6(i)) == a.Kept6(i)
      {
        assert (i < a.net.bits && a.Kept6(i)) == b.Kept6(i);
      }
    }
  }

  lemma MatchingTransitive(a: Mask, b: Mask, c: Mask)
    requires Matching(a, b) && Matching(b, c)
    ensures Matching(a, c)
  {
    if a.net.V4? {
      forall i | 0 <= i < 32
        ensures (i < a.net.bits && a.Kept4(i)) == c.Kept4(i)
      {
        assert (i < a.net.bits && a.Kept4(i)) == b.Kept4(i) && (i < b.net.bits && b.Kept4(i)) == c.Kept4(i);
      }
    } else if a.net.V6? {
      var n := a.net.bits / 8;
      if a.net.bits % 8 != 0 {
        forall i | 8 * n <= i < 8 * n + 8
          ensures (i < a.net.bits && a.Kept6(i)) == c.Kept6(i)
        {
          assert (i < a.net.bits && a.Kept6(i)) == b.Kept6(i) && (i < b.net.bits && b.Kept6(i)) == c.Kept6(i);
        }
      }
    }
  }

  /** Two entries that one mask names name each other, whether or not that mask has a stray bit. */
  lemma NamedByOne(m: Mask, a: Mask, b: Mask)
    requires Matching(m, a) && Matching(m, b)
    ensures Matching(a, b)
  {
    if m.net.V4? {
      forall i | 0 <= i < 32
        ensures (i < a.net.bits && a.Kept4(i)) == b.Kept4(i)
      {
        assert (i < m.net.bits && m.Kept4(i)) == a.Kept4(i) && (i < m.net.bits && m.Kept4(i)) == b.Kept4(i);
      }
    } else if m.net.V6? {
      var n := m.net.bits / 8;
      if m.net.bits % 8 != 0 {
        forall i | 8 * n <= i < 8 * n + 8
          ensures (i < a.net.bits && a.Kept6(i)) == b.Kept6(i)
        {
          assert (i < m.net.bits && m.Kept6(i)) == a.Kept6(i) && (i < m.net.bits && m.Kept6(i)) == b.Kept6(i);
        }
      }
    }
  }

  /** A mask without its stray bit. */
  function Cleared(m: Mask): Mask
    requires m.WellFormed() && m.Stray()
  {
    m.(net := V6(m.net.addr[m.net.bits := false], m.net.bits))
  }

  /** A mask with a stray bit still names the mask it was meant to be. */
  lemma StrayNamesCleared(m: Mask)
    requires m.WellFormed() && m.Stray()
    ensures Matching(m, Cleared(m)) && !Cleared(m).Stray()
  {
    var c, n := Cleared(m), m.net.bits / 8;
    forall i | 8 * n <= i < 8 * n + 8
      ensures (i < m.net.bits && m.Kept6(i)) == c.Kept6(i)
    {
    }
  }
}
