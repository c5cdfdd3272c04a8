/** The state of one client's capability negotiation and the subcommands of CAP
    (modules/m_cap.c:86-405). */
module CapSession {
  import opened Options
  import opened Text
  import opened Capab
  import opened CapPrint

  function Bits(table: Table, i: nat): set<nat> {
    set k | i <= k < |table| :: table[k].bit
  }

  function NonProto(table: Table): set<nat> {
    set k | 0 <= k < |table| && Proto !in table[k].flags :: table[k].bit
  }

  function VisibleFrom(table: Table, i: nat): set<nat> {
    set k | i <= k < |table| && Hidden !in table[k].flags :: table[k].bit
  }

  function Visible(table: Table): set<nat> {
    VisibleFrom(table, 0)
  }

  ghost predicate Within(table: Table, es: seq<Element>) {
    forall e :: e in es ==> e.cap < |table|
  }

  /** The words `set` and `rem` that cap_req() accumulates. */
  function Accumulate(table: Table, es: seq<Element>, s: set<nat>, r: set<nat>): (set<nat>, set<nat>)
    requires Within(table, es)
    decreases es
  {
    if es == [] then (s, r)
    else
      var b := {table[es[0].cap].bit};
      if es[0].neg then Accumulate(table, es[1..], s - b, r + b) else Accumulate(table, es[1..], s + b, r - b)
  }

  /** A word of capabilities after the elements were applied one by one to its bits in `only`. */
  function Follow(table: Table, es: seq<Element>, only: set<nat>, m: set<nat>): set<nat>
    requires Within(table, es)
    decreases es
  {
    if es == [] then m
    else
      var b := {table[es[0].cap].bit} * only;
      Follow(table, es[1..], only, if es[0].neg then m - b else m + b)
  }

  predicate Refuses(cap: Capability, neg: bool) {
    (!neg && Prohibit in cap.flags) || (neg && Sticky in cap.flags)
  }

  /** The elements of a request that is granted. */
  ghost function Granted(table: Table, list: string): (r: Option<seq<Element>>)
    ensures r.Some? ==> r.value != [] && Within(table, r.value)
  {
    var es := Read(table, list);
    if es.Some? && forall e :: e in es.value ==> !Refuses(table[e.cap], e.neg) then es else None
  }

  datatype Reply = Nak | Ack(lines: seq<Line>)

  class Client {
    var capClient: set<nat>
    var capActive: set<nat>
    var unknown: bool
    var needCap: bool
    var needOther: bool

    constructor ()
      ensures capClient == {} && capActive == {} && unknown && !needCap && needOther
    {
      capClient, capActive, unknown, needCap, needOther := {}, {}, true, false, true;
    }

    method CapLs(table: Table, clen: nat) returns (lines: seq<Line>)
      modifies this`needCap
      ensures lines == Print(table, {}, {}, clen, 0, "") && needCap == (old(needCap) || unknown)
    {
      if unknown {
        needCap := true;
      }
      lines := SendCaplist(table, {}, {}, clen);
    }

    /** cap_list(): a client that has capabilities is told which of the table they are; one that has none is told
        all that are visible, as if it had them. */
    method CapList(table: Table, clen: nat) returns (lines: seq<Line>)
      ensures GoodTable(table) && MarksAreNoNames(table) && Fits(table, clen) ==>
                Tells(table, lines, if capClient == {} then Visible(table) else capClient * Bits(table, 0),
                      Unmodified(table, capClient, {}))
      ensures lines == Print(table, capClient, {}, clen, 0, "")
    {
      lines := SendCaplist(table, capClient, {}, clen);
      if GoodTable(table) && MarksAreNoNames(table) && Fits(table, clen) {
        if capClient == {} {
          EmptyWordListsAll(table, clen);
        } else {
          AckIsReadable(table, capClient, {}, clen);
          WithoutNothing(capClient, Bits(table, 0));
        }
      }
    }

    /** cap_req(): all of a request or none of it. */
    method CapReq(table: Table, list: Option<string>, clen: nat) returns (reply: Reply)
      requires GoodTable(table) && (list.Some? ==> '\0' !in list.value)
      modifies this`needCap, this`capClient, this`capActive
      ensures needCap == (old(needCap) || unknown)
      ensures
        if list.None? then
          reply == Ack(Print(table, {}, {}, clen, 0, "")) && capClient == old(capClient) && capActive == old(capActive)
        else
          var es := Granted(table, list.value);
          if es.None? then reply == Nak && capClient == old(capClient) && capActive == old(capActive)
          else
            var (s, r) := Accumulate(table, es.value, {}, {});
            && reply == Ack(Print(table, s, r, clen, 0, ""))
            && capClient == Follow(table, es.value, Bits(table, 0), old(capClient))
            && capActive == Follow(table, es.value, NonProto(table), old(capActive))
    {
      if unknown {
        needCap := true;
      }
      var s, r, cs, as_ := {}, {}, capClient, capActive;
      if list.Some? {
        var granted;
        granted, s, r, cs, as_ := WalkRequest(table, list.value, cs, as_);
        if !granted {
          return Nak;
        }
      }
      var lines := SendCaplist(table, s, r, clen);
      reply := Ack(lines);
      capClient := cs;
      capActive := as_;
    }

    /** cap_ack() changes nothing, whatever the list: it sets what is set and clears what is clear. */
    method CapAck(table: Table, list: Option<string>)
      requires GoodTable(table) && (list.Some? ==> '\0' !in list.value)
      modifies this`capActive
      ensures capActive == old(capActive)
    {
      var cl := if list.None? then None else Some(0);
      while cl.Some?
        invariant cl.Some? ==> list.Some? && cl.value <= |list.value|
        invariant capActive == old(capActive)
        decreases if cl.None? then 0 else |list.value| - cl.value + 1
      {
        var cap, neg, next := FindCap(table, list.value, cl.value);
        cl := next;
        if cap.None? || (if neg then table[cap.value].bit in capActive else table[cap.value].bit !in capActive) {
          continue;
        }
        if neg {
          capActive := capActive - {table[cap.value].bit};
        } else {
          capActive := capActive + {table[cap.value].bit};
        }
      }
    }

    /** cap_clear(): clears what is active and not sticky, and acknowledges that. */
    method CapClear(table: Table, clen: nat) returns (lines: seq<Line>)
      requires GoodTable(table)
      modifies this`capClient, this`capActive
      ensures var cleared := old(capActive) * Clearable(table);
        && lines == Print(table, {}, cleared, clen, 0, "")
        && capClient == old(capClient) - cleared && capActive == old(capActive) - cleared * NonProto(table)
    {
      var cleared := {};
      for i := 0 to |table|
        invariant cleared == old(capActive) * Clearable(table[..i])
        invariant capClient == old(capClient) - cleared && capActive == old(capActive) - cleared * NonProto(table)
      {
        var cap := table[i];
        ClearableNext(table, i);
        NonProtoIs(table, i);
        if cap.bit !in capActive || Sticky in cap.flags {
          continue;
        }
        cleared := cleared + {cap.bit};
        capClient := capClient - {cap.bit};
        if Proto !in cap.flags {
          capActive := capActive - {cap.bit};
        }
      }
      assert table[..|table|] == table;
      lines := SendCaplist(table, {}, cleared, clen);
    }

    /** cap_end(): the negotiation is over; says whether the client can be registered now. */
    method CapEnd() returns (register: bool)
      modifies this`needCap
      ensures needCap == (old(needCap) && !unknown) && register == (unknown && !needOther)
    {
      if !unknown {
        return false;
      }
      needCap := false;
      register := !needOther;
    }
  }

  /** The loop of cap_req() over a list, with the words it updates. */
  method WalkRequest(table: Table, list: string, cs0: set<nat>, as0: set<nat>)
    returns (granted: bool, s: set<nat>, r: set<nat>, cs: set<nat>, as_: set<nat>)
    requires GoodTable(table) && '\0' !in list
    ensures granted <==> Granted(table, list).Some?
    ensures granted ==>
      var es := Granted(table, list).value;
      && (s, r) == Accumulate(table, es, {}, {})
      && cs == Follow(table, es, Bits(table, 0), cs0) && as_ == Follow(table, es, NonProto(table), as0)
  {
    s, r, cs, as_ := {}, {}, cs0, as0;
    var cl := Some(0);
    ghost var done: seq<Element> := [];
    JoinNothing(Read(table, list));
    assert list[0..] == list;
    while cl.Some?
      invariant cl.Some? ==> cl.value <= |list|
      invariant Within(table, done) && forall e :: e in done ==> !Refuses(table[e.cap], e.neg)
      invariant Read(table, list) == if cl.None? then Some(done) else Join(Some(done), Read(table, list[cl.value..]))
      invariant (s, r) == Accumulate(table, done, {}, {})
      invariant cs == Follow(table, done, Bits(table, 0), cs0) && as_ == Follow(table, done, NonProto(table), as0)
      decreases if cl.None? then 0 else |list| - cl.value + 1
    {
      ghost var rest := list[cl.value..];
      var cap, neg, next := FindCap(table, list, cl.value);
      if cap.None? || (!neg && Prohibit in table[cap.value].flags) || (neg && Sticky in table[cap.value].flags) {
        RefusedAt(table, list, done, rest);
        granted := false;
        return;
      }
      ghost var e := Element(neg, cap.value);
      FollowSnoc(table, done, e, Bits(table, 0), cs0);
      FollowSnoc(table, done, e, NonProto(table), as0);
      AccumulateSnoc(table, done, e, {}, {});
      ReadSnoc(table, done, rest);
      s, r, cs, as_ := TakeRequested(table, cap.value, neg, s, r, cs, as_);
      done := done + [e];
      cl := next;
    }
    granted := true;
  }

  /** What cap_req() does with one element. */
  method TakeRequested(table: Table, k: nat, neg: bool, s: set<nat>, r: set<nat>, cs: set<nat>, as_: set<nat>)
    returns (s': set<nat>, r': set<nat>, cs': set<nat>, as': set<nat>)
    requires GoodTable(table) && k < |table|
    ensures var b := {table[k].bit};
      && (s', r') == (if neg then (s - b, r + b) else (s + b, r - b))
      && cs' == (if neg then cs - b * Bits(table, 0) else cs + b * Bits(table, 0))
      && as' == (if neg then as_ - b * NonProto(table) else as_ + b * NonProto(table))
  {
    NonProtoIs(table, k);
    s', r', cs', as' := s, r, cs, as_;
    var b := table[k].bit;
    if neg {
      r', s', cs' := r' + {b}, s' - {b}, cs' - {b};
      if Proto !in table[k].flags {
        as' := as' - {b};
      }
    } else {
      r', s', cs' := r' - {b}, s' + {b}, cs' + {b};
      if Proto !in table[k].flags {
        as' := as' + {b};
      }
    }
    assert {b} * Bits(table, 0) == {b};
    assert {b} * NonProto(table) == if Proto in table[k].flags then {} else {b};
  }

  lemma NonProtoIs(table: Table, k: nat)
    requires GoodTable(table) && k < |table|
    ensures table[k].bit in NonProto(table) <==> Proto !in table[k].flags
  {
  }

  lemma {:induction false} FollowSnoc(table: Table, es: seq<Element>, e: Element, only: set<nat>, m: set<nat>)
    requires Within(table, es) && e.cap < |table|
    ensures Within(table, es + [e])
    ensures var b := {table[e.cap].bit} * only; var f := Follow(table, es, only, m);
      Follow(table, es + [e], only, m) == if e.neg then f - b else f + b
    decreases es
  {
    if es == [] {
      assert [] + [e] == [e];
    } else {
      var b := {table[es[0].cap].bit} * only;
      assert (es + [e])[1..] == es[1..] + [e];
      FollowSnoc(table, es[1..], e, only, if es[0].neg then m - b else m + b);
    }
  }

  lemma {:induction false} AccumulateSnoc(table: Table, es: seq<Element>, e: Element, s: set<nat>, r: set<nat>)
    requires Within(table, es) && e.cap < |table|
    ensures Within(table, es + [e])
    ensures var b := {table[e.cap].bit}; var (s', r') := Accumulate(table, es, s, r);
      Accumulate(table, es + [e], s, r) == if e.neg then (s' - b, r' + b) else (s' + b, r' - b)
    decreases es
  {
    if es == [] {
      assert [] + [e] == [e];
    } else {
      var b := {table[es[0].cap].bit};
      assert (es + [e])[1..] == es[1..] + [e];
      if es[0].neg {
        AccumulateSnoc(table, es[1..], e, s - b, r + b);
      } else {
        AccumulateSnoc(table, es[1..], e, s + b, r - b);
      }
    }
  }

  lemma ReadSnoc(table: Table, done: seq<Element>, rest: string)
    requires FindNext(table, rest).cap.Some?
    ensures var f := FindNext(table, rest); var done' := done + [Element(f.neg, f.cap.value)];
      Join(Some(done), Read(table, rest)) ==
        if f.rest.None? then Some(done') else Join(Some(done'), Read(table, f.rest.value))
  {
    var f := FindNext(table, rest);
    var e := [Element(f.neg, f.cap.value)];
    if f.rest.Some? {
      ReadFirst(table, rest);
      JoinAssociative(Some(done), Some(e), Read(table, f.rest.value));
    }
  }

  lemma ReadFirst(table: Table, list: string)
    requires FindNext(table, list).cap.Some? && FindNext(table, list).rest.Some?
    ensures var f := FindNext(table, list);
      Read(table, list) == Join(Some([Element(f.neg, f.cap.value)]), Read(table, f.rest.value))
  {
  }

  lemma RefusedAt(table: Table, list: string, done: seq<Element>, rest: string)
    requires Read(table, list) == Join(Some(done), Read(table, rest))
    requires var f := FindNext(table, rest); f.cap.Some? ==> Refuses(table[f.cap.value], f.neg)
    ensures Granted(table, list) == None
  {
    var f := FindNext(table, rest);
    if Read(table, list).Some? {
      var e := Read(table, rest).value[0];
      assert e == Element(f.neg, f.cap.value);
      assert Read(table, list).value[|done|] == e;
    }
  }

  function Clearable(table: Table): set<nat> {
    set k | 0 <= k < |table| && Sticky !in table[k].flags :: table[k].bit
  }

  lemma ClearableNext(table: Table, i: nat)
    requires GoodTable(table) && i < |table|
    ensures Clearable(table[..i + 1]) == Clearable(table[..i]) + if Sticky in table[i].flags then {} else {table[i].bit}
    ensures table[i].bit !in Clearable(table[..i])
  {
    assert forall k :: 0 <= k < i ==> table[..i][k] == table[k];
    assert forall k :: 0 <= k <= i ==> table[..i + 1][k] == table[k];
  }

  // ----- a client that follows the server's answers

  /** The words of a request and its effect: set and rem are disjoint, and the requested word is
      (old | set) & ~rem, as it is for the bits in `only` alone. */
  lemma {:induction false} FollowIs(table: Table, es: seq<Element>, only: set<nat>, m0: set<nat>, m: set<nat>,
                                    s: set<nat>, r: set<nat>)
    requires Within(table, es) && s !! r && m == (m0 + s * only) - r * only
    ensures var (s', r') := Accumulate(table, es, s, r);
      s' !! r' && Follow(table, es, only, m) == (m0 + s' * only) - r' * only
    decreases es
  {
    if es != [] {
      var b := {table[es[0].cap].bit};
      if es[0].neg {
        FollowIs(table, es[1..], only, m0, m - b * only, s - b, r + b);
      } else {
        FollowIs(table, es[1..], only, m0, m + b * only, s + b, r - b);
      }
    }
  }

  /** What the entries shown from number i on do to the words of a reader. */
  lemma {:induction false} ShownAccumulates(table: Table, set_: set<nat>, rem: set<nat>, i: nat, s: set<nat>, r: set<nat>)
    requires GoodTable(table) && i <= |table| && (set_ != {} || rem != {}) && Shown(table, set_, rem, i).Some?
    ensures var es := Shown(table, set_, rem, i).value;
      var bits := Bits(table, i);
      && Within(table, es)
      && Accumulate(table, es, s, r) ==
           (s - rem * bits + (set_ - rem) * bits, r - (set_ - rem) * bits + rem * bits)
    decreases |table| - i
  {
    BitsNext(table, i);
    if i == |table| {
      assert s - rem * Bits(table, i) + (set_ - rem) * Bits(table, i) == s;
      assert r - (set_ - rem) * Bits(table, i) + rem * Bits(table, i) == r;
    } else {
      var bit, bits := table[i].bit, Bits(table, i + 1);
      ShownNext(table, set_, rem, i);
      if Shows(table[i], set_, rem) {
        var rest := Shown(table, set_, rem, i + 1).value;
        if bit in rem {
          ShownAccumulates(table, set_, rem, i + 1, s - {bit}, r + {bit});
          AccumulateNext(table, Element(true, i), rest, s, r);
          BitTaken(bit, bits, rem, set_ - rem, r, s);
        } else {
          ShownAccumulates(table, set_, rem, i + 1, s + {bit}, r - {bit});
          AccumulateNext(table, Element(false, i), rest, s, r);
          BitTaken(bit, bits, set_ - rem, rem, s, r);
        }
      } else {
        ShownAccumulates(table, set_, rem, i + 1, s, r);
        assert rem * Bits(table, i) == rem * bits;
        assert (set_ - rem) * Bits(table, i) == (set_ - rem) * bits;
      }
    }
  }

  /** One bit of `ins` moved from `outs` into `ins`, then the bits of the rest. */
  lemma BitTaken(bit: nat, bits: set<nat>, ins: set<nat>, outs: set<nat>, s: set<nat>, r: set<nat>)
    requires bit in ins && ins !! outs && bit !in bits
    ensures s + {bit} - outs * bits + ins * bits == s - outs * ({bit} + bits) + ins * ({bit} + bits)
    ensures r - {bit} - ins * bits + outs * bits == r - ins * ({bit} + bits) + outs * ({bit} + bits)
  {
  }

  lemma BitsNext(table: Table, i: nat)
    requires GoodTable(table) && i <= |table|
    ensures i == |table| ==> Bits(table, i) == {}
    ensures i < |table| ==> Bits(table, i) == {table[i].bit} + Bits(table, i + 1) && table[i].bit !in Bits(table, i + 1)
  {
  }

  /** No entry that is shown as set has a modifier. */
  predicate Unmodified(table: Table, set_: set<nat>, rem: set<nat>) {
    forall k :: 0 <= k < |table| && Shows(table[k], set_, rem) && table[k].bit !in rem ==>
      Proto !in table[k].flags && Sticky !in table[k].flags
  }

  lemma {:induction false} ShownIsReadable(table: Table, set_: set<nat>, rem: set<nat>, i: nat)
    requires i <= |table|
    ensures Shown(table, set_, rem, i).Some? <==>
            forall k :: i <= k < |table| && Shows(table[k], set_, rem) && table[k].bit !in rem ==>
              Proto !in table[k].flags && Sticky !in table[k].flags
    decreases |table| - i
  {
    if i < |table| {
      ShownIsReadable(table, set_, rem, i + 1);
    }
  }

  lemma ShowsNoneIs(table: Table, set_: set<nat>, rem: set<nat>)
    requires set_ != {} || rem != {}
    ensures ShowsNone(table, set_, rem, 0) <==> (set_ + rem) * Bits(table, 0) == {}
  {
    if ShowsNone(table, set_, rem, 0) {
      assert forall k :: 0 <= k < |table| ==> table[k].bit !in set_ + rem;
    } else {
      var k :| 0 <= k < |table| && Shows(table[k], set_, rem);
      assert table[k].bit in (set_ + rem) * Bits(table, 0);
    }
  }

  lemma ShownNext(table: Table, set_: set<nat>, rem: set<nat>, i: nat)
    requires i < |table| && Shown(table, set_, rem, i).Some?
    ensures Shown(table, set_, rem, i + 1).Some?
    ensures Shown(table, set_, rem, i).value
              == (if Shows(table[i], set_, rem) then [Element(table[i].bit in rem, i)] else [])
                 + Shown(table, set_, rem, i + 1).value
  {
  }

  lemma AccumulateNext(table: Table, e: Element, rest: seq<Element>, s: set<nat>, r: set<nat>)
    requires Within(table, rest) && e.cap < |table|
    ensures Within(table, [e] + rest)
    ensures Accumulate(table, [e] + rest, s, r)
              == (var b := {table[e.cap].bit};
                  if e.neg then Accumulate(table, rest, s - b, r + b) else Accumulate(table, rest, s + b, r - b))
  {
    assert ([e] + rest)[0] == e && ([e] + rest)[1..] == rest;
  }

  /** Printing and then tokenizing is the identity on (set & ~rem, rem) cut to the table, exactly
      when the table has one of the bits and what is shown as set has no modifier. */
  lemma AckIsReadable(table: Table, set_: set<nat>, rem: set<nat>, clen: nat)
    requires GoodTable(table) && MarksAreNoNames(table) && Fits(table, clen) && (set_ != {} || rem != {})
    ensures var es := ReadAll(table, Print(table, set_, rem, clen, 0, ""));
      && (es.Some? <==> (set_ + rem) * Bits(table, 0) != {} && Unmodified(table, set_, rem))
      && (es.Some? ==> Within(table, es.value))
      && (es.Some? ==> Accumulate(table, es.value, {}, {}) == ((set_ - rem) * Bits(table, 0), rem * Bits(table, 0)))
  {
    PrintedIsRead(table, set_, rem, clen, 0);
    ShownIsReadable(table, set_, rem, 0);
    ShowsNoneIs(table, set_, rem);
    if Unmodified(table, set_, rem) {
      ShownFromNothing(table, set_, rem);
    }
  }

  lemma ShownFromNothing(table: Table, set_: set<nat>, rem: set<nat>)
    requires GoodTable(table) && (set_ != {} || rem != {}) && Shown(table, set_, rem, 0).Some?
    ensures var es := Shown(table, set_, rem, 0).value;
      Within(table, es) && Accumulate(table, es, {}, {}) == ((set_ - rem) * Bits(table, 0), rem * Bits(table, 0))
  {
    ShownAccumulates(table, set_, rem, 0, {}, {});
    var bits, none: set<nat> := Bits(table, 0), {};
    assert none - rem * bits + (set_ - rem) * bits == (set_ - rem) * bits;
    assert none - (set_ - rem) * bits + rem * bits == rem * bits;
  }

  lemma {:induction false} AccumulatesBits(table: Table, es: seq<Element>, s: set<nat>, r: set<nat>)
    requires Within(table, es) && s <= Bits(table, 0) && r <= Bits(table, 0)
    ensures var (s', r') := Accumulate(table, es, s, r);
      s' <= Bits(table, 0) && r' <= Bits(table, 0) && (es != [] || s + r != {} ==> s' + r' != {})
    decreases es
  {
    if es != [] {
      var b := {table[es[0].cap].bit};
      assert b <= Bits(table, 0);
      if es[0].neg {
        assert (s - b) + (r + b) != {} by { assert table[es[0].cap].bit in r + b; }
        AccumulatesBits(table, es[1..], s - b, r + b);
      } else {
        assert (s + b) + (r - b) != {} by { assert table[es[0].cap].bit in s + b; }
        AccumulatesBits(table, es[1..], s + b, r - b);
      }
    }
  }

  /** A client that applies the lines of an ACK to its own copy of its capabilities agrees with the
      server after every granted request of its own, unless the ACK shows a modifier. */
  lemma RequestIsMirrored(table: Table, list: string, clen: nat, m: set<nat>)
    requires GoodTable(table) && MarksAreNoNames(table) && Fits(table, clen) && Granted(table, list).Some?
    ensures var es := Granted(table, list).value;
      var (s, r) := Accumulate(table, es, {}, {});
      var ack := ReadAll(table, Print(table, s, r, clen, 0, ""));
      && s !! r
      && (ack.Some? <==> Unmodified(table, s, r))
      && (ack.Some? ==> Within(table, ack.value))
      && (ack.Some? ==> Follow(table, ack.value, Bits(table, 0), m) == Follow(table, es, Bits(table, 0), m))
  {
    var es := Granted(table, list).value;
    var (s, r) := Accumulate(table, es, {}, {});
    AccumulatesBits(table, es, {}, {});
    FollowIs(table, es, Bits(table, 0), m, m, {}, {});
    AckIsReadable(table, s, r, clen);
    assert (s + r) * Bits(table, 0) == s + r;
    var ack := ReadAll(table, Print(table, s, r, clen, 0, ""));
    if ack.Some? {
      FollowIs(table, ack.value, Bits(table, 0), m, m, {}, {});
      assert (s - r) * Bits(table, 0) == s && r * Bits(table, 0) == r;
    }
  }

  /** The same for CLEAR, if anything was cleared. */
  lemma ClearIsMirrored(table: Table, cleared: set<nat>, clen: nat, m: set<nat>)
    requires GoodTable(table) && MarksAreNoNames(table) && Fits(table, clen) && cleared != {} && cleared <= Bits(table, 0)
    ensures var ack := ReadAll(table, Print(table, {}, cleared, clen, 0, ""));
      ack.Some? && Within(table, ack.value) && Follow(table, ack.value, Bits(table, 0), m) == m - cleared
  {
    AckIsReadable(table, {}, cleared, clen);
    var ack := ReadAll(table, Print(table, {}, cleared, clen, 0, ""));
    assert ({} + cleared) * Bits(table, 0) == cleared;
    FollowIs(table, ack.value, Bits(table, 0), m, m, {}, {});
    assert (({}) - cleared) * Bits(table, 0) == {} && cleared * Bits(table, 0) == cleared;
  }

  lemma {:induction false} VisibleAccumulates(table: Table, i: nat, s: set<nat>)
    requires GoodTable(table) && i <= |table| && Shown(table, {}, {}, i).Some?
    ensures var es := Shown(table, {}, {}, i).value;
      Within(table, es) && Accumulate(table, es, s, {}) == (s + VisibleFrom(table, i), {})
    decreases |table| - i
  {
    if i == |table| {
      assert s + VisibleFrom(table, i) == s;
    } else if Hidden in table[i].flags {
      VisibleAccumulates(table, i + 1, s);
      assert VisibleFrom(table, i) == VisibleFrom(table, i + 1);
    } else {
      var bit := table[i].bit;
      var rest := Shown(table, {}, {}, i + 1).value;
      assert Shown(table, {}, {}, i).value == [Element(false, i)] + rest && ([Element(false, i)] + rest)[1..] == rest;
      var none: set<nat> := {};
      assert none - {bit} == none;
      VisibleAccumulates(table, i + 1, s + {bit});
      assert s + {bit} + VisibleFrom(table, i + 1) == s + VisibleFrom(table, i);
    }
  }

  /** LIST, CLEAR and REQ have no line for the empty word: an answer about no capability at all
      lists every visible one.  So LIST tells a client its capabilities exactly when it has one of
      the table's, or when the table has no visible entry. */
  lemma EmptyWordListsAll(table: Table, clen: nat)
    requires GoodTable(table) && MarksAreNoNames(table) && Fits(table, clen)
    ensures Tells(table, Print(table, {}, {}, clen, 0, ""), Visible(table), Unmodified(table, {}, {}))
  {
    PrintedIsRead(table, {}, {}, clen, 0);
    ShownIsReadable(table, {}, {}, 0);
    VisibleIs(table);
    if Unmodified(table, {}, {}) {
      VisibleAccumulates(table, 0, {});
      var none: set<nat> := {};
      assert none + Visible(table) == Visible(table);
    }
  }

  /** The lines can be read exactly if they show something without modifiers, and then they say that the capabilities
      are `told`. */
  ghost predicate Tells(table: Table, lines: seq<Line>, told: set<nat>, plain: bool) {
    var es := ReadAll(table, lines);
    && (es.Some? <==> told != {} && plain)
    && (es.Some? ==> Within(table, es.value) && Accumulate(table, es.value, {}, {}) == (told, {}))
  }

  lemma WithoutNothing(s: set<nat>, bits: set<nat>)
    ensures s + {} == s && s - {} == s && {} * bits == {}
  {
  }

  lemma VisibleIs(table: Table)
    ensures ShowsNone(table, {}, {}, 0) <==> Visible(table) == {}
  {
    if ShowsNone(table, {}, {}, 0) {
      assert forall k :: 0 <= k < |table| ==> Hidden in table[k].flags;
    } else {
      var k :| 0 <= k < |table| && Shows(table[k], {}, {});
      assert table[k].bit in Visible(table);
    }
  }

  ghost predicate EndsInSpace(s: string) {
    s != "" && IsSpace(s[|s| - 1])
  }

  lemma {:induction false} SkipTrailing(list: string)
    requires EndsInSpace(list)
    ensures SkipSpaces(list) == "" || EndsInSpace(SkipSpaces(list))
    decreases |list|
  {
    if IsSpace(list[0]) && |list| > 1 {
      SkipTrailing(list[1..]);
    }
  }

  lemma TokenTrailing(key: string)
    requires EndsInSpace(key)
    ensures |Token(key)| < |key| && EndsInSpace(key[|Token(key)|..])
  {
    var w := Token(key);
    assert forall i :: 0 <= i < |w| ==> key[i] == w[i];
    assert |w| <= |key| - 1;
  }

  lemma FindTrailing(table: Table, list: string)
    requires EndsInSpace(list)
    ensures var f := FindNext(table, list); f.cap.Some? ==> f.rest.Some? && EndsInSpace(f.rest.value)
  {
    SkipTrailing(list);
    var s := SkipSpaces(list);
    var key := if s != "" && s[0] == '-' then s[1..] else s;
    if key != "" {
      assert EndsInSpace(key);
      TokenTrailing(key);
    }
  }

  /** A request that ends in a space is always refused. */
  lemma {:induction false} TrailingSpaceRefused(table: Table, list: string)
    requires EndsInSpace(list)
    ensures Read(table, list) == None && Granted(table, list) == None
    decreases |list|
  {
    FindTrailing(table, list);
    var f := FindNext(table, list);
    if f.cap.Some? {
      TrailingSpaceRefused(table, f.rest.value);
    }
  }

  // ----- the table

  /** capab_list[] after find_cap() has sorted it. */
  const CAPAB_LIST: Table := [Capability(0, {}, "multi-prefix"), Capability(1, {}, "uhnames")]

  lemma CapabListIsGood()
    ensures GoodTable(CAPAB_LIST) && MarksAreNoNames(CAPAB_LIST)
    ensures Unmodified(CAPAB_LIST, {0, 1}, {}) && Visible(CAPAB_LIST) == {0, 1}
  {
    CapabListIsSorted();
    assert Visible(CAPAB_LIST) == {CAPAB_LIST[0].bit, CAPAB_LIST[1].bit};
  }

  lemma CapabListIsSorted()
    ensures GoodTable(CAPAB_LIST)
  {
    assert Less("multi-prefix", "uhnames");
  }

  /** strcasecmp() in the C locale, which folds letters only. */
  function AsciiLower(c: char): char {
    if 'A' <= c <= 'Z' then c + 32 as char else c
  }

  predicate StrCaseLess(s: string, t: string) {
    if t == "" then false
    else if s == "" then true
    else if AsciiLower(s[0]) != AsciiLower(t[0]) then AsciiLower(s[0]) < AsciiLower(t[0])
    else StrCaseLess(s[1..], t[1..])
  }

  predicate IsBracket(c: char) {
    '[' <= c <= '^'
  }

  /** Another character that is above a bracket as it stands and below the one that the search folds it to. */
  predicate Between(bracket: char, c: char) {
    IsBracket(bracket) && !IsBracket(c) && bracket < AsciiLower(c) < ToLower(bracket)
  }

  /** The names differ first at k, as strcasecmp() sees it, and there the two orders part. */
  predicate PartAt(s: string, t: string, k: nat) {
    && k < |s| && k < |t| && AsciiLower(s[k]) != AsciiLower(t[k])
    && (forall i :: 0 <= i < k ==> AsciiLower(s[i]) == AsciiLower(t[i]))
    && if ToLower(s[k]) == ToLower(t[k]) then IsBracket(s[k]) != Less(s[k + 1..], t[k + 1..])
       else Between(s[k], t[k]) || Between(t[k], s[k])
  }

  /** capab_sort() and capab_search() disagree about two names exactly if one has a bracket where they first differ,
      and the other a character between that bracket and its lower case there, or else this lower case itself and then
      what the search would put the other way round. */
  lemma {:induction false} SortAgreesWithSearch(s: string, t: string)
    ensures (StrCaseLess(s, t) <==> Less(s, t)) <==> forall k: nat :: !PartAt(s, t, k)
    decreases |s|
  {
    if s != "" && t != "" {
      if AsciiLower(s[0]) == AsciiLower(t[0]) {
        SortAgreesWithSearch(s[1..], t[1..]);
        PartShifts(s, t);
      } else {
        assert PartAt(s, t, 0) <==> (StrCaseLess(s, t) != Less(s, t));
        assert forall k: nat :: PartAt(s, t, k) ==> k == 0;
      }
    }
  }

  lemma PartShifts(s: string, t: string)
    requires s != "" && t != "" && AsciiLower(s[0]) == AsciiLower(t[0])
    ensures forall k: nat :: PartAt(s[1..], t[1..], k) <==> PartAt(s, t, k + 1)
    ensures !PartAt(s, t, 0)
    ensures (exists k: nat :: PartAt(s, t, k)) <==> exists k: nat :: PartAt(s[1..], t[1..], k)
  {
    forall k: nat
      ensures PartAt(s[1..], t[1..], k) <==> PartAt(s, t, k + 1)
    {
      if k < |s| - 1 && k < |t| - 1 {
        assert s[1..][k + 1..] == s[k + 2..] && t[1..][k + 1..] == t[k + 2..];
      }
      if PartAt(s[1..], t[1..], k) {
        assert forall i :: 0 < i < k + 1 ==> s[i] == s[1..][i - 1] && t[i] == t[1..][i - 1];
      }
      if PartAt(s, t, k + 1) {
        assert forall i :: 0 <= i < k ==> s[1..][i] == s[i + 1] && t[1..][i] == t[i + 1];
      }
    }
    if k: nat :| PartAt(s, t, k) {
      assert k > 0 && PartAt(s, t, k - 1 + 1) && PartAt(s[1..], t[1..], k - 1);
    }
  }

  /** Names without brackets are ordered alike. */
  lemma WithoutBrackets(s: string, t: string)
    requires forall i :: 0 <= i < |s| ==> !IsBracket(s[i])
    requires forall i :: 0 <= i < |t| ==> !IsBracket(t[i])
    ensures StrCaseLess(s, t) <==> Less(s, t)
  {
    SortAgreesWithSearch(s, t);
  }

  /** They disagree on others. */
  lemma SortDisagreesOnBrackets()
    ensures StrCaseLess("a[", "ab") && !Less("a[", "ab")
  {
    assert "a["[1..] == "[" && "ab"[1..] == "b";
  }
}
