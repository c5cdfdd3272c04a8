/** Printing a list of capabilities and reading it back (modules/m_cap.c:166-232, 243-295). */
module CapPrint {
  import opened Options
  import opened Text
  import opened Capab

  /** An element of a list: an entry of the table, to be cleared or to be set. */
  datatype Element = Element(neg: bool, cap: nat)

  /** The elements of a list, if every one names an entry. */
  ghost function Read(table: Table, list: string): (r: Option<seq<Element>>)
    ensures r.Some? ==> r.value != [] && forall e :: e in r.value ==> e.cap < |table|
    decreases |list|
  {
    var f := FindNext(table, list);
    if f.cap.None? then None
    else
      var e := Element(f.neg, f.cap.value);
      if f.rest.None? then Some([e])
      else
        var more := Read(table, f.rest.value);
        if more.None? then None else Some([e] + more.value)
  }

  function Join<A>(a: Option<seq<A>>, b: Option<seq<A>>): Option<seq<A>> {
    if a.None? || b.None? then None else Some(a.value + b.value)
  }

  lemma JoinAssociative<A>(a: Option<seq<A>>, b: Option<seq<A>>, c: Option<seq<A>>)
    ensures Join(Join(a, b), c) == Join(a, Join(b, c))
  {
    if a.Some? && b.Some? && c.Some? {
      assert a.value + b.value + c.value == a.value + (b.value + c.value);
    }
  }

  // ----- the printer

  datatype Line = Line(continued: bool, caps: string)

  const BUFSIZE: nat := 512

  predicate Shows(cap: Capability, set_: set<nat>, rem: set<nat>) {
    cap.bit in rem || cap.bit in set_ || (set_ == {} && rem == {} && Hidden !in cap.flags)
  }

  function Modifiers(cap: Capability, rem: set<nat>): string {
    if cap.bit in rem then "-"
    else (if Proto in cap.flags then "~" else "") + (if Sticky in cap.flags then "=" else "")
  }

  function EntryText(cap: Capability, rem: set<nat>): string {
    Modifiers(cap, rem) + cap.name
  }

  /** The lines that send_caplist() sends from entry i on, with `cur` in its buffer. */
  function Print(table: Table, set_: set<nat>, rem: set<nat>, clen: nat, i: nat, cur: string): seq<Line>
    requires i <= |table|
    decreases |table| - i
  {
    if i == |table| then [Line(false, cur)]
    else if !Shows(table[i], set_, rem) then Print(table, set_, rem, clen, i + 1, cur)
    else
      var text := (if cur == "" then "" else " ") + EntryText(table[i], rem);
      if BUFSIZE < clen + |cur| + |text| + 15 then
        [Line(true, cur)] + Print(table, set_, rem, clen, i + 1, text)
      else Print(table, set_, rem, clen, i + 1, cur + text)
  }

  /** send_caplist(); `clen` is the length of what precedes the list on each line. */
  method SendCaplist(table: Table, set_: set<nat>, rem: set<nat>, clen: nat) returns (lines: seq<Line>)
    ensures lines == Print(table, set_, rem, clen, 0, "")
  {
    var capbuf := "";
    lines := [];
    for i := 0 to |table|
      invariant lines + Print(table, set_, rem, clen, i, capbuf) == Print(table, set_, rem, clen, 0, "")
    {
      var cap := table[i];
      if !(rem != {} && cap.bit in rem) && !(set_ != {} && cap.bit in set_)
         && (rem != {} || set_ != {} || Hidden in cap.flags) {
        continue;
      }
      var pfx := BuildPrefix(cap, rem, |capbuf|);
      var len := |cap.name| + |pfx|;
      PrintNext(table, set_, rem, clen, i, capbuf, lines, pfx + cap.name);
      if BUFSIZE < clen + |capbuf| + len + 15 {
        lines := lines + [Line(true, capbuf)];
        capbuf := "";
      }
      capbuf := capbuf + (pfx + cap.name);
    }
    lines := lines + [Line(false, capbuf)];
  }

  /** The separator and the modifiers in front of an entry. */
  method BuildPrefix(cap: Capability, rem: set<nat>, loc: nat) returns (pfx: string)
    ensures pfx + cap.name == (if loc == 0 then "" else " ") + EntryText(cap, rem)
  {
    pfx := "";
    if loc != 0 {
      pfx := pfx + " ";
    }
    if rem != {} && cap.bit in rem {
      pfx := pfx + "-";
    } else {
      if Proto in cap.flags {
        pfx := pfx + "~";
      }
      if Sticky in cap.flags {
        pfx := pfx + "=";
      }
    }
    assert pfx == (if loc == 0 then "" else " ") + Modifiers(cap, rem);
  }

  lemma PrintNext(table: Table, set_: set<nat>, rem: set<nat>, clen: nat, i: nat, cur: string, sent: seq<Line>,
                  text: string)
    requires i < |table| && Shows(table[i], set_, rem)
    requires text == (if cur == "" then "" else " ") + EntryText(table[i], rem)
    ensures sent + Print(table, set_, rem, clen, i, cur) ==
            if BUFSIZE < clen + |cur| + |text| + 15
            then sent + [Line(true, cur)] + Print(table, set_, rem, clen, i + 1, "" + text)
            else sent + Print(table, set_, rem, clen, i + 1, cur + text)
  {
    assert "" + text == text;
  }

  // ----- every line fits

  /** Every entry has room on a line of its own. */
  ghost predicate Fits(table: Table, clen: nat) {
    clen + 15 <= BUFSIZE && forall i :: 0 <= i < |table| ==> clen + |table[i].name| + 18 <= BUFSIZE
  }

  lemma {:induction false} LinesFit(table: Table, set_: set<nat>, rem: set<nat>, clen: nat, i: nat, cur: string)
    requires i <= |table| && Fits(table, clen) && clen + |cur| + 15 <= BUFSIZE
    ensures var lines := Print(table, set_, rem, clen, i, cur);
      && lines != []
      && (forall k :: 0 <= k < |lines| ==> clen + |lines[k].caps| + 15 <= BUFSIZE)
      && (forall k :: 0 <= k < |lines| ==> (lines[k].continued <==> k < |lines| - 1))
    decreases |table| - i
  {
    if i < |table| {
      if !Shows(table[i], set_, rem) {
        LinesFit(table, set_, rem, clen, i + 1, cur);
      } else {
        var text := (if cur == "" then "" else " ") + EntryText(table[i], rem);
        if BUFSIZE < clen + |cur| + |text| + 15 {
          LinesFit(table, set_, rem, clen, i + 1, text);
        } else {
          LinesFit(table, set_, rem, clen, i + 1, cur + text);
        }
      }
    }
  }

  // ----- reading what was printed

  /** The elements that entry i is printed as; modifiers make it unreadable. */
  function Printed(table: Table, rem: set<nat>, i: nat): Option<seq<Element>>
    requires i < |table|
  {
    if table[i].bit in rem then Some([Element(true, i)])
    else if Proto in table[i].flags || Sticky in table[i].flags then None
    else Some([Element(false, i)])
  }

  function Shown(table: Table, set_: set<nat>, rem: set<nat>, i: nat): Option<seq<Element>>
    requires i <= |table|
    decreases |table| - i
  {
    if i == |table| then Some([])
    else if Shows(table[i], set_, rem) then Join(Printed(table, rem, i), Shown(table, set_, rem, i + 1))
    else Shown(table, set_, rem, i + 1)
  }

  predicate ShowsNone(table: Table, set_: set<nat>, rem: set<nat>, i: nat) {
    forall k :: i <= k < |table| ==> !Shows(table[k], set_, rem)
  }

  ghost function ReadAll(table: Table, lines: seq<Line>): Option<seq<Element>>
  {
    if lines == [] then Some([]) else Join(Read(table, lines[0].caps), ReadAll(table, lines[1..]))
  }

  lemma {:induction false} SkipNone(s: string)
    requires s == "" || !IsSpace(s[0])
    ensures SkipSpaces(s) == s
  {
  }

  lemma {:induction false} TokenOf(w: string, rest: string)
    requires (forall i :: 0 <= i < |w| ==> !IsSpace(w[i])) && (rest == "" || IsSpace(rest[0]))
    ensures Token(w + rest) == w
    decreases |w|
  {
    if w == "" {
      assert w + rest == rest;
    } else {
      assert (w + rest)[1..] == w[1..] + rest;
      TokenOf(w[1..], rest);
    }
  }

  ghost predicate EndsInWord(s: string) {
    s != "" && !IsSpace(s[|s| - 1])
  }

  lemma {:induction false} SkipAppend(s: string, t: string)
    requires EndsInWord(s)
    ensures SkipSpaces(s + t) == SkipSpaces(s) + t && EndsInWord(SkipSpaces(s))
    decreases |s|
  {
    if IsSpace(s[0]) {
      assert (s + t)[1..] == s[1..] + t;
      SkipAppend(s[1..], t);
    }
  }

  lemma TokenAppend(s: string, t: string)
    requires t != "" && IsSpace(t[0])
    ensures Token(s + t) == Token(s)
  {
    var w := Token(s);
    assert s + t == w + (s[|w|..] + t);
    TokenOf(w, s[|w|..] + t);
  }

  lemma FindInAppend(table: Table, neg: bool, key: string, t: string)
    requires GoodTable(table) && t != "" && IsSpace(t[0]) && (key == "" || EndsInWord(key))
    ensures var f, g := FindIn(table, neg, key), FindIn(table, neg, key + t);
      && g.cap == f.cap && g.neg == f.neg
      && (f.rest.Some? ==> EndsInWord(f.rest.value))
      && (f.cap.Some? ==> g.rest == Some((if f.rest.None? then "" else f.rest.value) + t))
  {
    TokenAppend(key, t);
    var w := Token(key);
    assert (key + t)[|w|..] == key[|w|..] + t;
    if key == "" {
      EmptyTokenUnknown(table);
    } else if |w| < |key| {
      assert key[|w|..][|key| - |w| - 1] == key[|key| - 1];
    }
  }

  lemma FindAppend(table: Table, s: string, t: string)
    requires GoodTable(table) && EndsInWord(s) && t != "" && IsSpace(t[0])
    ensures var f, g := FindNext(table, s), FindNext(table, s + t);
      && g.cap == f.cap && g.neg == f.neg
      && (f.rest.Some? ==> EndsInWord(f.rest.value))
      && (f.cap.Some? ==> g.rest == Some((if f.rest.None? then "" else f.rest.value) + t))
  {
    SkipAppend(s, t);
    var s' := SkipSpaces(s);
    var neg := s'[0] == '-';
    var key := if neg then s'[1..] else s';
    assert (if neg then (s' + t)[1..] else s' + t) == key + t;
    assert key != "" ==> key[|key| - 1] == s'[|s'| - 1];
    FindInAppend(table, neg, key, t);
  }

  /** Reading a list and then another is reading the two lists put together. */
  lemma {:induction false} ReadAppend(table: Table, s: string, t: string)
    requires GoodTable(table) && EndsInWord(s) && t != "" && IsSpace(t[0])
    ensures Read(table, s + t) == Join(Read(table, s), Read(table, t))
    decreases |s|
  {
    FindAppend(table, s, t);
    var f := FindNext(table, s);
    if f.cap.Some? {
      var e := Some([Element(f.neg, f.cap.value)]);
      if f.rest.None? {
        assert "" + t == t;
        assert Read(table, s + t) == Join(e, Read(table, t));
      } else {
        ReadAppend(table, f.rest.value, t);
        JoinAssociative(e, Read(table, f.rest.value), Read(table, t));
        assert Read(table, s) == Join(e, Read(table, f.rest.value));
        assert Read(table, s + t) == Join(e, Read(table, f.rest.value + t));
      }
    }
  }

  lemma EmptyTokenUnknown(table: Table)
    requires GoodTable(table)
    ensures Lookup(table, "") == None
  {
  }

  /** A list of one word. */
  lemma ReadWord(table: Table, word: string, spaces: string)
    requires GoodTable(table) && word != "" && (forall i :: 0 <= i < |word| ==> !IsSpace(word[i]))
    requires spaces == "" || spaces == " "
    ensures var neg := word[0] == '-';
      var k := Lookup(table, if neg then word[1..] else word);
      Read(table, spaces + word) == if k.None? then None else Some([Element(neg, k.value)])
  {
    SkipNone(word);
    assert SkipSpaces(spaces + word) == word by {
      if spaces == "" {
        assert spaces + word == word;
      } else {
        assert (spaces + word)[1..] == word;
      }
    }
    var neg := word[0] == '-';
    var key := if neg then word[1..] else word;
    TokenOf(key, "");
    assert key + "" == key && key[|key|..] == "";
    EmptyTokenUnknown(table);
  }

  /** An entry with a modifier in front is no entry's name. */
  ghost predicate MarksAreNoNames(table: Table) {
    forall i, k :: 0 <= i < |table| && 0 <= k < |table| ==> MarkIsNoName(table[i], table[k])
  }

  ghost predicate MarkIsNoName(marked: Capability, cap: Capability) {
    Proto in marked.flags || Sticky in marked.flags ==> !SameFold(EntryText(marked, {}), cap.name)
  }

  /** What is looked up for an entry as it is printed. */
  lemma LookupPrinted(table: Table, rem: set<nat>, i: nat)
    requires GoodTable(table) && MarksAreNoNames(table) && i < |table|
    ensures var text := EntryText(table[i], rem);
      var neg := text[0] == '-';
      var k := Lookup(table, if neg then text[1..] else text);
      Printed(table, rem, i) == if k.None? then None else Some([Element(neg, k.value)])
  {
    var name := table[i].name;
    var text := EntryText(table[i], rem);
    LookupIs(table, name, i);
    if table[i].bit in rem {
      assert text[1..] == name;
    } else if Proto in table[i].flags || Sticky in table[i].flags {
      assert text[0] in {'~', '='};
      assert text == EntryText(table[i], {});
      assert forall k :: 0 <= k < |table| ==> MarkIsNoName(table[i], table[k]);
    } else {
      assert text == name;
    }
  }

  lemma EntryTextIsWord(cap: Capability, rem: set<nat>)
    requires GoodName(cap.name)
    ensures var text := EntryText(cap, rem);
      EndsInWord(text) && |text| <= |cap.name| + 2 && forall i :: 0 <= i < |text| ==> !IsSpace(text[i])
  {
  }

  /** An entry as it is printed, with or without a space before it, reads as itself. */
  lemma ReadPrinted(table: Table, rem: set<nat>, i: nat, spaces: string)
    requires GoodTable(table) && MarksAreNoNames(table) && i < |table| && (spaces == "" || spaces == " ")
    ensures var text := spaces + EntryText(table[i], rem);
      EndsInWord(text) && Read(table, text) == Printed(table, rem, i)
  {
    EntryTextIsWord(table[i], rem);
    LookupPrinted(table, rem, i);
    ReadWord(table, EntryText(table[i], rem), spaces);
  }

  /** It is enough that no name begins with a modifier.  The fold makes ^ and ~ the same. */
  lemma NoModifier(table: Table)
    requires GoodTable(table) && forall i :: 0 <= i < |table| ==> table[i].name[0] !in {'=', '~', '^'}
    ensures MarksAreNoNames(table)
  {
    forall i, k | 0 <= i < |table| && 0 <= k < |table|
      ensures MarkIsNoName(table[i], table[k])
    {
      var text := EntryText(table[i], {});
      assert Proto in table[i].flags || Sticky in table[i].flags ==> text[0] in {'~', '='};
      assert table[k].name[0] !in {'=', '~', '^'};
    }
  }

  lemma JoinNothing<A>(a: Option<seq<A>>)
    ensures Join(a, Some([])) == a && Join(Some([]), a) == a
  {
    if a.Some? {
      assert a.value + [] == a.value && [] + a.value == a.value;
    }
  }

  /** With something in the buffer, the lines read as what the buffer reads as and then the
      entries still to come. */
  lemma {:induction false} PrintReads(table: Table, set_: set<nat>, rem: set<nat>, clen: nat, i: nat, cur: string)
    requires GoodTable(table) && MarksAreNoNames(table) && i <= |table| && EndsInWord(cur)
    ensures ReadAll(table, Print(table, set_, rem, clen, i, cur)) == Join(Read(table, cur), Shown(table, set_, rem, i))
    decreases |table| - i, 1
  {
    if i == |table| {
      JoinNothing(Read(table, cur));
    } else if !Shows(table[i], set_, rem) {
      PrintReads(table, set_, rem, clen, i + 1, cur);
    } else {
      ReadPrinted(table, rem, i, " ");
      PrintStepReads(table, set_, rem, clen, i, cur, " " + EntryText(table[i], rem));
    }
  }

  lemma {:induction false} PrintStepReads(table: Table, set_: set<nat>, rem: set<nat>, clen: nat, i: nat, cur: string,
                                          text: string)
    requires GoodTable(table) && MarksAreNoNames(table) && i < |table| && EndsInWord(cur) && Shows(table[i], set_, rem)
    requires text == " " + EntryText(table[i], rem) && EndsInWord(text) && Read(table, text) == Printed(table, rem, i)
    ensures ReadAll(table, Print(table, set_, rem, clen, i, cur)) == Join(Read(table, cur), Shown(table, set_, rem, i))
    decreases |table| - i, 0
  {
    var now, rest := Printed(table, rem, i), Shown(table, set_, rem, i + 1);
    PrintStep(table, set_, rem, clen, i, cur, text);
    if BUFSIZE < clen + |cur| + |text| + 15 {
      PrintReads(table, set_, rem, clen, i + 1, text);
      ReadAllFirst(table, Line(true, cur), Print(table, set_, rem, clen, i + 1, text));
    } else {
      PrintReads(table, set_, rem, clen, i + 1, cur + text);
      ReadAppend(table, cur, text);
      JoinAssociative(Read(table, cur), now, rest);
    }
  }

  lemma PrintStep(table: Table, set_: set<nat>, rem: set<nat>, clen: nat, i: nat, cur: string, text: string)
    requires i < |table| && Shows(table[i], set_, rem) && EndsInWord(cur)
    requires text == " " + EntryText(table[i], rem) && EndsInWord(text)
    ensures Print(table, set_, rem, clen, i, cur) ==
            if BUFSIZE < clen + |cur| + |text| + 15 then [Line(true, cur)] + Print(table, set_, rem, clen, i + 1, text)
            else Print(table, set_, rem, clen, i + 1, cur + text)
    ensures EndsInWord(cur + text)
    ensures Shown(table, set_, rem, i) == Join(Printed(table, rem, i), Shown(table, set_, rem, i + 1))
  {
  }

  lemma ReadAllFirst(table: Table, line: Line, lines: seq<Line>)
    ensures ReadAll(table, [line] + lines) == Join(Read(table, line.caps), ReadAll(table, lines))
  {
    assert ([line] + lines)[1..] == lines;
  }

  /** The round trip: reading all lines of a printed list gives the entries it shows, in order.  It
      fails exactly when nothing is shown, or something is shown with a modifier. */
  lemma {:induction false} PrintedIsRead(table: Table, set_: set<nat>, rem: set<nat>, clen: nat, i: nat)
    requires GoodTable(table) && MarksAreNoNames(table) && i <= |table| && Fits(table, clen)
    ensures ReadAll(table, Print(table, set_, rem, clen, i, "")) ==
            if ShowsNone(table, set_, rem, i) then None else Shown(table, set_, rem, i)
    decreases |table| - i
  {
    if i == |table| {
      assert Read(table, "") == None;
    } else if !Shows(table[i], set_, rem) {
      PrintedIsRead(table, set_, rem, clen, i + 1);
    } else {
      FirstPrinted(table, set_, rem, clen, i);
    }
  }

  lemma FirstPrinted(table: Table, set_: set<nat>, rem: set<nat>, clen: nat, i: nat)
    requires GoodTable(table) && MarksAreNoNames(table) && i < |table| && Fits(table, clen) && Shows(table[i], set_, rem)
    ensures ReadAll(table, Print(table, set_, rem, clen, i, "")) == Shown(table, set_, rem, i)
  {
    var text := EntryText(table[i], rem);
    EntryTextIsWord(table[i], rem);
    assert "" + text == text;
    assert Print(table, set_, rem, clen, i, "") == Print(table, set_, rem, clen, i + 1, text);
    ReadPrinted(table, rem, i, "");
    PrintReads(table, set_, rem, clen, i + 1, text);
  }
}
