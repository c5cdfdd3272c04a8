/** What a client can rely on in a negotiation of capabilities: what the marks of a list say, that requests neither
    clear what is sticky nor set what is prohibited, and how lines are filled (modules/m_cap.c:174-405). */
module CapLaws {
  import opened Options
  import opened Text
  import opened Capab
  import opened CapPrint
  import opened CapSession

  // ----- what a list shows

  /** A word of a list, as a client reads it: cleared, or with a change that needs an acknowledgement, or to stay. */
  datatype Sight = Sight(neg: bool, proto: bool, sticky: bool, name: string)

  function See(word: string): Sight {
    if word != "" && word[0] == '-' then Sight(true, false, false, word[1..])
    else
      var proto := word != "" && word[0] == '~';
      var rest := if proto then word[1..] else word;
      var sticky := rest != "" && rest[0] == '=';
      Sight(false, proto, sticky, if sticky then rest[1..] else rest)
  }

  /** An entry shows its name, with ~ what has to be acknowledged and with = what is sticky, or a minus if it is
      cleared. */
  lemma EntryIsSeen(cap: Capability, rem: set<nat>)
    requires GoodName(cap.name) && cap.name[0] !in {'~', '='}
    ensures See(EntryText(cap, rem))
              == (if cap.bit in rem then Sight(true, false, false, cap.name)
                  else Sight(false, Proto in cap.flags, Sticky in cap.flags, cap.name))
  {
    var text, name := EntryText(cap, rem), cap.name;
    if cap.bit in rem {
      assert text[1..] == name;
    } else if Proto in cap.flags && Sticky in cap.flags {
      assert text == "~" + ("=" + name) && text[1..] == "=" + name && text[1..][1..] == name;
    } else if Proto in cap.flags {
      assert text == "~" + name && text[1..] == name;
    } else if Sticky in cap.flags {
      assert text == "=" + name && text[1..] == name;
    } else {
      assert text == name;
    }
  }

  /** The entries that are shown from number i on, as they are printed. */
  function Texts(table: Table, set_: set<nat>, rem: set<nat>, i: nat): seq<string>
    requires i <= |table|
    decreases |table| - i
  {
    if i == |table| then []
    else (if Shows(table[i], set_, rem) then [EntryText(table[i], rem)] else []) + Texts(table, set_, rem, i + 1)
  }

  /** An entry is shown if it is set or cleared; of an answer about nothing, if it is not hidden. */
  predicate IsShown(cap: Capability, set_: set<nat>, rem: set<nat>) {
    if set_ + rem == {} then Hidden !in cap.flags else cap.bit in set_ + rem
  }

  lemma ShownAlike(cap: Capability, set_: set<nat>, rem: set<nat>)
    ensures Shows(cap, set_, rem) <==> IsShown(cap, set_, rem)
  {
    assert set_ + rem == {} <==> set_ == {} && rem == {};
  }

  predicate ShownAt(table: Table, set_: set<nat>, rem: set<nat>, k: nat, text: string)
    requires k < |table|
  {
    IsShown(table[k], set_, rem) && text == EntryText(table[k], rem)
  }

  lemma TextsStep(table: Table, set_: set<nat>, rem: set<nat>, i: nat, text: string)
    requires i < |table|
    ensures text in Texts(table, set_, rem, i) <==> ShownAt(table, set_, rem, i, text) || text in Texts(table, set_, rem, i + 1)
  {
    ShownAlike(table[i], set_, rem);
    InEither(if Shows(table[i], set_, rem) then [EntryText(table[i], rem)] else [], Texts(table, set_, rem, i + 1), text);
  }

  lemma InEither<A>(a: seq<A>, b: seq<A>, x: A)
    ensures x in a + b <==> x in a || x in b
  {
  }

  lemma {:induction false} TextsAre(table: Table, set_: set<nat>, rem: set<nat>, i: nat, text: string)
    requires i <= |table|
    ensures text in Texts(table, set_, rem, i) <==> exists k :: i <= k < |table| && ShownAt(table, set_, rem, k, text)
    decreases |table| - i
  {
    if i < |table| {
      TextsStep(table, set_, rem, i, text);
      TextsAre(table, set_, rem, i + 1, text);
    }
  }

  /** The lines put together. */
  function Together(lines: seq<Line>): string {
    if lines == [] then "" else lines[0].caps + Together(lines[1..])
  }

  /** Each entry with a space before it. */
  function Led(texts: seq<string>): string {
    if texts == [] then "" else " " + texts[0] + Led(texts[1..])
  }

  lemma TogetherFirst(line: Line, lines: seq<Line>)
    ensures Together([line] + lines) == line.caps + Together(lines)
  {
    assert ([line] + lines)[1..] == lines;
  }

  lemma LedFirst(text: string, texts: seq<string>)
    ensures Led([text] + texts) == " " + text + Led(texts)
  {
    assert ([text] + texts)[1..] == texts;
  }

  /** The lines put together are the entries in the order of the table with single spaces between them; a line that goes
      on from another begins with the space. */
  lemma {:induction false} LinesHoldTexts(table: Table, set_: set<nat>, rem: set<nat>, clen: nat, i: nat, cur: string)
    requires i <= |table| && cur != ""
    ensures Together(Print(table, set_, rem, clen, i, cur)) == cur + Led(Texts(table, set_, rem, i))
    decreases |table| - i
  {
    if i == |table| {
      TogetherFirst(Line(false, cur), []);
      assert [Line(false, cur)] + [] == [Line(false, cur)];
    } else if !Shows(table[i], set_, rem) {
      LinesHoldTexts(table, set_, rem, clen, i + 1, cur);
      assert [] + Texts(table, set_, rem, i + 1) == Texts(table, set_, rem, i + 1);
    } else {
      var entry, later := EntryText(table[i], rem), Texts(table, set_, rem, i + 1);
      LedFirst(entry, later);
      if BUFSIZE < clen + |cur| + |" " + entry| + 15 {
        LinesHoldTexts(table, set_, rem, clen, i + 1, " " + entry);
        TogetherFirst(Line(true, cur), Print(table, set_, rem, clen, i + 1, " " + entry));
      } else {
        LinesHoldTexts(table, set_, rem, clen, i + 1, cur + (" " + entry));
      }
    }
  }

  lemma {:induction false} FirstHoldsTexts(table: Table, set_: set<nat>, rem: set<nat>, clen: nat, i: nat)
    requires GoodTable(table) && Fits(table, clen) && i <= |table|
    ensures
      var texts := Texts(table, set_, rem, i);
      Together(Print(table, set_, rem, clen, i, "")) == if texts == [] then "" else texts[0] + Led(texts[1..])
    decreases |table| - i
  {
    if i == |table| {
      TogetherFirst(Line(false, ""), []);
      assert [Line(false, "")] + [] == [Line(false, "")];
    } else if !Shows(table[i], set_, rem) {
      FirstHoldsTexts(table, set_, rem, clen, i + 1);
      assert [] + Texts(table, set_, rem, i + 1) == Texts(table, set_, rem, i + 1);
    } else {
      FirstShown(table, set_, rem, clen, i);
      LinesHoldTexts(table, set_, rem, clen, i + 1, EntryText(table[i], rem));
      TextsSplit(EntryText(table[i], rem), Texts(table, set_, rem, i + 1));
    }
  }

  lemma TextsSplit(entry: string, later: seq<string>)
    ensures ([entry] + later)[0] == entry && ([entry] + later)[1..] == later
  {
  }

  lemma FirstShown(table: Table, set_: set<nat>, rem: set<nat>, clen: nat, i: nat)
    requires GoodTable(table) && Fits(table, clen) && i < |table| && Shows(table[i], set_, rem)
    ensures EntryText(table[i], rem) != ""
    ensures Print(table, set_, rem, clen, i, "") == Print(table, set_, rem, clen, i + 1, EntryText(table[i], rem))
  {
    EntryTextIsWord(table[i], rem);
    assert "" + EntryText(table[i], rem) == EntryText(table[i], rem);
  }

  /** What send_caplist() says, in all its lines. */
  lemma ListSays(table: Table, set_: set<nat>, rem: set<nat>, clen: nat)
    requires GoodTable(table) && Fits(table, clen)
    ensures
      var texts := Texts(table, set_, rem, 0);
      Together(Print(table, set_, rem, clen, 0, "")) == if texts == [] then "" else texts[0] + Led(texts[1..])
  {
    FirstHoldsTexts(table, set_, rem, clen, 0);
  }

  /** The first word of a line that goes on. */
  lemma {:induction false} FirstOfPrint(table: Table, set_: set<nat>, rem: set<nat>, clen: nat, i: nat, cur: string, word: string)
    requires i <= |table| && cur != "" && word != "" && ' ' !in word
    requires cur == " " + word || (|word| + 1 < |cur| && cur[..|word| + 2] == " " + word + " ")
    ensures
      var lines := Print(table, set_, rem, clen, i, cur);
      lines != [] && |lines[0].caps| > 0 && lines[0].caps[0] == ' ' && Before(lines[0].caps[1..], ' ') == word
    decreases |table| - i
  {
    if i == |table| || (Shows(table[i], set_, rem) && BUFSIZE < clen + |cur| + |" " + EntryText(table[i], rem)| + 15) {
      WordOfLine(cur, word);
    } else if !Shows(table[i], set_, rem) {
      FirstOfPrint(table, set_, rem, clen, i + 1, cur, word);
    } else {
      var more := cur + (" " + EntryText(table[i], rem));
      assert more[..|word| + 2] == " " + word + " ";
      FirstOfPrint(table, set_, rem, clen, i + 1, more, word);
    }
  }

  lemma WordOfLine(cur: string, word: string)
    requires ' ' !in word && (cur == " " + word || (|word| + 1 < |cur| && cur[..|word| + 2] == " " + word + " "))
    ensures cur[0] == ' ' && Before(cur[1..], ' ') == word
  {
    BeforeNone(word, ' ');
    if cur == " " + word {
      assert cur[1..] == word;
    } else {
      assert cur[1..] == word + [' '] + cur[|word| + 2..];
      BeforeFirst(word, ' ', cur[|word| + 2..]);
    }
  }

  /** A line is ended only when the next entry does not fit into the buffer behind it. */
  lemma {:induction false} LinesAreFull(table: Table, set_: set<nat>, rem: set<nat>, clen: nat, i: nat, cur: string, k: nat)
    requires GoodTable(table) && i <= |table| && cur != "" && k + 1 < |Print(table, set_, rem, clen, i, cur)|
    ensures
      var lines := Print(table, set_, rem, clen, i, cur);
      && |lines[k + 1].caps| > 0
      && 512 < clen + |lines[k].caps| + 1 + |Before(lines[k + 1].caps[1..], ' ')| + 15
    decreases |table| - i
  {
    if i < |table| {
      var text := " " + EntryText(table[i], rem);
      if !Shows(table[i], set_, rem) {
        LinesAreFull(table, set_, rem, clen, i + 1, cur, k);
      } else if BUFSIZE < clen + |cur| + |text| + 15 {
        var rest := Print(table, set_, rem, clen, i + 1, text);
        EntryHasNoSpace(table[i], rem);
        FirstOfPrint(table, set_, rem, clen, i + 1, text, EntryText(table[i], rem));
        assert ([Line(true, cur)] + rest)[k + 1] == rest[k];
        if k > 0 {
          LinesAreFull(table, set_, rem, clen, i + 1, text, k - 1);
          assert ([Line(true, cur)] + rest)[k] == rest[k - 1];
        }
      } else {
        LinesAreFull(table, set_, rem, clen, i + 1, cur + text, k);
      }
    }
  }

  lemma {:induction false} ListIsFull(table: Table, set_: set<nat>, rem: set<nat>, clen: nat, i: nat, k: nat)
    requires GoodTable(table) && Fits(table, clen) && i <= |table| && k + 1 < |Print(table, set_, rem, clen, i, "")|
    ensures
      var lines := Print(table, set_, rem, clen, i, "");
      && |lines[k + 1].caps| > 0
      && 512 < clen + |lines[k].caps| + 1 + |Before(lines[k + 1].caps[1..], ' ')| + 15
    decreases |table| - i
  {
    if i < |table| {
      if Shows(table[i], set_, rem) {
        FirstShown(table, set_, rem, clen, i);
        LinesAreFull(table, set_, rem, clen, i + 1, EntryText(table[i], rem), k);
      } else {
        ListIsFull(table, set_, rem, clen, i + 1, k);
      }
    }
  }

  lemma EntryHasNoSpace(cap: Capability, rem: set<nat>)
    requires GoodName(cap.name)
    ensures EntryText(cap, rem) != "" && ' ' !in EntryText(cap, rem)
  {
    EntryTextIsWord(cap, rem);
  }

  // ----- what a request can do

  /** A granted request clears nothing that is sticky, sets nothing that is prohibited, and does nothing to other
      bits. */
  lemma {:induction false} GrantedKeeps(table: Table, es: seq<Element>, only: set<nat>, m: set<nat>, k: nat)
    requires GoodTable(table) && Within(table, es) && k < |table|
    requires forall e :: e in es ==> !Refuses(table[e.cap], e.neg)
    ensures Sticky in table[k].flags && table[k].bit in m ==> table[k].bit in Follow(table, es, only, m)
    ensures Prohibit in table[k].flags && table[k].bit !in m ==> table[k].bit !in Follow(table, es, only, m)
    decreases es
  {
    if es != [] {
      var e, b := es[0], {table[es[0].cap].bit} * only;
      assert e in es;
      assert table[e.cap].bit == table[k].bit ==> e.cap == k;
      GrantedKeeps(table, es[1..], only, if e.neg then m - b else m + b, k);
    }
  }

  /** What a granted request names is set or cleared as it last says. */
  lemma RequestKeeps(table: Table, list: string, m: set<nat>, k: nat)
    requires GoodTable(table) && Granted(table, list).Some? && k < |table|
    ensures
      var es := Granted(table, list).value;
      && (Sticky in table[k].flags && table[k].bit in m ==> table[k].bit in Follow(table, es, Bits(table, 0), m))
      && (Prohibit in table[k].flags && table[k].bit !in m ==> table[k].bit !in Follow(table, es, Bits(table, 0), m))
  {
    GrantedKeeps(table, Granted(table, list).value, Bits(table, 0), m, k);
  }

  /** A request for one capability is granted exactly if it may be set; to clear it, if it is not sticky. */
  lemma OneIsGranted(table: Table, name: string, k: nat)
    requires GoodTable(table) && k < |table| && SameFold(name, table[k].name) && IsToken(name)
    ensures Granted(table, name) == if Prohibit in table[k].flags then None else Some([Element(false, k)])
    ensures Granted(table, "-" + name) == if Sticky in table[k].flags then None else Some([Element(true, k)])
  {
    OneIsRead(table, name, k);
    OneOrNone(table, name, Element(false, k));
    OneOrNone(table, "-" + name, Element(true, k));
  }

  lemma OneIsRead(table: Table, name: string, k: nat)
    requires GoodTable(table) && k < |table| && SameFold(name, table[k].name) && IsToken(name)
    ensures Read(table, name) == Some([Element(false, k)]) && Read(table, "-" + name) == Some([Element(true, k)])
  {
    LookupIs(table, name, k);
    ReadWord(table, name, "");
    ReadWord(table, "-" + name, "");
    assert "" + name == name && "" + ("-" + name) == "-" + name && ("-" + name)[1..] == name;
  }

  lemma OneOrNone(table: Table, list: string, e: Element)
    requires Read(table, list) == Some([e])
    ensures Granted(table, list) == if Refuses(table[e.cap], e.neg) then None else Some([e])
  {
    assert e in [e];
  }

  /** A word without spaces or sign. */
  predicate IsToken(name: string) {
    name != "" && name[0] != '-' && forall i :: 0 <= i < |name| ==> !IsSpace(name[i])
  }

  /** A longer request is read word by word. */
  lemma MoreIsRead(table: Table, list: string, sign: string, name: string, k: nat)
    requires GoodTable(table) && EndsInWord(list) && k < |table| && SameFold(name, table[k].name) && IsToken(name)
    requires sign in {"", "-"}
    ensures Read(table, list + (" " + (sign + name))) == Join(Read(table, list), Some([Element(sign == "-", k)]))
  {
    var word := sign + name;
    LookupIs(table, name, k);
    ReadWord(table, word, " ");
    assert sign == "-" ==> word[1..] == name;
    assert sign == "" ==> word == name;
    assert EndsInWord(" " + word);
    ReadAppend(table, list, " " + word);
  }

  // ----- what is active

  /** What has to be acknowledged becomes active by no request, and stays active through all. */
  lemma {:induction false} ProtoWaits(table: Table, es: seq<Element>, m: set<nat>, k: nat)
    requires GoodTable(table) && Within(table, es) && k < |table| && Proto in table[k].flags
    ensures table[k].bit in Follow(table, es, NonProto(table), m) <==> table[k].bit in m
    decreases es
  {
    if es != [] {
      var e, b := es[0], {table[es[0].cap].bit} * NonProto(table);
      assert table[k].bit !in NonProto(table);
      ProtoWaits(table, es[1..], if e.neg then m - b else m + b, k);
    }
  }

  /** All others become active as they are requested. */
  lemma {:induction false} OthersAreActive(table: Table, es: seq<Element>, m: set<nat>, active: set<nat>, k: nat)
    requires GoodTable(table) && Within(table, es) && k < |table| && Proto !in table[k].flags
    requires table[k].bit in m <==> table[k].bit in active
    ensures table[k].bit in Follow(table, es, NonProto(table), active) <==> table[k].bit in Follow(table, es, Bits(table, 0), m)
    decreases es
  {
    if es != [] {
      var e, bit := es[0], table[es[0].cap].bit;
      var b, c := {bit} * NonProto(table), {bit} * Bits(table, 0);
      assert table[k].bit in NonProto(table) && table[k].bit in Bits(table, 0);
      OthersAreActive(table, es[1..], if e.neg then m - c else m + c, if e.neg then active - b else active + b, k);
    }
  }

  /** CLEAR leaves of the table exactly what is sticky, or was not active. */
  lemma ClearLeavesSticky(table: Table, client: set<nat>, active: set<nat>, k: nat)
    requires GoodTable(table) && k < |table|
    ensures
      (table[k].bit in client - active * Clearable(table))
        <==> (table[k].bit in client && (Sticky in table[k].flags || table[k].bit !in active))
  {
    if table[k].bit in Clearable(table) {
      var j :| 0 <= j < |table| && Sticky !in table[j].flags && table[j].bit == table[k].bit;
      assert j == k;
    }
  }
}
