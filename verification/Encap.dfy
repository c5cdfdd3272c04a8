/** ENCAP: writing the parameters of a message out again for the next servers (modules/m_encap.c), and how a
    server reads them back (string_to_array() in src/parse.c). */
module Encap {
  import opened Options
  import opened Seqs
  import opened Text

  const MAXPARA: nat := 15
  const IRCD_BUFSIZE: nat := 512

  // ----- reading

  function SkipSpaces(s: string): (r: string)
    ensures |r| <= |s| && (r != "" ==> r[0] != ' ')
  {
    if s != "" && s[0] == ' ' then SkipSpaces(s[1..]) else s
  }

  function Unmarked(s: string): string {
    if s != "" && s[0] == ':' then s[1..] else s
  }

  /** The parameters of a text that starts with one, when `room` of them can be taken off before the last. */
  function ReadFrom(s: string, room: nat): seq<string>
    requires s != "" && room > 0
    decreases |s|, 0
  {
    var token := Before(s, ' ');
    if s[0] == ':' then [s[1..]]
    else if |token| == |s| then [token]
    else [token] + ReadAfter(s[|token| + 1..], room)
  }

  /** The parameters behind one of them and its space. */
  function ReadAfter(rest: string, room: nat): seq<string>
    requires room > 0
    decreases |rest|, 1
  {
    var next := SkipSpaces(rest);
    if next == "" then [] else if room > 1 then ReadFrom(next, room - 1) else [Unmarked(rest)]
  }

  /** string_to_array(): the parameters of a message, parv[1] and on. */
  function ReadParams(s: string): seq<string> {
    var t := SkipSpaces(s);
    if t == "" then [] else ReadFrom(t, MAXPARA - 2)
  }

  datatype Message = Message(prefix: string, command: string, params: seq<string>)

  /** parse(), for a line with a prefix. */
  function ReadMessage(line: string): Option<Message> {
    if line == "" || line[0] != ':' then None
    else
      var prefix := Before(line[1..], ' ');
      Some(ReadCommand(prefix, SkipSpaces(line[1 + |prefix|..])))
  }

  function ReadCommand(prefix: string, text: string): Message {
    var command := Before(text, ' ');
    Message(prefix, command, if |command| == |text| then [] else ReadParams(text[|command| + 1..]))
  }

  method SkipSpacesFrom(s: string, from: nat) returns (at: nat)
    requires from <= |s|
    ensures from <= at <= |s| && s[at..] == SkipSpaces(s[from..])
  {
    at := from;
    while at < |s| && s[at] == ' '
      invariant from <= at <= |s| && SkipSpaces(s[at..]) == SkipSpaces(s[from..])
    {
      assert s[at..][1..] == s[at + 1..];
      at := at + 1;
    }
  }

  /** string_to_array() */
  method StringToArray(s: string) returns (parv: seq<string>)
    ensures parv == ReadParams(s)
  {
    assert s[0..] == s;
    var buf := SkipSpacesFrom(s, 0);
    if buf == |s| {
      return [];
    }
    parv := [];
    var x := 1;
    var done := false;
    assert [] + ReadParams(s) == ReadParams(s);
    while !done
      invariant buf <= |s| && 1 <= x <= MAXPARA - 1
      invariant done ==> parv == ReadParams(s)
      invariant !done ==> buf < |s| && s[buf] != ' ' && x < MAXPARA - 1
      invariant !done ==> parv + ReadFrom(s[buf..], MAXPARA - 1 - x) == ReadParams(s)
      decreases !done, |s| - buf
    {
      var more, next;
      more, next, done := NextParameter(s, buf, MAXPARA - 1 - x);
      if !done {
        Regroup(parv, more, ReadFrom(s[next..], MAXPARA - 1 - (x + 1)));
      }
      parv, buf, x := parv + more, next, x + 1;
    }
  }

  /** One turn of the loop: the next parameter, or all that are left. */
  method NextParameter(s: string, buf: nat, room: nat) returns (more: seq<string>, next: nat, done: bool)
    requires buf < |s| && s[buf] != ' ' && room > 0
    ensures done ==> more == ReadFrom(s[buf..], room) && next == |s|
    ensures !done ==> room > 1 && buf < next < |s| && s[next] != ' '
    ensures !done ==> more + ReadFrom(s[next..], room - 1) == ReadFrom(s[buf..], room)
  {
    next, done := |s|, true;
    if s[buf] == ':' {
      DropDrop(s, buf, 1);
      return [s[buf + 1..]], next, done;
    }
    var p := StrChr(s, buf, ' ');
    TokenAt(s, buf, p);
    more := [s[buf..p]];
    if p < |s| {
      DropDrop(s, buf, p - buf + 1);
      var rest;
      rest, next, done := AfterSpace(s, p + 1, room);
      more := more + rest;
    }
  }

  method AfterSpace(s: string, p: nat, room: nat) returns (rest: seq<string>, next: nat, done: bool)
    requires p <= |s| && room > 0
    ensures done ==> rest == ReadAfter(s[p..], room) && next == |s|
    ensures !done ==> room > 1 && p <= next < |s| && s[next] != ' ' && rest == []
    ensures !done ==> ReadFrom(s[next..], room - 1) == ReadAfter(s[p..], room)
  {
    rest, next, done := [], |s|, true;
    var skipped := SkipSpacesFrom(s, p);
    if skipped < |s| {
      if room > 1 {
        next, done := skipped, false;
      } else {
        rest := [Unmarked(s[p..])];
      }
    }
  }

  lemma TokenAt(s: string, buf: nat, p: nat)
    requires buf <= p <= |s| && p == buf + |Before(s[buf..], ' ')|
    ensures Before(s[buf..], ' ') == s[buf..p]
  {
    DropTake(s, buf, p - buf);
  }

  // ----- writing

  /** The text of the last parameter: bare when only the subcommand is left to send. */
  function LastText(ps: seq<string>): string
    requires ps != []
  {
    if |ps| == 2 then ps[1] else ":" + ps[|ps| - 1]
  }

  /** The parameters as they are sent on. */
  function Written(ps: seq<string>): string
    requires ps != []
  {
    Spaced(ps[..|ps| - 1]) + LastText(ps)
  }

  /** Whether some parameter before the last ends behind the buffer. */
  predicate TooLong(ps: seq<string>)
    requires ps != []
  {
    |Spaced(ps[..|ps| - 1])| >= IRCD_BUFSIZE
  }

  /** Whether the text fits the buffer by the count of ms_encap(), which has no room for the mark. */
  predicate FitsBuffer(ps: seq<string>)
    requires ps != []
  {
    |Spaced(ps[..|ps| - 1])| + |ps[|ps| - 1]| < IRCD_BUFSIZE
  }

  /** The text that is sent on: a text that does not fit is cut. */
  function SentText(ps: seq<string>): string
    requires ps != []
  {
    if FitsBuffer(ps) then Written(ps) else Cut(Written(ps), IRCD_BUFSIZE - 1)
  }

  /** The line for the next servers. */
  function LineOf(source: string, text: string): string {
    ":" + source + " ENCAP " + text
  }

  /** What happens to an ENCAP: the text sent on, and the arguments the local handler is called with. */
  datatype Result = Result(sent: Option<string>, called: Option<seq<string>>)

  /** ms_encap(): `mine` says whether parv[1] matches this server's name, `handled` whether parv[2] is a
      command with a handler for ENCAP. */
  method MsEncap(parv: seq<string>, mine: bool, handled: bool) returns (r: Result)
    requires 3 <= |parv| <= MAXPARA
    ensures
      var ps := parv[1..];
      if |Spaced(ps[..|ps| - 1])| >= 512 then r == Result(None, None)
      else
        && r.sent == Some(SentText(ps))
        && SentText(ps) == (if |Spaced(ps[..|ps| - 1])| + |ps[|ps| - 1]| < 512 then Written(ps) else Cut(Written(ps), 511))
        && r.called == if mine && handled then Some([parv[0]] + ps[2..]) else None
  {
    ghost var ps := parv[1..];
    var buffer := "";
    var i := 1;
    assert ps[..0] == [];
    while i < |parv| - 1
      invariant 1 <= i < |parv| && buffer == Spaced(ps[..i - 1]) && |buffer| < IRCD_BUFSIZE
    {
      SpacedSnoc(ps, i - 1);
      SpacedGrows(ps, i, |ps| - 1);
      if |buffer| + (|parv[i]| + 1) >= IRCD_BUFSIZE {
        return Result(None, None);
      }
      buffer := buffer + (parv[i] + " ");
      i := i + 1;
    }
    var before := |buffer|;
    buffer := buffer + if |parv| == 3 then parv[2] else ":" + parv[|parv| - 1];
    if before + |parv[i]| >= IRCD_BUFSIZE {
      buffer := buffer[..IRCD_BUFSIZE - 1];
    }
    if !mine || !handled {
      return Result(Some(buffer), None);
    }
    var args := parv[2..];
    args := args[0 := parv[0]];
    assert args == [parv[0]] + ps[2..];
    r := Result(Some(buffer), Some(args));
  }

  lemma SpacedSnoc(ps: seq<string>, i: nat)
    requires i < |ps|
    ensures Spaced(ps[..i + 1]) == Spaced(ps[..i]) + (ps[i] + " ")
  {
    SpacedConcat(ps[..i], [ps[i]]);
    assert ps[..i + 1] == ps[..i] + [ps[i]];
    assert Spaced([ps[i]]) == ps[i] + " " + "";
  }

  lemma SpacedGrows(ps: seq<string>, i: nat, j: nat)
    requires i <= j <= |ps|
    ensures |Spaced(ps[..i])| <= |Spaced(ps[..j])|
  {
    assert ps[..j] == ps[..i] + ps[i..j];
    SpacedConcat(ps[..i], ps[i..j]);
  }

  // ----- the round trip

  /** A parameter that can stand before others: not empty, no space in it and no colon before it. */
  predicate Middle(p: string) {
    p != "" && ' ' !in p && p[0] != ':'
  }

  lemma MiddleIsToken(p: string, rest: string)
    requires Middle(p)
    ensures Before(p + " " + rest, ' ') == p && (p + " " + rest)[|p| + 1..] == rest
    ensures Before(p, ' ') == p
  {
    BeforeFirst(p, ' ', rest);
    BeforeNone(p, ' ');
    assert p + " " + rest == p + [' '] + rest;
  }

  lemma StartsAParameter(ps: seq<string>, last: string)
    requires forall i :: 0 <= i < |ps| ==> Middle(ps[i])
    ensures
      var text := Spaced(ps) + ":" + last;
      text != "" && text[0] != ' ' && SkipSpaces(text) == text && (ps == [] ==> text[0] == ':' && text[1..] == last)
  {
    if ps != [] {
      var p := ps[0];
      assert Middle(p) && p[0] in p;
      assert Spaced(ps)[0] == p[0];
    }
  }

  /** Middles and a marked last parameter are read back. */
  lemma {:induction false} MarkedAreRead(ps: seq<string>, last: string, room: nat)
    requires 1 <= room && |ps| <= room && forall i :: 0 <= i < |ps| ==> Middle(ps[i])
    ensures Spaced(ps) + ":" + last != "" && ReadFrom(Spaced(ps) + ":" + last, room) == ps + [last]
    decreases |ps|
  {
    var text := Spaced(ps) + ":" + last;
    if ps == [] {
      assert text[0] == ':' && text[1..] == last;
    } else {
      var rest := Spaced(ps[1..]) + ":" + last;
      assert text == ps[0] + " " + rest;
      MiddleIsToken(ps[0], rest);
      assert text[0] == ps[0][0];
      StartsAParameter(ps[1..], last);
      if room > 1 {
        MarkedAreRead(ps[1..], last, room - 1);
        Regroup([ps[0]], ps[1..], [last]);
      } else {
        assert rest[1..] == last;
      }
      assert ps == [ps[0]] + ps[1..];
    }
  }

  /** What a server reads of the parameters sent on are the parameters, exactly if there were more than two or
      the second could stand before others. */
  lemma ParametersAreKept(ps: seq<string>)
    requires 2 <= |ps| < MAXPARA && forall i :: 0 <= i < |ps| - 1 ==> Middle(ps[i])
    ensures ReadParams(Written(ps)) == ps <==> |ps| > 2 || Middle(ps[1])
  {
    var n := |ps| - 1;
    var before, last := ps[..n], ps[n];
    assert ps == before + [last];
    if |ps| > 2 {
      assert Written(ps) == Spaced(before) + ":" + last;
      StartsAParameter(before, last);
      MarkedAreRead(before, last, MAXPARA - 2);
    } else {
      BareIsRead(ps[0], ps[1]);
      assert before == [ps[0]];
      assert Spaced(before) == ps[0] + " " + "";
      assert Written(ps) == ps[0] + " " + ps[1];
    }
  }

  /** Two parameters without a mark. */
  lemma BareIsRead(a: string, b: string)
    requires Middle(a)
    ensures ReadParams(a + " " + b) == [a, b] <==> Middle(b)
  {
    var text := a + " " + b;
    MiddleIsToken(a, b);
    assert text[0] == a[0] && a[0] in a;
    var next := SkipSpaces(b);
    assert ReadParams(text) == [a] + ReadAfter(b, MAXPARA - 2);
    if next != "" {
      var more := ReadFrom(next, MAXPARA - 3);
      FirstParameter(next, MAXPARA - 3);
      assert ReadParams(text) == [a] + more && ([a] + more)[1] == more[0];
      if Middle(b) {
        BeforeNone(b, ' ');
        assert b[0] in b;
        assert more == [b];
      }
    } else {
      assert ReadParams(text) == [a];
    }
  }

  /** A parameter is shorter than the text it was read from, or could stand before others. */
  lemma FirstParameter(s: string, room: nat)
    requires s != "" && s[0] != ' ' && room > 0
    ensures ReadFrom(s, room) != [] && (|ReadFrom(s, room)[0]| < |s| || Middle(ReadFrom(s, room)[0]))
  {
    if ' ' in s {
      BeforeSome(s, ' ');
    } else {
      BeforeNone(s, ' ');
    }
  }

  /** What is read is no longer than the text. */
  lemma {:induction false} ReadIsNoLonger(s: string, room: nat)
    requires s != "" && room > 0
    ensures |Spaced(ReadFrom(s, room))| <= |s| + 1
    decreases |s|
  {
    var token := Before(s, ' ');
    if s[0] == ':' {
      OneSpaced(s[1..]);
    } else if |token| == |s| {
      OneSpaced(token);
    } else {
      var rest := s[|token| + 1..];
      var next, more := SkipSpaces(rest), ReadAfter(rest, room);
      OneSpaced(token);
      SpacedConcat([token], more);
      if next != "" && room > 1 {
        ReadIsNoLonger(next, room - 1);
      } else if next != "" {
        OneSpaced(Unmarked(rest));
      }
    }
  }

  lemma OneSpaced(p: string)
    ensures |Spaced([p])| == |p| + 1
  {
    assert Spaced([p]) == p + " " + Spaced([p][1..]);
  }

  lemma AllSpaced(ps: seq<string>)
    requires ps != []
    ensures |Spaced(ps)| == |Spaced(ps[..|ps| - 1])| + |ps[|ps| - 1]| + 1
  {
    SpacedSnoc(ps, |ps| - 1);
    assert ps[..|ps|] == ps;
  }

  /** What is sent on is read as the parameters exactly if besides it was not cut. */
  lemma SentIsKept(ps: seq<string>)
    requires 2 <= |ps| < MAXPARA && !TooLong(ps) && forall i :: 0 <= i < |ps| - 1 ==> Middle(ps[i])
    ensures ReadParams(SentText(ps)) == ps <==> FitsBuffer(ps) && (|ps| > 2 || Middle(ps[1]))
  {
    ParametersAreKept(ps);
    if !FitsBuffer(ps) {
      var text := SkipSpaces(SentText(ps));
      AllSpaced(ps);
      if text != "" {
        ReadIsNoLonger(text, MAXPARA - 2);
      }
    }
  }

  /** A whole line comes through: every server that an ENCAP is sent on to reads the sender, the command and
      the parameters that this one has read, and calls its handler with the same arguments. */
  lemma LineIsKept(source: string, ps: seq<string>)
    requires 2 <= |ps| < MAXPARA && !TooLong(ps) && forall i :: 0 <= i < |ps| - 1 ==> Middle(ps[i])
    requires ' ' !in source
    ensures ReadMessage(LineOf(source, SentText(ps))) == Some(Message(source, "ENCAP", ps))
       <==> FitsBuffer(ps) && (|ps| > 2 || Middle(ps[1]))
  {
    MessageIsRead(source, SentText(ps));
    SentIsKept(ps);
  }

  lemma MessageIsRead(source: string, text: string)
    requires ' ' !in source
    ensures ReadMessage(LineOf(source, text)) == Some(Message(source, "ENCAP", ReadParams(text)))
  {
    CommandIsRead(source, text);
    PrefixIsRead(source, "ENCAP " + text);
    assert LineOf(source, text) == ":" + source + " " + ("ENCAP " + text);
  }

  lemma PrefixIsRead(source: string, after: string)
    requires ' ' !in source && after != "" && after[0] != ' '
    ensures ReadMessage(":" + source + " " + after) == Some(ReadCommand(source, after))
  {
    var line := ":" + source + " " + after;
    assert line[1..] == source + [' '] + after;
    BeforeFirst(source, ' ', after);
    BeforeNone(source, ' ');
    assert line[1 + |source|..] == [' '] + after;
    assert ([' '] + after)[1..] == after;
    assert SkipSpaces([' '] + after) == after;
  }

  lemma CommandIsRead(source: string, text: string)
    ensures ReadCommand(source, "ENCAP " + text) == Message(source, "ENCAP", ReadParams(text))
  {
    assert "ENCAP " + text == "ENCAP" + [' '] + text;
    BeforeFirst("ENCAP", ' ', text);
    BeforeNone("ENCAP", ' ');
    assert ("ENCAP " + text)[6..] == text;
  }
}
