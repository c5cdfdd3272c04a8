/** The MAP command: the recursive printer that draws the server tree through one shared buffer
    (modules/m_map.c:110-195), the drawing it makes, and a reader that undoes the drawing. */
module ServerMap {
  import opened Text

  /** A server with its name, its id (empty for none), the text of its users field, and the
      servers behind it. */
  datatype Server = Server(name: string, id: string, users: string, servers: seq<Server>)

  function Label(t: Server, admin: bool): string {
    t.name + if admin && t.id != "" then "[" + t.id + "]" else ""
  }

  function Dashes(n: int): (s: string)
    ensures |s| == if n < 0 then 0 else n
    ensures forall i :: 0 <= i < |s| ==> s[i] == '-'
  {
    seq(if n < 0 then 0 else n, i => '-')
  }

  /** What follows the connectors on a server's line, which starts at column `start`. */
  function Body(t: Server, admin: bool, start: nat): string {
    var tag := Label(t, admin);
    tag + " " + Dashes(50 - (start + |tag| + 1)) + " |" + " Users: " + t.users
  }

  // ----- the drawing

  /** The columns below a server: blank below the last of its siblings, a bar below the others. */
  function Columns(lasts: seq<bool>): (s: string)
    ensures |s| == 4 * |lasts|
  {
    if lasts == [] then "" else Columns(lasts[..|lasts| - 1]) + if lasts[|lasts| - 1] then "    " else " |  "
  }

  function Connector(last: bool): string {
    if last then " `- " else " |- "
  }

  /** What precedes a server on its own line; `lasts` says of it and its ancestors below the root
      which are the last of their siblings. */
  function Prefix(lasts: seq<bool>): (s: string)
    ensures |s| == 4 * |lasts|
  {
    if lasts == [] then "" else Columns(lasts[..|lasts| - 1]) + Connector(lasts[|lasts| - 1])
  }

  function Draw(t: Server, admin: bool, lasts: seq<bool>): seq<string>
    decreases t
  {
    [Prefix(lasts) + Body(t, admin, 4 * |lasts|)] + DrawFrom(t.servers, admin, lasts, 0)
  }

  /** The lines of the servers from number i on. */
  function DrawFrom(ts: seq<Server>, admin: bool, lasts: seq<bool>, i: nat): seq<string>
    requires i <= |ts|
    decreases ts, |ts| - i
  {
    if i == |ts| then [] else Draw(ts[i], admin, lasts + [i == |ts| - 1]) + DrawFrom(ts, admin, lasts, i + 1)
  }

  // ----- the printer

  /** No NUL inside the texts, and room for every line in a buffer of `size`. */
  predicate Printable(t: Server, admin: bool, start: nat, size: nat)
    decreases t
  {
    && '\0' !in t.name && '\0' !in t.id && '\0' !in t.users
    && start + |Body(t, admin, start)| < size
    && forall i :: 0 <= i < |t.servers| ==> start + 4 < size && Printable(t.servers[i], admin, start + 4, size)
  }

  function IndexOfNul(s: string): (i: nat)
    requires '\0' in s
    ensures i < |s| && s[i] == '\0' && '\0' !in s[..i]
  {
    if s[0] == '\0' then 0 else 1 + IndexOfNul(s[1..])
  }

  /** The NUL-terminated string at the start of a buffer. */
  function CString(s: string): string {
    if '\0' in s then s[..IndexOfNul(s)] else s
  }

  lemma CStringIs(s: string, text: string)
    requires |text| < |s| && s[..|text|] == text && s[|text|] == '\0' && '\0' !in text
    ensures CString(s) == text
  {
    var i := IndexOfNul(s);
    assert forall j :: 0 <= j < |text| ==> s[j] == s[..|text|][j] != '\0';
    assert forall j :: 0 <= j < i ==> s[j] == s[..i][j] != '\0';
  }

  /** sprintf(): the text and a NUL after it. */
  method Sprintf(buf: array<char>, at: nat, text: string) returns (l: nat)
    requires at + |text| < buf.Length
    modifies buf
    ensures l == |text| && buf[..at + l] == old(buf[..at]) + text && buf[at + l] == '\0'
  {
    for i := 0 to |text|
      invariant buf[..at + i] == old(buf[..at]) + text[..i]
    {
      buf[at + i] := text[i];
    }
    buf[at + |text|] := '\0';
    l := |text|;
  }

  /** *pb++ = c */
  method PutChar(buf: array<char>, at: nat, c: char) returns (pb: nat)
    requires at < buf.Length
    modifies buf
    ensures pb == at + 1 && buf[..pb] == old(buf[..at]) + [c]
  {
    buf[at] := c;
    pb := at + 1;
  }

  /** The loop that fills the line up to column 50. */
  method PutDashes(buf: array<char>, at: nat, dashes: int) returns (pb: nat)
    requires at + |Dashes(dashes)| <= buf.Length
    modifies buf
    ensures pb == at + |Dashes(dashes)| && buf[..pb] == old(buf[..at]) + Dashes(dashes)
  {
    pb := at;
    var i := 0;
    while i < dashes
      invariant 0 <= i && (i <= dashes || i == 0)
      invariant pb == at + i && buf[..pb] == old(buf[..at]) + Dashes(dashes)[..i]
    {
      buf[pb] := '-';
      pb, i := pb + 1, i + 1;
    }
  }

  /** What dump_map() does to the columns before its own when the server has servers behind it. */
  function Blanked(s: string): (r: string)
    ensures |r| == |s|
  {
    if |s| < 4 then s
    else s[..|s| - 3] + [if s[|s| - 3] == '`' then ' ' else s[|s| - 3], ' '] + s[|s| - 1..]
  }

  lemma BlankedPrefix(lasts: seq<bool>)
    ensures Blanked(Prefix(lasts)) == Columns(lasts)
  {
    if lasts != [] {
      BlankedConnector(Columns(lasts[..|lasts| - 1]), lasts[|lasts| - 1]);
    }
  }

  lemma BlankedConnector(above: string, last: bool)
    ensures Blanked(above + Connector(last)) == above + if last then "    " else " |  "
  {
    var s := above + Connector(last);
    assert s[..|s| - 3] == above + " ";
    assert s[|s| - 1..] == " ";
  }

  /** The name, and for a network administrator the id. */
  method PutLabel(t: Server, admin: bool, buf: array<char>, at: nat) returns (pb: nat)
    requires at + |Label(t, admin)| < buf.Length
    modifies buf
    ensures pb == at + |Label(t, admin)| && buf[..pb] == old(buf[..at]) + Label(t, admin)
  {
    var l := Sprintf(buf, at, t.name);
    pb := at + l;
    if admin && t.id != "" {
      l := Sprintf(buf, pb, "[" + t.id + "]");
      pb := pb + l;
    }
  }

  lemma BodyParts(own: string, t: Server, admin: bool, start: nat)
    ensures var dashes := Dashes(50 - (start + |Label(t, admin)| + 1));
      own + Label(t, admin) + [' '] + dashes + [' '] + ['|'] + (" Users: " + t.users) == own + Body(t, admin, start)
  {
  }

  /** The first part of dump_map(): the server's own line. */
  method PrintBody(t: Server, admin: bool, startLen: nat, buf: array<char>)
    requires startLen + |Body(t, admin, startLen)| < buf.Length
    modifies buf
    ensures var end := startLen + |Body(t, admin, startLen)|;
      buf[..end] == old(buf[..startLen]) + Body(t, admin, startLen) && buf[end] == '\0'
  {
    BodyParts(buf[..startLen], t, admin, startLen);
    var pb := PutLabel(t, admin, buf, startLen);
    pb := PutChar(buf, pb, ' ');
    pb := PutDashes(buf, pb, 50 - (pb as int));
    pb := PutChar(buf, pb, ' ');
    pb := PutChar(buf, pb, '|');
    var l := Sprintf(buf, pb, " Users: " + t.users);
  }

  /** dump_map(): called for the server whose line starts at `p`, it sends the drawing of that
      server and of all behind it.  Of the bytes before p it may have blanked the connector. */
  method DumpMap(admin: bool, t: Server, startLen: nat, buf: array<char>, p: nat, ghost lasts: seq<bool>)
    returns (lines: seq<string>)
    requires p == startLen == 4 * |lasts| && Printable(t, admin, p, buf.Length)
    requires buf[..p] == Prefix(lasts)
    modifies buf
    ensures lines == Draw(t, admin, lasts)
    ensures buf[..p] == if t.servers == [] then Prefix(lasts) else Columns(lasts)
    decreases t, 1
  {
    PrintBody(t, admin, startLen, buf);
    lines := [CString(buf[..])];
    OwnLine(buf[..], t, admin, lasts);
    var cnt := 0;
    if t.servers != [] {
      cnt := cnt + |t.servers|;
      if cnt != 0 {
        BlankConnector(buf, p, lasts);
      }
    }
    var behind := DumpBehind(admin, t.servers, cnt, startLen, buf, p, lasts);
    lines := lines + behind;
  }

  lemma OwnLine(s: string, t: Server, admin: bool, lasts: seq<bool>)
    requires Printable(t, admin, 4 * |lasts|, |s|)
    requires var line := Prefix(lasts) + Body(t, admin, 4 * |lasts|); s[..|line|] == line && s[|line|] == '\0'
    ensures CString(s) == Prefix(lasts) + Body(t, admin, 4 * |lasts|)
  {
    PrefixHasNoNul(lasts);
    CStringIs(s, Prefix(lasts) + Body(t, admin, 4 * |lasts|));
  }

  /** The loop of dump_map() over the servers behind one. */
  method DumpBehind(admin: bool, ts: seq<Server>, cnt: nat, startLen: nat, buf: array<char>, p: nat,
                    ghost lasts: seq<bool>)
    returns (lines: seq<string>)
    requires p == startLen == 4 * |lasts| <= buf.Length && cnt == |ts|
    requires ts != [] ==> p + 4 < buf.Length && buf[..p] == Columns(lasts)
    requires forall i :: 0 <= i < |ts| ==> Printable(ts[i], admin, p + 4, buf.Length)
    modifies buf
    ensures lines == DrawFrom(ts, admin, lasts, 0) && buf[..p] == old(buf[..p])
    decreases ts, 2
  {
    lines := [];
    var i := 1;
    ghost var k, drawing := 0, DrawFrom(ts, admin, lasts, 0);
    while i <= |ts|
      invariant k == i - 1 <= |ts|
      invariant buf[..p] == old(buf[..p])
      invariant lines + DrawFrom(ts, admin, lasts, k) == drawing
    {
      DrawNext(ts, admin, lasts, k, lines, k == |ts| - 1);
      var more := DumpNext(admin, ts[i - 1], i < cnt, startLen, buf, p, lasts, k == |ts| - 1);
      lines := lines + more;
      i, k := i + 1, k + 1;
    }
  }

  /** One round of that loop: the connector, then the server. */
  method DumpNext(admin: bool, t: Server, more: bool, startLen: nat, buf: array<char>, p: nat,
                  ghost lasts: seq<bool>, ghost last: bool)
    returns (lines: seq<string>)
    requires p == startLen == 4 * |lasts| && p + 4 < buf.Length && buf[..p] == Columns(lasts) && last == !more
    requires Printable(t, admin, p + 4, buf.Length)
    modifies buf
    ensures lines == Draw(t, admin, lasts + [last]) && buf[..p] == Columns(lasts)
    decreases t, 2
  {
    PutConnector(buf, p, more, lasts, last);
    lines := DumpMap(admin, t, startLen + 4, buf, p + 4, lasts + [last]);
    KeepsColumns(buf[..p + 4], lasts, last);
    assert buf[..p] == buf[..p + 4][..p];
  }

  /** Blanks the connector before column p: the dash, and the backquote of a last server. */
  method BlankConnector(buf: array<char>, p: nat, ghost lasts: seq<bool>)
    requires p == 4 * |lasts| <= buf.Length && buf[..p] == Prefix(lasts)
    modifies buf
    ensures buf[..p] == Columns(lasts)
  {
    BlankedPrefix(lasts);
    if p > 3 {
      buf[p - 2] := ' ';
      if buf[p - 3] == '`' {
        buf[p - 3] := ' ';
      }
    }
    assert buf[..p] == Blanked(Prefix(lasts));
  }

  method PutConnector(buf: array<char>, p: nat, more: bool, ghost lasts: seq<bool>, ghost last: bool)
    requires last == !more && p == 4 * |lasts| && p + 4 <= buf.Length && buf[..p] == Columns(lasts)
    modifies buf
    ensures buf[..p + 4] == Prefix(lasts + [last])
  {
    buf[p] := ' ';
    if more {
      buf[p + 1] := '|';
    } else {
      buf[p + 1] := '`';
    }
    buf[p + 2] := '-';
    buf[p + 3] := ' ';
    assert (lasts + [last])[..|lasts|] == lasts;
    assert buf[..p + 4] == Columns(lasts) + Connector(last);
  }

  lemma DrawNext(ts: seq<Server>, admin: bool, lasts: seq<bool>, i: nat, sent: seq<string>, last: bool)
    requires i < |ts| && last == (i == |ts| - 1)
    ensures sent + DrawFrom(ts, admin, lasts, i)
         == sent + Draw(ts[i], admin, lasts + [last]) + DrawFrom(ts, admin, lasts, i + 1)
  {
  }

  lemma KeepsColumns(s: string, lasts: seq<bool>, last: bool)
    requires s == Prefix(lasts + [last]) || s == Columns(lasts + [last])
    ensures s[..4 * |lasts|] == Columns(lasts)
  {
    assert (lasts + [last])[..|lasts|] == lasts;
  }

  lemma {:induction false} ColumnsHaveNoNul(lasts: seq<bool>)
    ensures '\0' !in Columns(lasts)
  {
    if lasts != [] {
      ColumnsHaveNoNul(lasts[..|lasts| - 1]);
    }
  }

  lemma PrefixHasNoNul(lasts: seq<bool>)
    ensures '\0' !in Prefix(lasts)
  {
    if lasts != [] {
      ColumnsHaveNoNul(lasts[..|lasts| - 1]);
    }
  }

  /** mo_map(): the drawing of the tree of which this server is the root. */
  method MoMap(admin: bool, me: Server, buf: array<char>) returns (lines: seq<string>)
    requires Printable(me, admin, 0, buf.Length)
    modifies buf
    ensures lines == Draw(me, admin, [])
  {
    lines := DumpMap(admin, me, 0, buf, 0, []);
  }

  // ----- reading the drawing

  /** A server as its line shows it. */
  datatype Shown = Shown(tag: string, users: string, servers: seq<Shown>)

  function ShownAs(t: Server, admin: bool): Shown
    decreases t
  {
    Shown(Label(t, admin), t.users, ShownFrom(t.servers, admin, 0))
  }

  function ShownFrom(ts: seq<Server>, admin: bool, i: nat): (r: seq<Shown>)
    requires i <= |ts|
    ensures |r| == |ts| - i
    decreases ts, |ts| - i
  {
    if i == |ts| then [] else [ShownAs(ts[i], admin)] + ShownFrom(ts, admin, i + 1)
  }

  /** Labels are not empty and hold no space. */
  predicate Named(t: Server, admin: bool) {
    Label(t, admin) != "" && ' ' !in Label(t, admin) && forall i :: 0 <= i < |t.servers| ==> Named(t.servers[i], admin)
  }

  /** One line of the drawing, read: how far the server is from the root, and what is shown of it. */
  datatype Entry = Entry(depth: nat, tag: string, users: string)

  function Depth(line: string): nat {
    if |line| < 4 || line[0] != ' ' then 0 else 1 + Depth(line[4..])
  }

  function Word(line: string): (w: string)
    ensures |w| <= |line|
  {
    if line == "" || line[0] == ' ' then "" else [line[0]] + Word(line[1..])
  }

  function ReadLine(line: string): Entry {
    ReadBody(Depth(line), Drop(line, 4 * Depth(line)))
  }

  function Drop(s: string, n: nat): string {
    if n <= |s| then s[n..] else ""
  }

  function ReadBody(depth: nat, body: string): Entry {
    var tag := Word(body);
    Entry(depth, tag, Drop(body, |tag| + 1 + |Dashes(50 - (4 * depth + |tag| + 1))| + |" | Users: "|))
  }

  /** The servers at distance `depth` at the head of a list of entries, each with those behind it,
      and the entries that are left. */
  function ReadServers(es: seq<Entry>, depth: nat): (r: (seq<Shown>, seq<Entry>))
    ensures |r.1| <= |es|
    decreases |es|
  {
    if es == [] || es[0].depth != depth then ([], es)
    else
      var (behind, rest) := ReadServers(es[1..], depth + 1);
      var (others, left) := ReadServers(rest, depth);
      ([Shown(es[0].tag, es[0].users, behind)] + others, left)
  }

  function ReadLines(lines: seq<string>): (es: seq<Entry>)
    ensures |es| == |lines| && forall i :: 0 <= i < |es| ==> es[i] == ReadLine(lines[i])
  {
    seq(|lines|, i requires 0 <= i < |lines| => ReadLine(lines[i]))
  }

  function ReadMap(lines: seq<string>): seq<Shown> {
    ReadServers(ReadLines(lines), 0).0
  }

  /** The entries of a tree, in the order of the drawing. */
  function Entries(t: Server, admin: bool, depth: nat): seq<Entry>
    decreases t
  {
    [Entry(depth, Label(t, admin), t.users)] + EntriesFrom(t.servers, admin, depth + 1, 0)
  }

  function EntriesFrom(ts: seq<Server>, admin: bool, depth: nat, i: nat): seq<Entry>
    requires i <= |ts|
    decreases ts, |ts| - i
  {
    if i == |ts| then [] else Entries(ts[i], admin, depth) + EntriesFrom(ts, admin, depth, i + 1)
  }

  lemma {:induction false} DepthOfColumns(lasts: seq<bool>, rest: string)
    ensures Depth(Columns(lasts) + rest) == |lasts| + Depth(rest)
    decreases |lasts|
  {
    if lasts == [] {
      assert Columns(lasts) + rest == rest;
    } else {
      var above, last := lasts[..|lasts| - 1], lasts[|lasts| - 1];
      var column := if last then "    " else " |  ";
      assert Columns(lasts) + rest == Columns(above) + (column + rest);
      DepthOfColumns(above, column + rest);
      assert (column + rest)[4..] == rest;
    }
  }

  lemma DepthOfLine(lasts: seq<bool>, body: string)
    requires body != "" && body[0] != ' '
    ensures Depth(Prefix(lasts) + body) == |lasts|
  {
    if lasts == [] {
      assert Prefix(lasts) + body == body;
    } else {
      var above, last := lasts[..|lasts| - 1], lasts[|lasts| - 1];
      assert Prefix(lasts) + body == Columns(above) + (Connector(last) + body);
      DepthOfColumns(above, Connector(last) + body);
      assert (Connector(last) + body)[4..] == body;
    }
  }

  lemma {:induction false} WordOf(w: string, rest: string)
    requires ' ' !in w && rest != "" && rest[0] == ' '
    ensures Word(w + rest) == w
  {
    if w == "" {
      assert w + rest == rest;
    } else {
      assert (w + rest)[1..] == w[1..] + rest;
      WordOf(w[1..], rest);
    }
  }

  lemma DropHead(head: string, rest: string)
    ensures Drop(head + rest, |head|) == rest
  {
  }

  lemma BodySplits(tag: string, dashes: string, users: string)
    ensures var body := tag + " " + dashes + " |" + " Users: " + users;
      && body == tag + (" " + dashes + " | Users: " + users)
      && body == (tag + " " + dashes + " | Users: ") + users
  {
    assert " |" + " Users: " == " | Users: ";
  }

  lemma BodyIsRead(t: Server, admin: bool, depth: nat)
    requires Label(t, admin) != "" && ' ' !in Label(t, admin)
    ensures ReadBody(depth, Body(t, admin, 4 * depth)) == Entry(depth, Label(t, admin), t.users)
  {
    var tag := Label(t, admin);
    var dashes := Dashes(50 - (4 * depth + |tag| + 1));
    BodySplits(tag, dashes, t.users);
    WordOf(tag, " " + dashes + " | Users: " + t.users);
    DropHead(tag + " " + dashes + " | Users: ", t.users);
  }

  /** A line of the drawing tells the distance from the root, the label and the users. */
  lemma LineIsRead(t: Server, admin: bool, lasts: seq<bool>)
    requires Label(t, admin) != "" && ' ' !in Label(t, admin)
    ensures ReadLine(Prefix(lasts) + Body(t, admin, 4 * |lasts|)) == Entry(|lasts|, Label(t, admin), t.users)
  {
    var body := Body(t, admin, 4 * |lasts|);
    BodyIsRead(t, admin, |lasts|);
    assert body[0] == Label(t, admin)[0];
    DepthOfLine(lasts, body);
    assert (Prefix(lasts) + body)[4 * |lasts|..] == body;
  }

  lemma ReadLinesConcat(a: seq<string>, b: seq<string>)
    ensures ReadLines(a + b) == ReadLines(a) + ReadLines(b)
  {
  }

  lemma {:induction false} DrawingIsEntries(t: Server, admin: bool, lasts: seq<bool>)
    requires Named(t, admin)
    ensures ReadLines(Draw(t, admin, lasts)) == Entries(t, admin, |lasts|)
    decreases t
  {
    var line, behind := Prefix(lasts) + Body(t, admin, 4 * |lasts|), DrawFrom(t.servers, admin, lasts, 0);
    LineIsRead(t, admin, lasts);
    DrawingFromIsEntries(t.servers, admin, lasts, 0);
    ReadLinesConcat([line], behind);
    assert ReadLines([line]) == [ReadLine(line)];
  }

  lemma {:induction false} DrawingFromIsEntries(ts: seq<Server>, admin: bool, lasts: seq<bool>, i: nat)
    requires i <= |ts| && forall j :: 0 <= j < |ts| ==> Named(ts[j], admin)
    ensures ReadLines(DrawFrom(ts, admin, lasts, i)) == EntriesFrom(ts, admin, |lasts| + 1, i)
    decreases ts, |ts| - i
  {
    if i < |ts| {
      var lasts' := lasts + [i == |ts| - 1];
      DrawingIsEntries(ts[i], admin, lasts');
      DrawingFromIsEntries(ts, admin, lasts, i + 1);
      ReadLinesConcat(Draw(ts[i], admin, lasts'), DrawFrom(ts, admin, lasts, i + 1));
    }
  }

  lemma {:induction false} EntriesAreRead(ts: seq<Server>, admin: bool, depth: nat, i: nat, tail: seq<Entry>)
    requires i <= |ts| && (tail != [] ==> tail[0].depth < depth)
    ensures ReadServers(EntriesFrom(ts, admin, depth, i) + tail, depth) == (ShownFrom(ts, admin, i), tail)
    decreases ts, |ts| - i
  {
    if i == |ts| {
      assert EntriesFrom(ts, admin, depth, i) + tail == tail;
    } else {
      var t, others := ts[i], EntriesFrom(ts, admin, depth, i + 1) + tail;
      var behind := EntriesFrom(t.servers, admin, depth + 1, 0);
      var es := [Entry(depth, Label(t, admin), t.users)] + (behind + others);
      assert EntriesFrom(ts, admin, depth, i) + tail == es by {
        assert Entries(t, admin, depth) == [Entry(depth, Label(t, admin), t.users)] + behind;
      }
      assert es[1..] == behind + others;
      FirstIsShallow(ts, admin, depth, i + 1, tail);
      EntriesAreRead(t.servers, admin, depth + 1, 0, others);
      EntriesAreRead(ts, admin, depth, i + 1, tail);
    }
  }

  lemma FirstIsShallow(ts: seq<Server>, admin: bool, depth: nat, i: nat, tail: seq<Entry>)
    requires i <= |ts| && (tail != [] ==> tail[0].depth < depth)
    ensures var es := EntriesFrom(ts, admin, depth, i) + tail; es != [] ==> es[0].depth <= depth
  {
    if i < |ts| {
      var t, es := ts[i], EntriesFrom(ts, admin, depth, i);
      var first, behind := Entry(depth, Label(t, admin), t.users), EntriesFrom(t.servers, admin, depth + 1, 0);
      assert Entries(t, admin, depth) == [first] + behind;
      assert es == [first] + behind + EntriesFrom(ts, admin, depth, i + 1);
    } else {
      assert EntriesFrom(ts, admin, depth, i) + tail == tail;
    }
  }

  /** The drawing of a tree, read back, is the tree as it is shown. */
  lemma MapIsReadable(t: Server, admin: bool)
    requires Named(t, admin)
    ensures ReadMap(Draw(t, admin, [])) == [ShownAs(t, admin)]
  {
    DrawingIsEntries(t, admin, []);
    assert EntriesFrom([t], admin, 0, 0) == Entries(t, admin, 0) + EntriesFrom([t], admin, 0, 1);
    assert EntriesFrom([t], admin, 0, 0) + [] == Entries(t, admin, 0);
    EntriesAreRead([t], admin, 0, 0, []);
    assert ShownFrom([t], admin, 0) == [ShownAs(t, admin)] + ShownFrom([t], admin, 1);
  }

  /** The same tree, but for the ids unless they count. */
  predicate SameTree(t: Server, u: Server, ids: bool)
    decreases t
  {
    && t.name == u.name && t.users == u.users && (ids ==> t.id == u.id) && |t.servers| == |u.servers|
    && forall i :: 0 <= i < |t.servers| ==> SameTree(t.servers[i], u.servers[i], ids)
  }

  lemma {:induction false} SameIsEqual(t: Server, u: Server)
    requires SameTree(t, u, true)
    ensures t == u
    decreases t
  {
    forall i | 0 <= i < |t.servers|
      ensures t.servers[i] == u.servers[i]
    {
      SameIsEqual(t.servers[i], u.servers[i]);
    }
    assert t.servers == u.servers;
  }

  /** Names as server names are: the id that an administrator sees begins with the first bracket. */
  predicate Unbracketed(t: Server)
    decreases t
  {
    '[' !in t.name && forall i :: 0 <= i < |t.servers| ==> Unbracketed(t.servers[i])
  }

  lemma LabelIsRead(t: Server)
    requires '[' !in t.name
    ensures
      var tag := Label(t, true);
      && Before(tag, '[') == t.name
      && t.id == (if tag == t.name then "" else tag[|t.name| + 1..|tag| - 1])
  {
    BeforeNone(t.name, '[');
    if t.id != "" {
      BeforeFirst(t.name, '[', t.id + "]");
      assert Label(t, true) == t.name + ['['] + (t.id + "]");
    }
  }

  lemma {:induction false} ShownDetermines(t: Server, u: Server, admin: bool)
    requires ShownAs(t, admin) == ShownAs(u, admin) && (admin ==> Unbracketed(t) && Unbracketed(u))
    ensures SameTree(t, u, admin)
    decreases t
  {
    ShownFromDetermines(t.servers, u.servers, admin, 0);
    if admin {
      LabelIsRead(t);
      LabelIsRead(u);
    } else {
      assert Label(t, admin) == t.name && Label(u, admin) == u.name;
    }
  }

  lemma {:induction false} ShownFromDetermines(ts: seq<Server>, us: seq<Server>, admin: bool, i: nat)
    requires i <= |ts| && i <= |us| && ShownFrom(ts, admin, i) == ShownFrom(us, admin, i)
    requires admin ==> forall j :: 0 <= j < |ts| ==> Unbracketed(ts[j])
    requires admin ==> forall j :: 0 <= j < |us| ==> Unbracketed(us[j])
    ensures |ts| == |us| && forall j :: i <= j < |ts| ==> SameTree(ts[j], us[j], admin)
    decreases ts, |ts| - i
  {
    if i < |ts| {
      var a, b := ShownFrom(ts, admin, i), ShownFrom(us, admin, i);
      assert a[0] == b[0] && a[1..] == b[1..];
      assert a[1..] == ShownFrom(ts, admin, i + 1) && b[1..] == ShownFrom(us, admin, i + 1);
      ShownDetermines(ts[i], us[i], admin);
      ShownFromDetermines(ts, us, admin, i + 1);
    }
  }

  lemma {:induction false} SameIsDrawnAlike(t: Server, u: Server, admin: bool, lasts: seq<bool>)
    requires SameTree(t, u, admin)
    ensures Draw(t, admin, lasts) == Draw(u, admin, lasts)
    decreases t
  {
    SameFromIsDrawnAlike(t.servers, u.servers, admin, lasts, 0);
  }

  lemma {:induction false} SameFromIsDrawnAlike(ts: seq<Server>, us: seq<Server>, admin: bool, lasts: seq<bool>, i: nat)
    requires i <= |ts| == |us| && forall j :: 0 <= j < |ts| ==> SameTree(ts[j], us[j], admin)
    ensures DrawFrom(ts, admin, lasts, i) == DrawFrom(us, admin, lasts, i)
    decreases ts, |ts| - i
  {
    if i < |ts| {
      SameIsDrawnAlike(ts[i], us[i], admin, lasts + [i == |ts| - 1]);
      SameFromIsDrawnAlike(ts, us, admin, lasts, i + 1);
    }
  }

  /** Two trees have the same drawing exactly if they are the same tree: with their ids if an administrator looks,
      else up to their ids. */
  lemma DrawingDetermines(t: Server, u: Server, admin: bool)
    requires Named(t, admin) && Named(u, admin) && (admin ==> Unbracketed(t) && Unbracketed(u))
    ensures Draw(t, admin, []) == Draw(u, admin, []) <==> SameTree(t, u, admin)
    ensures SameTree(t, u, true) <==> t == u
  {
    if Draw(t, admin, []) == Draw(u, admin, []) {
      MapIsReadable(t, admin);
      MapIsReadable(u, admin);
      ShownDetermines(t, u, admin);
    }
    if SameTree(t, u, admin) {
      SameIsDrawnAlike(t, u, admin, []);
    }
    if SameTree(t, u, true) {
      SameIsEqual(t, u);
    }
    SameAsItself(t);
  }

  lemma {:induction false} SameAsItself(t: Server)
    ensures SameTree(t, t, true)
    decreases t
  {
    forall i | 0 <= i < |t.servers|
      ensures SameTree(t.servers[i], t.servers[i], true)
    {
      SameAsItself(t.servers[i]);
    }
  }
}
