/** What the signs before the servers in a drawing of MAP mean, and where its columns stand
    (modules/m_map.c:117-194). */
module MapShape {
  import opened ServerMap

  /** Behind some entry comes one more server at distance d + 1 with the same uplink. */
  ghost predicate ComesLater(tail: seq<Entry>, d: nat) {
    exists j :: 0 <= j < |tail| && tail[j].depth == d + 1 && forall k :: 0 <= k < j ==> tail[k].depth > d
  }

  /** Entries that are further away than d + 1 make no difference. */
  lemma LaterSkips(deep: seq<Entry>, tail: seq<Entry>, d: nat)
    requires forall k :: 0 <= k < |deep| ==> deep[k].depth > d + 1
    ensures ComesLater(deep + tail, d) <==> ComesLater(tail, d)
  {
    var all := deep + tail;
    if j :| 0 <= j < |all| && all[j].depth == d + 1 && forall k :: 0 <= k < j ==> all[k].depth > d {
      assert j >= |deep| && tail[j - |deep|] == all[j];
      assert forall k :: 0 <= k < j - |deep| ==> tail[k] == all[k + |deep|];
    }
    if j :| 0 <= j < |tail| && tail[j].depth == d + 1 && forall k :: 0 <= k < j ==> tail[k].depth > d {
      assert all[j + |deep|] == tail[j];
      assert forall k :: 0 <= k < j + |deep| ==> all[k].depth > d;
    }
  }

  lemma {:induction false} EntriesAreDeep(t: Server, admin: bool, depth: nat)
    ensures forall k :: 0 <= k < |Entries(t, admin, depth)| ==> Entries(t, admin, depth)[k].depth >= depth
    decreases t
  {
    EntriesFromAreDeep(t.servers, admin, depth + 1, 0);
  }

  lemma {:induction false} EntriesFromAreDeep(ts: seq<Server>, admin: bool, depth: nat, i: nat)
    requires i <= |ts|
    ensures forall k :: 0 <= k < |EntriesFrom(ts, admin, depth, i)| ==> EntriesFrom(ts, admin, depth, i)[k].depth >= depth
    decreases ts, |ts| - i
  {
    if i < |ts| {
      EntriesAreDeep(ts[i], admin, depth);
      EntriesFromAreDeep(ts, admin, depth, i + 1);
    }
  }

  /** The sign at each distance before a server. */
  lemma PrefixSign(lasts: seq<bool>, d: nat)
    requires d < |lasts|
    ensures Prefix(lasts)[4 * d + 1]
              == (if !lasts[d] then '|' else if d == |lasts| - 1 then '`' else ' ')
    ensures Prefix(lasts)[4 * d + 2] == if d == |lasts| - 1 then '-' else ' '
  {
    var above, last := lasts[..|lasts| - 1], lasts[|lasts| - 1];
    if d == |lasts| - 1 {
      assert Prefix(lasts)[4 * d..] == Connector(last);
      assert Prefix(lasts)[4 * d + 1] == Connector(last)[1] && Prefix(lasts)[4 * d + 2] == Connector(last)[2];
    } else {
      ColumnSign(above, d);
    }
  }

  lemma {:induction false} ColumnSign(lasts: seq<bool>, d: nat)
    requires d < |lasts|
    ensures Columns(lasts)[4 * d + 1] == (if lasts[d] then ' ' else '|') && Columns(lasts)[4 * d + 2] == ' '
    decreases |lasts|
  {
    var above := lasts[..|lasts| - 1];
    if d < |above| {
      ColumnSign(above, d);
    } else {
      var column := if lasts[d] then "    " else " |  ";
      assert Columns(lasts)[4 * d..] == column;
      assert Columns(lasts)[4 * d + 1] == column[1] && Columns(lasts)[4 * d + 2] == column[2];
    }
  }

  /** `lasts` says of each distance whether more comes behind. */
  ghost predicate Foretold(lasts: seq<bool>, tail: seq<Entry>) {
    && (forall d :: 0 <= d < |lasts| ==> (lasts[d] <==> !ComesLater(tail, d)))
    && (tail != [] ==> tail[0].depth <= |lasts|)
  }

  /** What is drawn at distance d before a server, with the entries that follow. */
  ghost predicate SignOf(line: string, depth: nat, later: seq<Entry>, d: nat)
    requires d < depth
  {
    && 4 * d + 2 < |line|
    && line[4 * d + 1] == (if ComesLater(later, d) then '|' else if d == depth - 1 then '`' else ' ')
  }

  ghost predicate SignIsRight(lines: seq<string>, es: seq<Entry>, tail: seq<Entry>, i: nat, d: nat)
    requires |lines| == |es| && i < |es| && d < es[i].depth
  {
    SignOf(lines[i], es[i].depth, es[i + 1..] + tail, d)
  }

  lemma {:induction false} DrawnRight(t: Server, admin: bool, lasts: seq<bool>, tail: seq<Entry>, i: nat, d: nat)
    requires Foretold(lasts, tail)
    ensures
      var lines, es := Draw(t, admin, lasts), Entries(t, admin, |lasts|);
      |lines| == |es| && (i < |es| && d < es[i].depth ==> SignIsRight(lines, es, tail, i, d))
    decreases t
  {
    DrawnFromRight(t.servers, admin, lasts, tail, 0, if i == 0 then 0 else i - 1, d);
    OwnSign(t, admin, lasts, tail, d);
    OwnLineFirst(t, admin, lasts, tail, i, d);
  }

  /** The line of the server itself. */
  lemma OwnSign(t: Server, admin: bool, lasts: seq<bool>, tail: seq<Entry>, d: nat)
    requires Foretold(lasts, tail)
    ensures
      var line, behind := Prefix(lasts) + Body(t, admin, 4 * |lasts|), EntriesFrom(t.servers, admin, |lasts| + 1, 0);
      d < |lasts| ==> SignOf(line, |lasts|, behind + tail, d)
  {
    var line, behind := Prefix(lasts) + Body(t, admin, 4 * |lasts|), EntriesFrom(t.servers, admin, |lasts| + 1, 0);
    if d < |lasts| {
      EntriesFromAreDeep(t.servers, admin, |lasts| + 1, 0);
      LaterSkips(behind, tail, d);
      PrefixSign(lasts, d);
      assert line[4 * d + 1] == Prefix(lasts)[4 * d + 1];
    }
  }

  lemma OwnLineFirst(t: Server, admin: bool, lasts: seq<bool>, tail: seq<Entry>, i: nat, d: nat)
    requires
      var line, behind := Prefix(lasts) + Body(t, admin, 4 * |lasts|), EntriesFrom(t.servers, admin, |lasts| + 1, 0);
      d < |lasts| ==> SignOf(line, |lasts|, behind + tail, d)
    requires
      var lines, behind := DrawFrom(t.servers, admin, lasts, 0), EntriesFrom(t.servers, admin, |lasts| + 1, 0);
      && |lines| == |behind|
      && (0 < i <= |behind| && d < behind[i - 1].depth ==> SignIsRight(lines, behind, tail, i - 1, d))
    ensures
      var lines, es := Draw(t, admin, lasts), Entries(t, admin, |lasts|);
      |lines| == |es| && (i < |es| && d < es[i].depth ==> SignIsRight(lines, es, tail, i, d))
  {
    var lines, behind := DrawFrom(t.servers, admin, lasts, 0), EntriesFrom(t.servers, admin, |lasts| + 1, 0);
    var first, line := Entry(|lasts|, Label(t, admin), t.users), Prefix(lasts) + Body(t, admin, 4 * |lasts|);
    LineBefore(line, lines, first, behind, tail, i, d);
  }

  lemma LineBefore(line: string, lines: seq<string>, first: Entry, behind: seq<Entry>, tail: seq<Entry>, i: nat, d: nat)
    requires |lines| == |behind|
    requires d < first.depth ==> SignOf(line, first.depth, behind + tail, d)
    requires 0 < i <= |behind| && d < behind[i - 1].depth ==> SignIsRight(lines, behind, tail, i - 1, d)
    ensures i <= |behind| && d < ([first] + behind)[i].depth ==> SignIsRight([line] + lines, [first] + behind, tail, i, d)
  {
    var es := [first] + behind;
    if i == 0 {
      assert es[1..] == behind;
    } else if i < |es| {
      assert es[i + 1..] == behind[i..];
    }
  }

  lemma {:induction false} DrawnFromRight(ts: seq<Server>, admin: bool, lasts: seq<bool>, tail: seq<Entry>, k: nat,
                                          i: nat, d: nat)
    requires k <= |ts| && Foretold(lasts, tail)
    ensures
      var lines, es := DrawFrom(ts, admin, lasts, k), EntriesFrom(ts, admin, |lasts| + 1, k);
      |lines| == |es| && (i < |es| && d < es[i].depth ==> SignIsRight(lines, es, tail, i, d))
    decreases ts, |ts| - k
  {
    if k < |ts| {
      var lasts', more := lasts + [k == |ts| - 1], EntriesFrom(ts, admin, |lasts| + 1, k + 1);
      var first := Entries(ts[k], admin, |lasts| + 1);
      ForetoldBehind(ts, admin, lasts, tail, k);
      DrawnRight(ts[k], admin, lasts', more + tail, i, d);
      DrawnFromRight(ts, admin, lasts, tail, k + 1, if i < |first| then 0 else i - |first|, d);
      SignsTogether(Draw(ts[k], admin, lasts'), first, DrawFrom(ts, admin, lasts, k + 1), more, tail, i, d);
    }
  }

  lemma SignsTogether(lines: seq<string>, es: seq<Entry>, lines': seq<string>, es': seq<Entry>, tail: seq<Entry>, i: nat, d: nat)
    requires |lines| == |es| && |lines'| == |es'|
    requires i < |es| && d < es[i].depth ==> SignIsRight(lines, es, es' + tail, i, d)
    requires |es| <= i < |es| + |es'| && d < es'[i - |es|].depth ==> SignIsRight(lines', es', tail, i - |es|, d)
    ensures i < |es + es'| && d < (es + es')[i].depth ==> SignIsRight(lines + lines', es + es', tail, i, d)
  {
    var all := es + es';
    if i < |es| {
      assert all[i + 1..] + tail == es[i + 1..] + (es' + tail);
    } else if i < |all| {
      assert all[i + 1..] == es'[i - |es| + 1..];
    }
  }

  lemma FirstBehind(ts: seq<Server>, admin: bool, depth: nat, k: nat)
    requires k < |ts|
    ensures EntriesFrom(ts, admin, depth, k) != [] && EntriesFrom(ts, admin, depth, k)[0].depth == depth
  {
    var t := ts[k];
    assert Entries(t, admin, depth) == [Entry(depth, Label(t, admin), t.users)] + EntriesFrom(t.servers, admin, depth + 1, 0);
  }

  lemma ForetoldBehind(ts: seq<Server>, admin: bool, lasts: seq<bool>, tail: seq<Entry>, k: nat)
    requires k < |ts| && Foretold(lasts, tail)
    ensures Foretold(lasts + [k == |ts| - 1], EntriesFrom(ts, admin, |lasts| + 1, k + 1) + tail)
  {
    var more, lasts' := EntriesFrom(ts, admin, |lasts| + 1, k + 1), lasts + [k == |ts| - 1];
    EntriesFromAreDeep(ts, admin, |lasts| + 1, k + 1);
    forall d | 0 <= d < |lasts'|
      ensures lasts'[d] <==> !ComesLater(more + tail, d)
    {
      if d < |lasts| {
        LaterSkips(more, tail, d);
      } else if k + 1 < |ts| {
        FirstBehind(ts, admin, |lasts| + 1, k + 1);
        assert (more + tail)[0] == more[0];
      } else {
        assert more + tail == tail;
      }
    }
    if k + 1 < |ts| {
      FirstBehind(ts, admin, |lasts| + 1, k + 1);
      assert (more + tail)[0] == more[0];
    } else {
      assert more + tail == tail;
    }
  }

  /** Before each server the drawing shows, for it and for every server on the way to it, whether another one with the
      same uplink comes further below: a bar if so, a corner or a blank if not. */
  lemma SignsShowWhatComes(t: Server, admin: bool, i: nat, d: nat)
    requires i < |Entries(t, admin, 0)| && d < Entries(t, admin, 0)[i].depth
    ensures
      var lines, es := Draw(t, admin, []), Entries(t, admin, 0);
      && |lines| == |es| && 4 * d + 2 < |lines[i]|
      && lines[i][4 * d + 1] == (if ComesLater(es[i + 1..], d) then '|' else if d == es[i].depth - 1 then '`' else ' ')
  {
    DrawnRight(t, admin, [], [], i, d);
    var es := Entries(t, admin, 0);
    assert es[i + 1..] + [] == es[i + 1..];
    assert SignIsRight(Draw(t, admin, []), es, [], i, d);
  }

  /** The bar before the users stands at column 51 of every line that is not too long for it, with dashes up to there. */
  lemma BarStands(t: Server, admin: bool, lasts: seq<bool>)
    requires 4 * |lasts| + |Label(t, admin)| < 50
    ensures
      var line, from := Prefix(lasts) + Body(t, admin, 4 * |lasts|), 4 * |lasts| + |Label(t, admin)|;
      && |line| > 50 && line[50..] == " | Users: " + t.users && line[from] == ' '
      && (forall i :: from < i < 50 ==> line[i] == '-')
  {
    var tag := Label(t, admin);
    var dashes := Dashes(50 - (4 * |lasts| + |tag| + 1));
    BodySplits(tag, dashes, t.users);
    HeadThenBar(Prefix(lasts), tag, dashes, t.users);
  }

  lemma HeadThenBar(prefix: string, tag: string, dashes: string, users: string)
    requires |prefix| + |tag| + 1 + |dashes| == 50 && forall i :: 0 <= i < |dashes| ==> dashes[i] == '-'
    ensures
      var line, from := prefix + (tag + " " + dashes + " |" + " Users: " + users), |prefix| + |tag|;
      && |line| > 50 && line[50..] == " | Users: " + users && line[from] == ' '
      && (forall i :: from < i < 50 ==> line[i] == '-')
  {
    var head := prefix + tag + " " + dashes;
    var line := prefix + (tag + " " + dashes + " |" + " Users: " + users);
    assert " |" + " Users: " == " | Users: ";
    assert line == head + (" | Users: " + users);
    assert line[..50] == head;
    forall i | |prefix| + |tag| < i < 50
      ensures line[i] == '-'
    {
      assert line[i] == head[i] == dashes[i - |prefix| - |tag| - 1];
    }
    assert line[|prefix| + |tag|] == head[|prefix| + |tag|];
  }
}
