/** What SPOOF writes and DELSPOOF removes: the rewriter takes out exactly the blocks of its mask, so that
    it undoes SPOOF, and the flag line says exactly which flags were given. */
module SpoofLaws {
  import opened Options
  import opened Seqs
  import opened Text
  import opened Spoof

  /** The only line end in s is its last character. */
  predicate Ended(s: string) {
    && s != "" && s[|s| - 1] == '\n'
    && forall i :: 0 <= i < |s| - 1 ==> s[i] != '\n' && s[i] != '\r'
  }

  /** A line that fits the buffer of the reader. */
  predicate OneLine(line: string) {
    Ended(line) && |line| <= LINE_MAX
  }

  /** A line that means nothing to the rewriter. */
  predicate Plain(line: string) {
    OneLine(line) && !StartsWith(line, "auth {") && UserField(line).None?
  }

  predicate AllPlain(ls: seq<string>) {
    forall i :: 0 <= i < |ls| ==> Plain(ls[i])
  }

  /** Text with no character that would end a line or a quoted value early. */
  predicate NoBreak(s: string) {
    forall i :: 0 <= i < |s| ==> s[i] != '\n' && s[i] != '\r'
  }

  predicate NoQuote(s: string) {
    '"' !in s
  }

  predicate GoodMask(user: string, host: string) {
    NoBreak(user) && NoBreak(host) && '@' !in user && |UserLine(user, host)| <= LINE_MAX
  }

  /** A block with lines as SPOOF writes them. */
  predicate WrittenBlock(b: Block) {
    GoodMask(b.user, b.host) && AllPlain(b.tail)
  }

  predicate AllWritten(bs: seq<Block>) {
    forall i :: 0 <= i < |bs| ==> WrittenBlock(bs[i])
  }

  predicate Quoteless(b: Block) {
    NoQuote(b.user) && NoQuote(b.host)
  }

  predicate AllQuoteless(bs: seq<Block>) {
    forall i :: 0 <= i < |bs| ==> Quoteless(bs[i])
  }

  predicate Names(b: Block, user: string, host: string) {
    SameName(user, b.user) && SameName(host, b.host)
  }

  predicate SomeNamed(bs: seq<Block>, user: string, host: string) {
    exists i :: 0 <= i < |bs| && Names(bs[i], user, host)
  }

  /** The blocks that are not of the mask, in order. */
  function Kept(bs: seq<Block>, user: string, host: string): seq<Block> {
    if bs == [] then []
    else (if Names(bs[0], user, host) then [] else [bs[0]]) + Kept(bs[1..], user, host)
  }

  // ----- lines

  lemma {:induction false} LineIsNext(line: string, rest: string, n: nat)
    requires Ended(line) && |line| <= n
    ensures NextLine(line + rest, n) == (line, rest)
  {
    var file := line + rest;
    assert file[0] == line[0];
    if |line| == 1 {
      assert line == "\n" && file[1..] == rest;
    } else {
      assert file[1..] == line[1..] + rest;
      LineIsNext(line[1..], rest, n - 1);
      assert line == [line[0]] + line[1..];
    }
  }

  lemma LineIsCopied(line: string, rest: string, user: string, host: string, skipping: bool)
    requires OneLine(line)
    ensures
      var o := CopyLine(line, user, host, skipping);
      CopyFile(line + rest, user, host, skipping)
        == if o.Undefined? then Undefined else After(o, CopyFile(rest, user, host, o.skipping))
  {
    LineIsNext(line, rest, LINE_MAX);
  }

  lemma {:induction false} PlainLinesAreCopied(ls: seq<string>, rest: string, user: string, host: string, skipping: bool)
    requires AllPlain(ls)
    ensures CopyFile(Lines(ls) + rest, user, host, skipping)
         == After(Outcome(if skipping then "" else Lines(ls), skipping, false), CopyFile(rest, user, host, skipping))
    decreases |ls|
  {
    if ls == [] {
      assert Lines(ls) + rest == rest;
      NothingAfter(skipping, CopyFile(rest, user, host, skipping));
    } else {
      var line, more := ls[0], Lines(ls[1..]);
      assert Lines(ls) + rest == line + (more + rest);
      LineIsCopied(line, more + rest, user, host, skipping);
      PlainLinesAreCopied(ls[1..], rest, user, host, skipping);
      AfterAssociative(Outcome(if skipping then "" else line, skipping, false),
                       Outcome(if skipping then "" else more, skipping, false),
                       CopyFile(rest, user, host, skipping));
    }
  }

  lemma NothingAfter(skipping: bool, o: Outcome)
    ensures After(Outcome("", skipping, false), o) == o
  {
    if o.Outcome? {
      assert "" + o.out == o.out;
    }
  }

  // ----- the user line

  /** What the rewriter reads as the value of a user line. */
  lemma ValueOfUserLine(user: string, host: string)
    ensures UserField(UserLine(user, host)) == Some(Before(user + "@" + host, '"'))
  {
    var value := user + "@" + host;
    var quoted := " \"" + (value + ['"'] + ";\n");
    UserLineParts(user, host, value);
    FieldOfUser(" =" + quoted);
    ValueAfterSign(quoted);
    ValueOfQuoted(value);
  }

  lemma UserLineParts(user: string, host: string, value: string)
    requires value == user + "@" + host
    ensures UserLine(user, host) == "\tuser" + (" =" + (" \"" + (value + ['"'] + ";\n")))
  {
  }

  lemma ValueAfterSign(quoted: string)
    ensures ValueField(" =" + quoted) == QuotedField(quoted)
  {
    var t := " =" + quoted;
    assert t[1..][0] == '=' && t[1..][1..] == quoted;
    assert SkipBlanks(t) == t[1..];
  }

  lemma FieldOfUser(rest: string)
    ensures UserField("\tuser" + rest) == ValueField(rest)
  {
    var line := "\tuser" + rest;
    var s := line[1..];
    assert s[0] == 'u';
    assert SkipBlanks(line) == s;
    assert s[..4] == "user" && s[4..] == rest;
  }

  lemma ValueOfQuoted(value: string)
    ensures QuotedField(" \"" + (value + ['"'] + ";\n")) == Some(Before(value, '"'))
  {
    var text := value + ['"'] + ";\n";
    var q := " \"" + text;
    assert q[1..][0] == '"' && q[1..][1..] == text;
    assert SkipBlanks(q) == q[1..];
    BeforeFirst(value, '"', ";\n");
  }

  lemma UserLineIsOneLine(user: string, host: string)
    requires GoodMask(user, host)
    ensures OneLine(UserLine(user, host)) && !StartsWith(UserLine(user, host), "auth {")
  {
    var line := UserLine(user, host);
    var head := "\tuser = \"";
    assert line == head + user + "@" + host + "\";\n";
    forall i | 0 <= i < |line| - 1
      ensures line[i] != '\n' && line[i] != '\r'
    {
      var j := i - |head|;
      if 0 <= j < |user| {
        assert line[i] == user[j];
      } else if 0 <= j - |user| - 1 < |host| {
        assert line[i] == host[j - |user| - 1];
      }
    }
    assert line[..6][0] == '\t' && "auth {"[0] == 'a';
  }

  lemma AuthLineIsCopied(rest: string, user: string, host: string, skipping: bool)
    ensures CopyFile("auth {\n" + rest, user, host, skipping) == CopyFile(rest, user, host, true)
  {
    var line := "auth {\n";
    assert line[..6] == "auth {";
    LineIsCopied(line, rest, user, host, skipping);
    NothingAfter(true, CopyFile(rest, user, host, true));
  }

  /** The block as its user line is read: the value ends at the first quotation mark. */
  function AsRead(b: Block): Block {
    b.(host := Before(b.host, '"'))
  }

  /** What the rewriter makes of a block.  If the quotation mark is in the user, no @ is seen. */
  function Effect(b: Block, user: string, host: string): Outcome {
    if '"' in b.user then
      if SameName(user, "*") && SameName(host, Before(b.user, '"')) then Outcome("", true, true) else Undefined
    else if Names(AsRead(b), user, host) then Outcome("", true, true)
    else Outcome(BlockText(AsRead(b)), false, false)
  }

  lemma QuotedUserValue(user: string, host: string)
    requires '@' !in user && '"' in user
    ensures
      var value := Before(user + "@" + host, '"');
      value == Before(user, '"') && Before(value, '@') == value
  {
    var k := |Before(user, '"')|;
    BeforeSome(user, '"');
    BeforeStops(user, '"');
    assert user + "@" + host == user[..k] + ['"'] + (user[k + 1..] + "@" + host);
    BeforeFirst(user[..k], '"', user[k + 1..] + "@" + host);
    BeforeNone(user[..k], '"');
    BeforeNone(user[..k], '@');
  }

  lemma QuotedHostValue(user: string, host: string)
    requires '@' !in user && '"' !in user
    ensures
      var value := Before(user + "@" + host, '"');
      && value == user + "@" + Before(host, '"')
      && Before(value, '@') == user && value[|user| + 1..] == Before(host, '"')
  {
    var part := Before(host, '"');
    BeforeSkips(user + "@", '"', host);
    BeforeFirst(user, '@', part);
    BeforeNone(user, '@');
    assert (user + ['@'] + part)[|user| + 1..] == part;
  }

  /** The user line of a block settles what becomes of it. */
  lemma BlockUserLine(b: Block, user: string, host: string)
    requires WrittenBlock(b)
    ensures
      var o, e := CopyLine(UserLine(b.user, b.host), user, host, true), Effect(b, user, host);
      && o.Undefined? == e.Undefined?
      && (o.Outcome? ==> e == Outcome(o.out + (if o.skipping then "" else Lines(b.tail)), o.skipping, o.found))
  {
    UserLineIsOneLine(b.user, b.host);
    ValueOfUserLine(b.user, b.host);
    if '"' in b.user {
      QuotedUserValue(b.user, b.host);
    } else {
      QuotedHostValue(b.user, b.host);
      BlockSplit(AsRead(b));
      Regroup("auth {\n", UserLine(b.user, Before(b.host, '"')), Lines(b.tail));
    }
  }

  lemma BlockSplit(b: Block)
    ensures BlockText(b) == "auth {\n" + (UserLine(b.user, b.host) + Lines(b.tail))
  {
    var line := UserLine(b.user, b.host);
    LinesConcat(["auth {\n", line], b.tail);
    assert ["auth {\n", line][1..] == [line];
    assert Lines([line]) == line + "";
  }

  /** A line followed by plain lines: the line decides for all of them. */
  lemma LineAndPlainLines(line: string, ls: seq<string>, rest: string, user: string, host: string, skipping: bool)
    requires OneLine(line) && AllPlain(ls)
    ensures
      var o := CopyLine(line, user, host, skipping);
      CopyFile(line + (Lines(ls) + rest), user, host, skipping)
        == if o.Undefined? then Undefined
           else After(Outcome(o.out + (if o.skipping then "" else Lines(ls)), o.skipping, o.found),
                      CopyFile(rest, user, host, o.skipping))
  {
    LineIsCopied(line, Lines(ls) + rest, user, host, skipping);
    var o := CopyLine(line, user, host, skipping);
    if o.Outcome? {
      PlainLinesAreCopied(ls, rest, user, host, o.skipping);
      AfterAssociative(o, Outcome(if o.skipping then "" else Lines(ls), o.skipping, false),
                       CopyFile(rest, user, host, o.skipping));
    }
  }

  lemma BlockIsCopied(b: Block, rest: string, user: string, host: string, skipping: bool)
    requires WrittenBlock(b)
    ensures
      var e := Effect(b, user, host);
      CopyFile(BlockText(b) + rest, user, host, skipping)
        == if e.Undefined? then Undefined else After(e, CopyFile(rest, user, host, e.skipping))
  {
    UserLineIsOneLine(b.user, b.host);
    BlockSplit(b);
    BlockLines("auth {\n", UserLine(b.user, b.host), b.tail, rest, user, host, skipping);
    BlockUserLine(b, user, host);
    Regroup("auth {\n", UserLine(b.user, b.host), Lines(b.tail));
  }

  lemma BlockLines(auth: string, line: string, ls: seq<string>, rest: string, user: string, host: string, skipping: bool)
    requires auth == "auth {\n"
    requires OneLine(line) && AllPlain(ls)
    ensures
      var o := CopyLine(line, user, host, true);
      CopyFile(auth + (line + Lines(ls)) + rest, user, host, skipping)
        == if o.Undefined? then Undefined
           else After(Outcome(o.out + (if o.skipping then "" else Lines(ls)), o.skipping, o.found),
                      CopyFile(rest, user, host, o.skipping))
  {
    Regroup(auth, line + Lines(ls), rest);
    Regroup(line, Lines(ls), rest);
    AuthLineIsCopied(line + (Lines(ls) + rest), user, host, skipping);
    LineAndPlainLines(line, ls, rest, user, host, true);
  }

  /** What the rewriter makes of a file of blocks. */
  function FileEffect(bs: seq<Block>, user: string, host: string, skipping: bool): Outcome {
    if bs == [] then Outcome("", skipping, false)
    else
      var e := Effect(bs[0], user, host);
      if e.Undefined? then Undefined else After(e, FileEffect(bs[1..], user, host, e.skipping))
  }

  lemma {:induction false} FileIsCopied(bs: seq<Block>, user: string, host: string, skipping: bool)
    requires AllWritten(bs)
    ensures CopyFile(FileText(bs), user, host, skipping) == FileEffect(bs, user, host, skipping)
    decreases |bs|
  {
    if bs != [] {
      BlockIsCopied(bs[0], FileText(bs[1..]), user, host, skipping);
      if Effect(bs[0], user, host).Outcome? {
        FileIsCopied(bs[1..], user, host, Effect(bs[0], user, host).skipping);
      }
    }
  }

  lemma SomeNamedSplits(bs: seq<Block>, user: string, host: string)
    requires bs != []
    ensures SomeNamed(bs, user, host) <==> Names(bs[0], user, host) || SomeNamed(bs[1..], user, host)
  {
    var rest := bs[1..];
    if i :| 0 <= i < |bs| && Names(bs[i], user, host) {
      assert i > 0 ==> Names(rest[i - 1], user, host);
    }
    if i :| 0 <= i < |rest| && Names(rest[i], user, host) {
      assert Names(bs[i + 1], user, host);
    }
  }

  /** Without quotation marks DELSPOOF keeps every other block as it is and in its place, and says whether there was one
      of the mask. */
  lemma {:induction false} ExactlyTheMaskIsRemoved(bs: seq<Block>, user: string, host: string, skipping: bool)
    requires AllWritten(bs) && AllQuoteless(bs)
    ensures
      var o := CopyFile(FileText(bs), user, host, skipping);
      && o.Outcome? && o.out == FileText(Kept(bs, user, host)) && (o.found <==> SomeNamed(bs, user, host))
    decreases |bs|
  {
    FileIsCopied(bs, user, host, skipping);
    if bs != [] {
      var rest := bs[1..];
      BeforeNone(bs[0].host, '"');
      FileIsCopied(rest, user, host, Effect(bs[0], user, host).skipping);
      ExactlyTheMaskIsRemoved(rest, user, host, Effect(bs[0], user, host).skipping);
      SomeNamedSplits(bs, user, host);
      KeptFirst(bs, user, host);
    }
  }

  lemma KeptFirst(bs: seq<Block>, user: string, host: string)
    requires bs != []
    ensures
      FileText(Kept(bs, user, host))
        == (if Names(bs[0], user, host) then "" else BlockText(bs[0])) + FileText(Kept(bs[1..], user, host))
  {
    var rest := Kept(bs[1..], user, host);
    assert [] + rest == rest;
    assert ([bs[0]] + rest)[1..] == rest;
  }

  lemma {:induction false} NothingToRemove(bs: seq<Block>, user: string, host: string)
    requires !SomeNamed(bs, user, host)
    ensures Kept(bs, user, host) == bs
  {
    if bs != [] {
      SomeNamedSplits(bs, user, host);
      NothingToRemove(bs[1..], user, host);
      assert bs == [bs[0]] + bs[1..];
    }
  }

  // ----- blocks with quotation marks

  lemma QuoteDiffers(s: string, t: string)
    requires SameName(s, t)
    ensures '"' in s <==> '"' in t
  {
    if '"' in s {
      var i :| 0 <= i < |s| && s[i] == '"';
      assert t[i] == '"';
    }
    if '"' in t {
      var i :| 0 <= i < |t| && t[i] == '"';
      assert s[i] == '"';
    }
  }

  lemma NothingQuoted(s: string)
    ensures NoQuote(Before(s, '"')) && |Before(s, '"')| <= |s| && ('"' in s ==> |Before(s, '"')| < |s|)
  {
    if '"' in s {
      BeforeSome(s, '"');
    } else {
      BeforeNone(s, '"');
    }
  }

  /** A mask without quotation mark names no block with one, but such a block is removed or shortened. */
  lemma QuotedBlockShrinks(b: Block, user: string, host: string)
    requires NoQuote(user) && NoQuote(host) && !Quoteless(b) && Effect(b, user, host).Outcome?
    ensures !Names(b, user, host) && |Effect(b, user, host).out| < |BlockText(b)|
  {
    if Names(b, user, host) {
      QuoteDiffers(user, b.user);
      QuoteDiffers(host, b.host);
    }
    NothingQuoted(b.host);
    BlockSplit(b);
    BlockSplit(AsRead(b));
  }

  lemma {:induction false} QuotedFileShrinks(bs: seq<Block>, user: string, host: string, skipping: bool)
    requires NoQuote(user) && NoQuote(host) && FileEffect(bs, user, host, skipping).Outcome?
    ensures |FileEffect(bs, user, host, skipping).out| <= |FileText(Kept(bs, user, host))|
    ensures !AllQuoteless(bs) ==> |FileEffect(bs, user, host, skipping).out| < |FileText(Kept(bs, user, host))|
    decreases |bs|
  {
    if bs != [] {
      var e := Effect(bs[0], user, host);
      QuotedFileShrinks(bs[1..], user, host, e.skipping);
      KeptFirst(bs, user, host);
      if Quoteless(bs[0]) {
        BeforeNone(bs[0].host, '"');
        QuotedBehind(bs);
      } else {
        QuotedBlockShrinks(bs[0], user, host);
      }
    }
  }

  lemma QuotedBehind(bs: seq<Block>)
    requires bs != [] && Quoteless(bs[0])
    ensures AllQuoteless(bs) <==> AllQuoteless(bs[1..])
  {
    var rest := bs[1..];
    assert forall i :: 0 <= i < |rest| ==> rest[i] == bs[i + 1];
    assert forall i :: 0 < i < |bs| ==> bs[i] == rest[i - 1];
  }

  /** A mask with a quotation mark finds nothing, not even the block that SPOOF wrote for it. */
  lemma {:induction false} QuotedMaskIsMissed(bs: seq<Block>, user: string, host: string, skipping: bool)
    requires !NoQuote(user) || !NoQuote(host)
    ensures var o := FileEffect(bs, user, host, skipping); o.Outcome? ==> !o.found
    decreases |bs|
  {
    if bs != [] {
      var e := Effect(bs[0], user, host);
      if e.Outcome? {
        QuotedMaskIsMissed(bs[1..], user, host, e.skipping);
        NoQuotedName(bs[0], user, host);
      }
    }
  }

  lemma NoQuotedName(b: Block, user: string, host: string)
    requires !NoQuote(user) || !NoQuote(host)
    ensures Effect(b, user, host).Outcome? ==> !Effect(b, user, host).found
  {
    NothingQuoted(b.user);
    NothingQuoted(b.host);
    if SameName(user, "*") && SameName(host, Before(b.user, '"')) {
      QuoteDiffers(user, "*");
      QuoteDiffers(host, Before(b.user, '"'));
    }
    if Names(AsRead(b), user, host) {
      QuoteDiffers(user, b.user);
      QuoteDiffers(host, Before(b.host, '"'));
    }
  }

  /** A block that is named as it is read is found. */
  lemma {:induction false} ReadIsFound(bs: seq<Block>, i: nat, user: string, host: string, skipping: bool)
    requires i < |bs| && NoQuote(bs[i].user) && Names(AsRead(bs[i]), user, host)
    ensures var o := FileEffect(bs, user, host, skipping); o.Outcome? ==> o.found
    decreases |bs|
  {
    var e := Effect(bs[0], user, host);
    if i > 0 && e.Outcome? {
      ReadIsFound(bs[1..], i - 1, user, host, e.skipping);
    }
  }

  /** A quotation mark in a user makes every DELSPOOF of a mask for some user undefined. */
  lemma {:induction false} QuotedUserIsUndefined(bs: seq<Block>, i: nat, user: string, host: string, skipping: bool)
    requires i < |bs| && '"' in bs[i].user && !SameName(user, "*")
    ensures FileEffect(bs, user, host, skipping).Undefined?
    decreases |bs|
  {
    var e := Effect(bs[0], user, host);
    if i > 0 && e.Outcome? {
      QuotedUserIsUndefined(bs[1..], i - 1, user, host, e.skipping);
    }
  }

  // ----- when DELSPOOF is exact

  /** DELSPOOF of a mask removes exactly the blocks of it and says whether there was one. */
  ghost predicate ExactFor(bs: seq<Block>, mask: string) {
    var (user, host) := SplitMask(Collapse(mask));
    var o := CopyFile(FileText(bs), user, host, true);
    && o.Outcome? && (o.found <==> SomeNamed(bs, user, host))
    && Removed(FileText(bs), mask) == FileText(Kept(bs, user, host))
  }

  /** For a mask without quotation mark this holds exactly if no block has one or nothing is found. */
  lemma ExactForOneMask(bs: seq<Block>, mask: string)
    requires AllWritten(bs) && '"' !in mask
    ensures
      var (user, host) := SplitMask(Collapse(mask));
      var o := CopyFile(FileText(bs), user, host, true);
      ExactFor(bs, mask) <==> AllQuoteless(bs) || (o.Outcome? && !o.found)
  {
    var (user, host) := SplitMask(Collapse(mask));
    CollapseKeepsQuotes(mask);
    SplitRejoined(Collapse(mask));
    FileIsCopied(bs, user, host, true);
    var o := FileEffect(bs, user, host, true);
    if AllQuoteless(bs) {
      ExactlyTheMaskIsRemoved(bs, user, host, true);
      if !o.found {
        NothingToRemove(bs, user, host);
      }
    } else if o.Outcome? {
      QuotedFileShrinks(bs, user, host, true);
      if !o.found {
        NoneIsNamed(bs, user, host);
        NothingToRemove(bs, user, host);
      }
    }
  }

  lemma NoneIsNamed(bs: seq<Block>, user: string, host: string)
    requires NoQuote(user) && NoQuote(host)
    requires FileEffect(bs, user, host, true).Outcome? && !FileEffect(bs, user, host, true).found
    ensures !SomeNamed(bs, user, host)
  {
    forall i | 0 <= i < |bs|
      ensures !Names(bs[i], user, host)
    {
      if Names(bs[i], user, host) {
        QuoteDiffers(user, bs[i].user);
        QuoteDiffers(host, bs[i].host);
        BeforeNone(bs[i].host, '"');
        ReadIsFound(bs, i, user, host, true);
      }
    }
  }

  /** No two stars in a row. */
  predicate Collapsed(s: string) {
    forall i :: 0 <= i < |s| - 1 ==> !TwoStarsAt(s, i)
  }

  predicate TwoStarsAt(s: string, i: nat)
    requires i + 1 < |s|
  {
    s[i] == '*' && s[i + 1] == '*'
  }

  lemma {:induction false} CollapsedIsKept(s: string)
    requires Collapsed(s)
    ensures Collapse(s) == s
  {
    if s != "" {
      var t := s[1..];
      assert |s| > 1 ==> !TwoStarsAt(s, 0);
      assert forall i :: 0 <= i < |t| - 1 ==> TwoStarsAt(t, i) == TwoStarsAt(s, i + 1);
      CollapsedIsKept(t);
    }
  }

  lemma {:induction false} CollapseIsCollapsed(s: string)
    ensures Collapsed(Collapse(s)) && (Collapse(s) != "" <==> s != "") && (s != "" ==> Collapse(s)[0] == s[0])
  {
    if s != "" {
      var t, rest := Collapse(s), Collapse(s[1..]);
      CollapseIsCollapsed(s[1..]);
      if t != rest {
        assert forall i :: 0 < i < |t| - 1 ==> TwoStarsAt(t, i) == TwoStarsAt(rest, i - 1);
      }
    }
  }

  /** The mask under which a block is read. */
  function MaskOf(b: Block): string {
    b.user + "@" + b.host
  }

  lemma MaskIsSplit(b: Block)
    requires '@' !in b.user && Collapsed(MaskOf(b))
    ensures SplitMask(Collapse(MaskOf(b))) == (b.user, b.host)
  {
    CollapsedIsKept(MaskOf(b));
    BeforeFirst(b.user, '@', b.host);
    BeforeNone(b.user, '@');
    assert b.user + ['@'] + b.host == MaskOf(b);
    assert MaskOf(b)[|b.user| + 1..] == b.host;
  }

  lemma AsReadIsCollapsed(b: Block)
    requires Collapsed(MaskOf(b))
    ensures Collapsed(MaskOf(AsRead(b)))
  {
    var s, t := MaskOf(b), MaskOf(AsRead(b));
    assert t == s[..|t|];
    assert forall i :: 0 <= i < |t| - 1 ==> TwoStarsAt(t, i) == TwoStarsAt(s, i);
  }

  /** DELSPOOF of u@p removes the block of u@p"q, which is another mask. */
  lemma UnrelatedIsRemoved(b: Block)
    requires WrittenBlock(b) && Collapsed(MaskOf(b)) && NoQuote(b.user) && '"' in b.host
    ensures !Names(b, b.user, Before(b.host, '"'))
    ensures Removed(FileText([b]), MaskOf(AsRead(b))) == ""
  {
    var host := Before(b.host, '"');
    AsReadIsCollapsed(b);
    MaskIsSplit(AsRead(b));
    SameNameIsEquivalence();
    NothingQuoted(b.host);
    if SameName(host, b.host) {
      QuoteDiffers(host, b.host);
    }
    FileIsCopied([b], b.user, host, true);
    assert FileEffect([b], b.user, host, true) == After(Outcome("", true, true), FileEffect([b][1..], b.user, host, true));
  }

  /** On a file of blocks that SPOOF wrote, DELSPOOF is exact for every mask exactly if no block has a quotation mark. */
  lemma DelspoofIsExact(bs: seq<Block>)
    requires AllWritten(bs) && forall i :: 0 <= i < |bs| ==> Collapsed(MaskOf(bs[i]))
    ensures (forall mask :: mask != "" ==> ExactFor(bs, mask)) <==> AllQuoteless(bs)
  {
    if AllQuoteless(bs) {
      forall mask
        ensures ExactFor(bs, mask)
      {
        ExactWithoutQuotes(bs, mask);
      }
    } else {
      var i :| 0 <= i < |bs| && !Quoteless(bs[i]);
      var mask := NotExact(bs, i);
      assert mask != "" && !ExactFor(bs, mask);
    }
  }

  lemma ExactWithoutQuotes(bs: seq<Block>, mask: string)
    requires AllWritten(bs) && AllQuoteless(bs)
    ensures ExactFor(bs, mask)
  {
    var (user, host) := SplitMask(Collapse(mask));
    ExactlyTheMaskIsRemoved(bs, user, host, true);
    if !SomeNamed(bs, user, host) {
      NothingToRemove(bs, user, host);
    }
  }

  lemma NotExact(bs: seq<Block>, i: nat) returns (mask: string)
    requires AllWritten(bs) && i < |bs| && Collapsed(MaskOf(bs[i])) && !Quoteless(bs[i])
    ensures mask != "" && !ExactFor(bs, mask)
  {
    if '"' in bs[i].user {
      mask := "x@y";
      var b := Block("x", "y", []);
      assert MaskOf(b) == mask;
      MaskIsSplit(b);
      FileIsCopied(bs, "x", "y", true);
      assert !SameName("x", "*");
      QuotedUserIsUndefined(bs, i, "x", "y", true);
    } else {
      var b := AsRead(bs[i]);
      mask := MaskOf(b);
      AsReadIsCollapsed(bs[i]);
      MaskIsSplit(b);
      NothingQuoted(bs[i].host);
      SameNameIsEquivalence();
      FileIsCopied(bs, b.user, b.host, true);
      ReadIsFound(bs, i, b.user, b.host, true);
      if FileEffect(bs, b.user, b.host, true).Outcome? {
        QuotedFileShrinks(bs, b.user, b.host, true);
      }
    }
  }

  // ----- SPOOF and then DELSPOOF

  lemma SplitRejoined(mask: string)
    ensures
      var (user, host) := SplitMask(mask);
      '@' !in user && ('"' in mask <==> '"' in user || '"' in host) && (NoBreak(mask) ==> NoBreak(user) && NoBreak(host))
  {
    var name := Before(mask, '@');
    if '@' in mask {
      BeforeSome(mask, '@');
      BeforeStops(mask, '@');
      assert mask == name + ['@'] + mask[|name| + 1..];
    } else {
      BeforeNone(mask, '@');
    }
  }

  lemma {:induction false} FileTextConcat(bs: seq<Block>, b: Block)
    ensures FileText(bs + [b]) == FileText(bs) + BlockText(b)
  {
    if bs == [] {
      assert [] + [b] == [b] && [b][1..] == [];
      assert BlockText(b) + "" == BlockText(b);
    } else {
      assert (bs + [b])[0] == bs[0] && (bs + [b])[1..] == bs[1..] + [b];
      FileTextConcat(bs[1..], b);
    }
  }

  lemma {:induction false} KeptConcat(bs: seq<Block>, b: Block, user: string, host: string)
    requires !SomeNamed(bs, user, host)
    ensures Kept(bs + [b], user, host) == bs + if Names(b, user, host) then [] else [b]
  {
    if bs == [] {
      assert [] + [b] == [b] && [b][1..] == [];
    } else {
      assert (bs + [b])[0] == bs[0] && (bs + [b])[1..] == bs[1..] + [b];
      SomeNamedSplits(bs, user, host);
      KeptConcat(bs[1..], b, user, host);
    }
  }

  lemma QuotelessConcat(bs: seq<Block>, b: Block)
    ensures AllQuoteless(bs + [b]) <==> AllQuoteless(bs) && Quoteless(b)
    ensures AllWritten(bs) && WrittenBlock(b) ==> AllWritten(bs + [b])
    ensures SomeNamed(bs + [b], b.user, b.host)
  {
    var all := bs + [b];
    assert all[|bs|] == b && forall i :: 0 <= i < |bs| ==> all[i] == bs[i];
    SameNameIsEquivalence();
    assert Names(all[|bs|], b.user, b.host);
  }

  /** A new block at the end of a file is all that its mask takes out, exactly without quotation marks. */
  lemma LastIsRemoved(bs: seq<Block>, b: Block)
    requires AllWritten(bs) && WrittenBlock(b) && !SomeNamed(bs, b.user, b.host)
    ensures
      var o := CopyFile(FileText(bs + [b]), b.user, b.host, true);
      (o.Outcome? && o.found && o.out == FileText(bs)) <==> Quoteless(b) && AllQuoteless(bs)
  {
    QuotelessConcat(bs, b);
    FileIsCopied(bs + [b], b.user, b.host, true);
    if !Quoteless(b) {
      QuotedMaskIsMissed(bs + [b], b.user, b.host, true);
    } else {
      SameNameIsEquivalence();
      KeptConcat(bs, b, b.user, b.host);
      assert bs + [] == bs;
      if AllQuoteless(bs) {
        ExactlyTheMaskIsRemoved(bs + [b], b.user, b.host, true);
      } else if FileEffect(bs + [b], b.user, b.host, true).Outcome? {
        QuotedFileShrinks(bs + [b], b.user, b.host, true);
      }
    }
  }

  /** DELSPOOF undoes SPOOF of a new mask exactly when neither the mask nor a block of the file has a quotation mark. */
  lemma DelspoofUndoesSpoof(bs: seq<Block>, mask: string, tail: seq<string>)
    requires AllWritten(bs) && AllPlain(tail)
    requires
      var (user, host) := SplitMask(Collapse(mask));
      NoBreak(Collapse(mask)) && |UserLine(user, host)| <= LINE_MAX && !SomeNamed(bs, user, host)
    ensures
      var (user, host) := SplitMask(Collapse(mask));
      (Removed(FileText(bs) + BlockText(Block(user, host, tail)), mask) == FileText(bs)) <==> '"' !in mask && AllQuoteless(bs)
  {
    var (user, host) := SplitMask(Collapse(mask));
    var b := Block(user, host, tail);
    CollapseKeepsQuotes(mask);
    SplitRejoined(Collapse(mask));
    FileTextConcat(bs, b);
    BlockSplit(b);
    LastIsRemoved(bs, b);
  }

  lemma {:induction false} CollapseKeepsQuotes(s: string)
    ensures '"' in Collapse(s) <==> '"' in s
  {
    if s != "" {
      CollapseKeepsQuotes(s[1..]);
      assert s == [s[0]] + s[1..];
    }
  }

  // ----- the lines of a block

  lemma OtherFieldIsPlain(line: string)
    requires OneLine(line) && |line| > 1 && line[0] == '\t' && line[1] in {'s', 'p', 'f', 'c'}
    ensures Plain(line)
  {
    var s := line[1..];
    assert s[0] == line[1] && SkipBlanks(line) == s;
    if |s| >= 4 {
      assert s[..4][0] == s[0] && "user"[0] == 'u';
    }
    if |line| >= 6 {
      assert line[..6][0] == '\t' && "auth {"[0] == 'a';
    }
  }

  lemma QuotedLine(head: string, value: string)
    requires |head| > 0 && NoBreak(head) && NoBreak(value) && |head| + |value| + 3 <= LINE_MAX
    ensures OneLine(head + value + "\";\n")
  {
  }

  lemma FlagTextFirst(fs: set<Flag>, order: seq<Flag>)
    requires order != []
    ensures order[0] !in fs ==> FlagText(fs, order) == FlagText(fs, order[1..])
    ensures fs == {order[0]} ==> FlagText(fs, order) == FlagName(order[0]) + ";\n"
    ensures order[0] in fs && fs != {order[0]} ==>
              FlagText(fs, order) == FlagName(order[0]) + ", " + FlagText(fs - {order[0]}, order[1..])
  {
    var f, rest := order[0], order[1..];
    if f !in fs {
      assert fs - {f} == fs;
      assert TryText(fs, f) == "";
    } else if fs == {f} {
      assert fs - {f} == {};
      NoFlagsLeft(rest);
    } else {
      assert fs - {f} != {} by {
        var g :| g in fs && g != f;
        assert g in fs - {f};
      }
    }
  }

  lemma NameThenRest(name: string, rest: string)
    requires NoBreak(name) && Ended(rest)
    ensures Ended(name + ", " + rest)
  {
    var t, k := name + ", " + rest, |name| + 2;
    assert t[|t| - 1] == rest[|rest| - 1];
    forall i | 0 <= i < |t| - 1
      ensures t[i] != '\n' && t[i] != '\r'
    {
      assert t[i] == if i < |name| then name[i] else if i < k then ", "[i - |name|] else rest[i - k];
    }
  }

  lemma {:induction false} FlagTextEnds(fs: set<Flag>, order: seq<Flag>)
    requires fs != {} && forall f :: f in fs ==> f in order
    ensures Ended(FlagText(fs, order)) && |FlagText(fs, order)| <= 15 * |order|
  {
    var f, rest := order[0], order[1..];
    assert forall g :: g in order <==> g == f || g in rest;
    FlagNameIsShort(f);
    FlagTextFirst(fs, order);
    if f !in fs {
      FlagTextEnds(fs, rest);
    } else if fs != {f} {
      FlagTextEnds(fs - {f}, rest);
      NameThenRest(FlagName(f), FlagText(fs - {f}, rest));
    }
  }

  lemma FlagNameIsShort(f: Flag)
    ensures 0 < |FlagName(f)| <= 13 && NoBreak(FlagName(f))
  {
  }

  lemma {:induction false} NoFlagsLeft(order: seq<Flag>)
    ensures FlagText({}, order) == ""
  {
    if order != [] {
      assert {} - {order[0]} == {};
      NoFlagsLeft(order[1..]);
    }
  }

  // ----- the flag line

  /** The flags with a name in the configuration file. */
  function Named(name: string): set<Flag> {
    set f | f in FLAGS && FlagName(f) == name
  }

  /** A reader of `name, name, ... ;`. */
  function ReadFlags(text: string): set<Flag>
    decreases |text|
  {
    var end := if |Before(text, ',')| < |Before(text, ';')| then ',' else ';';
    var name := Before(text, end);
    Named(name) + if end == ';' || |name| + 2 > |text| then {} else ReadFlags(text[|name| + 2..])
  }

  lemma NamesDiffer(f: Flag, g: Flag)
    requires f != g
    ensures |FlagName(f)| != |FlagName(g)| || FlagName(f)[0] != FlagName(g)[0]
  {
  }

  lemma NamedIsTheFlag(f: Flag)
    ensures Named(FlagName(f)) == {f}
  {
    EveryFlagHasATurn(f);
    forall g | FlagName(g) == FlagName(f)
      ensures g == f
    {
      if f != g {
        NamesDiffer(f, g);
      }
    }
  }

  /** The first name of a list of names. */
  lemma FirstName(name: string, rest: string)
    requires ',' !in name && ';' !in name
    ensures ReadFlags(name + ", " + rest) == Named(name) + ReadFlags(rest)
  {
    var more, tail := name + ", " + rest, ", " + rest;
    assert more == name + tail;
    BeforeSkips(name, ',', tail);
    BeforeSkips(name, ';', tail);
    assert Before(tail, ',') == "" && |Before(tail, ';')| > 0;
    assert more[|name| + 2..] == rest;
  }

  lemma LastName(name: string)
    requires ',' !in name && ';' !in name
    ensures ReadFlags(name + ";\n") == Named(name)
  {
    BeforeSkips(name, ',', ";\n");
    BeforeSkips(name, ';', ";\n");
    assert Before(";\n", ';') == "";
  }

  lemma NoSeparator(f: Flag)
    ensures ',' !in FlagName(f) && ';' !in FlagName(f)
  {
  }

  lemma FirstFlag(f: Flag, rest: string)
    ensures ReadFlags(FlagName(f) + ", " + rest) == {f} + ReadFlags(rest)
    ensures ReadFlags(FlagName(f) + ";\n") == {f}
  {
    NoSeparator(f);
    NamedIsTheFlag(f);
    FirstName(FlagName(f), rest);
    LastName(FlagName(f));
  }

  /** The text that try_flag() writes names exactly the flags it was given. */
  lemma {:induction false} FlagTextIsRead(fs: set<Flag>, order: seq<Flag>)
    requires fs != {} && forall f :: f in fs ==> f in order
    ensures ReadFlags(FlagText(fs, order)) == fs
  {
    var f, rest := order[0], order[1..];
    assert forall g :: g in order <==> g == f || g in rest;
    FlagTextFirst(fs, order);
    if f !in fs {
      FlagTextIsRead(fs, rest);
    } else {
      FirstFlag(f, FlagText(fs - {f}, rest));
      if fs != {f} {
        FlagTextIsRead(fs - {f}, rest);
      }
    }
  }

  lemma EveryFlagHasATurn(f: Flag)
    ensures f in FLAGS
  {
    assert FLAGS[0] == NoTilde && FLAGS[1] == NeedIdentd && FLAGS[2] == ExemptKline && FLAGS[3] == ExemptGline;
    assert FLAGS[4] == NoLimit && FLAGS[5] == CanFlood && FLAGS[6] == NeedPassword;
  }

  lemma AllFlagsHaveATurn(fs: set<Flag>)
    ensures forall f :: f in fs ==> f in FLAGS
  {
    forall f | f in fs
      ensures f in FLAGS
    {
      EveryFlagHasATurn(f);
    }
  }

  /** The flag line of a block says exactly the flags that the letters of SPOOF stood for. */
  lemma FlagLineIsRead(letters: string)
    requires FlagsOf(letters) != {}
    ensures
      var line := FlagLine(FlagsOf(letters));
      line[..9] == "\tflags = " && ReadFlags(line[9..]) == FlagsOf(letters)
  {
    var fs := FlagsOf(letters);
    AllFlagsHaveATurn(fs);
    FlagTextIsRead(fs, FLAGS);
    var head := "\tflags = ";
    assert |head| == 9;
  }

  lemma HeadThenEnd(head: string, rest: string)
    requires NoBreak(head) && Ended(rest)
    ensures Ended(head + rest)
  {
  }

  lemma FlagLineIsPlain(fs: set<Flag>)
    requires fs != {}
    ensures Plain(FlagLine(fs))
  {
    AllFlagsHaveATurn(fs);
    FlagTextEnds(fs, FLAGS);
    HeadThenEnd("\tflags = ", FlagText(fs, FLAGS));
    OtherFieldIsPlain(FlagLine(fs));
  }

  lemma PlainConcat(a: seq<string>, b: seq<string>)
    requires AllPlain(a) && AllPlain(b)
    ensures AllPlain(a + b)
  {
  }

  lemma SpoofPartIsPlain(spoof: string)
    requires spoof != "-" ==> |spoof| < HOSTLEN && forall i :: 0 <= i < |spoof| ==> IsHostChar(spoof[i])
    ensures AllPlain(if spoof != "-" then [SpoofLine(spoof)] else [])
  {
    if spoof != "-" {
      QuotedLine("\tspoof = \"", spoof);
      OtherFieldIsPlain(SpoofLine(spoof));
    }
  }

  lemma PasswordPartIsPlain(password: string)
    requires NoBreak(password) && |PasswordLine(password)| <= LINE_MAX
    ensures AllPlain(if password != "" then [PasswordLine(password)] else [])
  {
    QuotedLine("\tpassword = \"", password);
    OtherFieldIsPlain(PasswordLine(password));
  }

  lemma FlagPartIsPlain(fs: set<Flag>)
    ensures AllPlain(if fs != {} then [FlagLine(fs)] else [])
  {
    if fs != {} {
      FlagLineIsPlain(fs);
    }
  }

  lemma ClassLineIsPlain(opers: bool)
    ensures Plain(ClassLine(opers))
  {
    var name := if opers then "opers" else "users";
    QuotedLine("\tclass = \"", name);
    assert ClassLine(opers) == "\tclass = \"" + name + "\";\n";
    OtherFieldIsPlain(ClassLine(opers));
  }

  lemma EndIsPlain(opers: bool)
    ensures AllPlain([ClassLine(opers), "};\n", "\n"])
  {
    ClassLineIsPlain(opers);
  }

  /** SPOOF writes no line after the user line that DELSPOOF could take for another. */
  lemma TailIsPlain(spoof: string, password: string, fs: set<Flag>, opers: bool)
    requires spoof != "-" ==> |spoof| < HOSTLEN && forall i :: 0 <= i < |spoof| ==> IsHostChar(spoof[i])
    requires NoBreak(password) && |PasswordLine(password)| <= LINE_MAX
    ensures AllPlain(BlockTail(spoof, password, fs, opers))
  {
    var a := if spoof != "-" then [SpoofLine(spoof)] else [];
    var b := if password != "" then [PasswordLine(password)] else [];
    var c := if fs != {} then [FlagLine(fs)] else [];
    SpoofPartIsPlain(spoof);
    PasswordPartIsPlain(password);
    FlagPartIsPlain(fs);
    EndIsPlain(opers);
    PlainConcat(a, b);
    PlainConcat(a + b, c);
    PlainConcat(a + b + c, [ClassLine(opers), "};\n", "\n"]);
  }

  /** What SPOOF asks of its parameters, and that they come from lines of ordinary length. */
  predicate GoodParameters(mask: string, spoof: string, password: string) {
    var (user, host) := SplitMask(Collapse(mask));
    && NoBreak(Collapse(mask)) && |UserLine(user, host)| <= LINE_MAX
    && (spoof != "-" ==> |spoof| < HOSTLEN && forall i :: 0 <= i < |spoof| ==> IsHostChar(spoof[i]))
    && NoBreak(password) && |PasswordLine(password)| <= LINE_MAX
  }

  /** The block that SPOOF writes. */
  function Written(mask: string, spoof: string, password: string, letters: string): Block {
    var (user, host) := SplitMask(Collapse(mask));
    Block(user, host, BlockTail(spoof, password, FlagsOf(letters), 'o' in letters))
  }

  /** A block that SPOOF writes is one that DELSPOOF understands as far as it has no quotation mark. */
  lemma WrittenBlockIsGood(mask: string, spoof: string, password: string, letters: string)
    requires GoodParameters(mask, spoof, password)
    ensures
      var b := Written(mask, spoof, password, letters);
      WrittenBlock(b) && Collapsed(MaskOf(b)) && (Quoteless(b) <==> '"' !in mask)
  {
    CollapseKeepsQuotes(mask);
    CollapseIsCollapsed(mask);
    SplitRejoined(Collapse(mask));
    SplitIsCollapsed(Collapse(mask));
    TailIsPlain(spoof, password, FlagsOf(letters), 'o' in letters);
  }

  lemma SplitIsCollapsed(mask: string)
    requires Collapsed(mask)
    ensures var (user, host) := SplitMask(mask); Collapsed(user + "@" + host)
  {
    var name := Before(mask, '@');
    if |name| < |mask| {
      BeforeStops(mask, '@');
      assert name + "@" + mask[|name| + 1..] == mask;
    } else {
      var s := "*" + "@" + mask;
      assert forall i :: 2 <= i < |s| - 1 ==> TwoStarsAt(s, i) == TwoStarsAt(mask, i - 2);
    }
  }

  /** SPOOF of a new mask and then DELSPOOF of it restores the file exactly when neither the mask nor a block of the file
      has a quotation mark. */
  lemma SpoofThenDelspoof(bs: seq<Block>, mask: string, spoof: string, password: string, letters: string)
    requires GoodParameters(mask, spoof, password) && AllWritten(bs)
    requires var (user, host) := SplitMask(Collapse(mask)); !SomeNamed(bs, user, host)
    ensures
      (Removed(FileText(bs) + BlockText(Written(mask, spoof, password, letters)), mask) == FileText(bs))
        <==> '"' !in mask && AllQuoteless(bs)
  {
    TailIsPlain(spoof, password, FlagsOf(letters), 'o' in letters);
    DelspoofUndoesSpoof(bs, mask, BlockTail(spoof, password, FlagsOf(letters), 'o' in letters));
  }
}
