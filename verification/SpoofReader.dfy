/** What a reader of the configuration finds in a block that SPOOF wrote, field by field, and in a line of the file
    (contrib/m_spoof.c:272-335, src/fileio.c:210-262). */
module SpoofReader {
  import opened Options
  import opened Text
  import opened Spoof
  import opened SpoofLaws

  // ----- the reader

  /** What follows the name of a field and its sign in a line. */
  function LineField(line: string, name: string): Option<string> {
    var head := "\t" + name + " = ";
    if head <= line then Some(line[|head|..]) else None
  }

  /** The first field of a name in some lines. */
  function Field(lines: seq<string>, name: string): Option<string> {
    if lines == [] then None
    else if LineField(lines[0], name).Some? then LineField(lines[0], name)
    else Field(lines[1..], name)
  }

  /** The lines of a text. */
  function LinesIn(text: string): seq<string>
    decreases |text|
  {
    if text == "" then [] else var (line, rest) := NextLine(text, LINE_MAX); [line] + LinesIn(rest)
  }

  /** What stands between the quotation marks. */
  function Unquoted(value: string): Option<string> {
    if value != "" && value[0] == '"' then Some(Before(value[1..], '"')) else None
  }

  function QuotedAt(text: string, name: string): Option<string> {
    var value := Field(LinesIn(text), name);
    if value.None? then None else Unquoted(value.value)
  }

  /** The names in `name, name, ... ;`. */
  function NamesIn(text: string): set<string>
    decreases |text|
  {
    var end := if |Before(text, ',')| < |Before(text, ';')| then ',' else ';';
    var name := Before(text, end);
    {name} + if end == ';' || |name| + 2 > |text| then {} else NamesIn(text[|name| + 2..])
  }

  function FlagsAt(text: string): set<string> {
    var value := Field(LinesIn(text), "flags");
    if value.None? then {} else NamesIn(value.value)
  }

  /** The flag that a letter of SPOOF asks for. */
  function Asked(letter: char): Option<string> {
    match letter
    case 't' => Some("no_tilde")
    case 'i' => Some("need_ident")
    case 'k' => Some("kline_exempt")
    case 'g' => Some("gline_exempt")
    case 'l' => Some("exceed_limit")
    case 'f' => Some("can_flood")
    case 'p' => Some("need_password")
    case _ => None
  }

  // ----- lines

  lemma {:induction false} LinesAreRead(ls: seq<string>)
    requires forall i :: 0 <= i < |ls| ==> OneLine(ls[i])
    ensures LinesIn(Lines(ls)) == ls
  {
    if ls != [] {
      LineIsNext(ls[0], Lines(ls[1..]), LINE_MAX);
      LinesAreRead(ls[1..]);
      assert ls == [ls[0]] + ls[1..];
    }
  }

  lemma {:induction false} FieldConcat(a: seq<string>, b: seq<string>, name: string)
    ensures Field(a + b, name) == if Field(a, name).Some? then Field(a, name) else Field(b, name)
  {
    if a == [] {
      assert a + b == b;
    } else {
      assert (a + b)[0] == a[0] && (a + b)[1..] == a[1..] + b;
      FieldConcat(a[1..], b, name);
    }
  }

  lemma FieldOfOne(line: string, name: string)
    ensures Field([line], name) == LineField(line, name)
  {
    assert [line][1..] == [];
  }

  /** A line that does not begin like the field has none. */
  lemma OtherLine(line: string, name: string)
    requires name != "" && (|line| < 2 || line[0] != '\t' || line[1] != name[0])
    ensures LineField(line, name) == None
  {
    var head := "\t" + name + " = ";
    assert head[0] == '\t' && head[1] == name[0];
  }

  lemma QuotedLineField(name: string, value: string)
    requires NoQuote(value)
    ensures
      var line := "\t" + name + " = " + ("\"" + value + "\";\n");
      LineField(line, name).Some? && Unquoted(LineField(line, name).value) == Some(value)
  {
    var head, rest := "\t" + name + " = ", "\"" + value + "\";\n";
    assert (head + rest)[|head|..] == rest;
    assert rest[1..] == value + ['"'] + ";\n";
    BeforeFirst(value, '"', ";\n");
    BeforeNone(value, '"');
  }

  // ----- the flags

  /** The first name of a list of names. */
  lemma FirstNameIn(name: string, rest: string)
    requires ',' !in name && ';' !in name
    ensures NamesIn(name + ", " + rest) == {name} + NamesIn(rest) && NamesIn(name + ";\n") == {name}
  {
    var more, tail := name + ", " + rest, ", " + rest;
    assert more == name + tail;
    BeforeSkips(name, ',', tail);
    BeforeSkips(name, ';', tail);
    assert Before(tail, ',') == "" && |Before(tail, ';')| > 0;
    assert more[|name| + 2..] == rest;
    BeforeSkips(name, ',', ";\n");
    BeforeSkips(name, ';', ";\n");
    assert Before(";\n", ';') == "";
  }

  function NamesOf(fs: set<Flag>): set<string> {
    set f | f in fs :: FlagName(f)
  }

  lemma NamesOfMore(fs: set<Flag>, f: Flag)
    requires f in fs
    ensures NamesOf(fs) == {FlagName(f)} + NamesOf(fs - {f})
  {
    assert fs == {f} + (fs - {f});
  }

  lemma {:induction false} FlagTextNames(fs: set<Flag>, order: seq<Flag>)
    requires fs != {} && forall f :: f in fs ==> f in order
    ensures NamesIn(FlagText(fs, order)) == NamesOf(fs)
  {
    var f, rest := order[0], order[1..];
    assert forall g :: g in order <==> g == f || g in rest;
    FlagTextFirst(fs, order);
    if f !in fs {
      FlagTextNames(fs, rest);
    } else {
      NoSeparator(f);
      FirstNameIn(FlagName(f), FlagText(fs - {f}, rest));
      NamesOfMore(fs, f);
      if fs != {f} {
        FlagTextNames(fs - {f}, rest);
      }
    }
  }

  lemma LetterIsFlag(letter: char, name: string)
    ensures (exists f :: f in FlagOf(letter) && FlagName(f) == name) <==> Asked(letter) == Some(name)
  {
    assert Asked(letter).Some? ==> exists f :: f in FlagOf(letter) && FlagName(f) == Asked(letter).value by {
      if Asked(letter).Some? {
        var f :| f in FlagOf(letter);
      }
    }
  }

  lemma {:induction false} FlagsAreAsked(letters: string, name: string)
    ensures (exists f :: f in FlagsOf(letters) && FlagName(f) == name)
       <==> exists i :: 0 <= i < |letters| && Asked(letters[i]) == Some(name)
    decreases |letters|
  {
    if letters != "" {
      var rest := letters[1..];
      LetterIsFlag(letters[0], name);
      FlagsAreAsked(rest, name);
      if i :| 0 <= i < |letters| && Asked(letters[i]) == Some(name) {
        assert i > 0 ==> Asked(rest[i - 1]) == Some(name);
      }
      if i :| 0 <= i < |rest| && Asked(rest[i]) == Some(name) {
        assert Asked(letters[i + 1]) == Some(name);
      }
      if f :| f in FlagsOf(rest) && FlagName(f) == name {
        assert f in FlagsOf(letters);
      }
    }
  }

  // ----- the block

  /** The lines of a block, each optional one in a group of its own. */
  function Groups(mask: string, spoof: string, password: string, letters: string): seq<seq<string>> {
    var b, fs := Written(mask, spoof, password, letters), FlagsOf(letters);
    [["auth {\n"], [UserLine(b.user, b.host)], if spoof != "-" then [SpoofLine(spoof)] else [],
     if password != "" then [PasswordLine(password)] else [], if fs != {} then [FlagLine(fs)] else [],
     [ClassLine('o' in letters)], ["};\n"], ["\n"]]
  }

  function Joined(g: seq<seq<string>>): seq<string>
    requires |g| == 8
  {
    g[0] + g[1] + g[2] + g[3] + g[4] + g[5] + g[6] + g[7]
  }

  lemma GroupsAreLines(mask: string, spoof: string, password: string, letters: string)
    ensures
      var b := Written(mask, spoof, password, letters);
      Joined(Groups(mask, spoof, password, letters)) == ["auth {\n", UserLine(b.user, b.host)] + b.tail
  {
    var g, b := Groups(mask, spoof, password, letters), Written(mask, spoof, password, letters);
    TwoAndFour(g[0][0], g[1][0], g[2], g[3], g[4], g[5][0], g[6][0], g[7][0]);
  }

  lemma TwoAndFour<A>(a: A, b: A, c: seq<A>, d: seq<A>, e: seq<A>, f: A, g: A, h: A)
    ensures [a] + [b] + c + d + e + [f] + [g] + [h] == [a, b] + (c + d + e + [f, g, h])
  {
  }

  /** A group of at most one line that begins with another letter. */
  lemma OtherGroup(group: seq<string>, name: string)
    requires name != ""
    requires group == [] || (|group| == 1 && (|group[0]| < 2 || group[0][0] != '\t' || group[0][1] != name[0]))
    ensures Field(group, name) == None
  {
    if group != [] {
      FieldOfOne(group[0], name);
      OtherLine(group[0], name);
    }
  }

  /** The place of each field. */
  predicate PlaceOf(name: string, k: nat) {
    (name == "user" && k == 1) || (name == "spoof" && k == 2) || (name == "password" && k == 3)
    || (name == "flags" && k == 4) || (name == "class" && k == 5)
  }

  lemma OnlyItsGroup(mask: string, spoof: string, password: string, letters: string, name: string, k: nat, i: nat)
    requires PlaceOf(name, k) && i < 8 && i != k
    ensures Field(Groups(mask, spoof, password, letters)[i], name) == None
  {
    OtherGroup(Groups(mask, spoof, password, letters)[i], name);
  }

  /** What the reader finds is what the group of the field says. */
  lemma FieldOfBlock(mask: string, spoof: string, password: string, letters: string, name: string, k: nat)
    requires GoodParameters(mask, spoof, password) && PlaceOf(name, k)
    ensures Field(LinesIn(BlockText(Written(mask, spoof, password, letters))), name)
              == Field(Groups(mask, spoof, password, letters)[k], name)
  {
    var b, g := Written(mask, spoof, password, letters), Groups(mask, spoof, password, letters);
    LinesOfBlock(mask, spoof, password, letters);
    LinesAreRead(["auth {\n", UserLine(b.user, b.host)] + b.tail);
    GroupsAreLines(mask, spoof, password, letters);
    forall i | 0 <= i < |g| && i != k
      ensures Field(g[i], name) == None
    {
      OnlyItsGroup(mask, spoof, password, letters, name, k, i);
    }
    FieldOfJoined(g, name, k);
  }

  lemma LinesOfBlock(mask: string, spoof: string, password: string, letters: string)
    requires GoodParameters(mask, spoof, password)
    ensures
      var b := Written(mask, spoof, password, letters);
      var ls := ["auth {\n", UserLine(b.user, b.host)] + b.tail;
      forall i :: 0 <= i < |ls| ==> OneLine(ls[i])
  {
    var b := Written(mask, spoof, password, letters);
    WrittenBlockIsGood(mask, spoof, password, letters);
    UserLineIsOneLine(b.user, b.host);
    assert OneLine("auth {\n");
  }

  /** A host name holds no quotation mark. */
  lemma HostIsQuoteless(spoof: string)
    requires forall i :: 0 <= i < |spoof| ==> IsHostChar(spoof[i])
    ensures NoQuote(spoof)
  {
    forall i | 0 <= i < |spoof|
      ensures spoof[i] != '"'
    {
      assert IsHostChar(spoof[i]);
    }
  }

  /** A group of one line with a quoted value. */
  lemma QuotedIsRead(mask: string, spoof: string, password: string, letters: string, name: string, k: nat, value: string)
    requires GoodParameters(mask, spoof, password) && PlaceOf(name, k) && NoQuote(value)
    requires Groups(mask, spoof, password, letters)[k] == ["\t" + name + " = " + ("\"" + value + "\";\n")]
    ensures QuotedAt(BlockText(Written(mask, spoof, password, letters)), name) == Some(value)
  {
    FieldOfBlock(mask, spoof, password, letters, name, k);
    FieldOfOne("\t" + name + " = " + ("\"" + value + "\";\n"), name);
    QuotedLineField(name, value);
  }

  lemma UserIsRead(mask: string, spoof: string, password: string, letters: string)
    requires GoodParameters(mask, spoof, password) && '"' !in mask
    ensures
      var m := Collapse(mask);
      QuotedAt(BlockText(Written(mask, spoof, password, letters)), "user") == Some(if '@' in m then m else "*@" + m)
  {
    var m := Collapse(mask);
    CollapseKeepsQuotes(mask);
    UserGroup(mask, spoof, password, letters);
    StarHasNoQuote(m);
    QuotedIsRead(mask, spoof, password, letters, "user", 1, if '@' in m then m else "*@" + m);
  }

  lemma StarHasNoQuote(m: string)
    requires '"' !in m
    ensures NoQuote("*@" + m)
  {
  }

  lemma UserGroup(mask: string, spoof: string, password: string, letters: string)
    ensures
      var m := Collapse(mask);
      Groups(mask, spoof, password, letters)[1]
        == ["\t" + "user" + " = " + ("\"" + (if '@' in m then m else "*@" + m) + "\";\n")]
  {
    SecondGroup(mask, spoof, password, letters);
    LineOfMask(Collapse(mask));
  }

  lemma SecondGroup(mask: string, spoof: string, password: string, letters: string)
    ensures
      var (user, host) := SplitMask(Collapse(mask));
      Groups(mask, spoof, password, letters)[1] == [UserLine(user, host)]
  {
  }

  lemma LineOfMask(m: string)
    ensures
      var (user, host) := SplitMask(m);
      UserLine(user, host) == "\t" + "user" + " = " + ("\"" + (if '@' in m then m else "*@" + m) + "\";\n")
  {
    var (user, host) := SplitMask(m);
    SplitIsAtFirst(m);
    UserLineIs(user, host);
  }

  lemma UserLineIs(user: string, host: string)
    ensures UserLine(user, host) == "\t" + "user" + " = " + ("\"" + (user + "@" + host) + "\";\n")
  {
    assert "\t" + "user" + " = " == "\tuser = ";
  }

  /** A mask is split at its first @; without one it is for all users. */
  lemma SplitIsAtFirst(mask: string)
    ensures
      var (user, host) := SplitMask(mask);
      user + "@" + host == (if '@' in mask then mask else "*@" + mask) && ('@' !in mask ==> user == "*" && host == mask)
  {
    if '@' in mask {
      BeforeSome(mask, '@');
      BeforeStops(mask, '@');
    } else {
      BeforeNone(mask, '@');
    }
  }

  lemma SpoofIsRead(mask: string, spoof: string, password: string, letters: string)
    requires GoodParameters(mask, spoof, password)
    ensures QuotedAt(BlockText(Written(mask, spoof, password, letters)), "spoof") == if spoof == "-" then None else Some(spoof)
  {
    if spoof != "-" {
      HostIsQuoteless(spoof);
      assert SpoofLine(spoof) == "\t" + "spoof" + " = " + ("\"" + spoof + "\";\n");
      QuotedIsRead(mask, spoof, password, letters, "spoof", 2, spoof);
    } else {
      FieldOfBlock(mask, spoof, password, letters, "spoof", 2);
    }
  }

  lemma PasswordIsRead(mask: string, spoof: string, password: string, letters: string)
    requires GoodParameters(mask, spoof, password) && '"' !in password
    ensures QuotedAt(BlockText(Written(mask, spoof, password, letters)), "password")
              == if password == "" then None else Some(password)
  {
    if password != "" {
      assert PasswordLine(password) == "\t" + "password" + " = " + ("\"" + password + "\";\n");
      QuotedIsRead(mask, spoof, password, letters, "password", 3, password);
    } else {
      FieldOfBlock(mask, spoof, password, letters, "password", 3);
    }
  }

  lemma FlagsAreRead(mask: string, spoof: string, password: string, letters: string, name: string)
    requires GoodParameters(mask, spoof, password)
    ensures name in FlagsAt(BlockText(Written(mask, spoof, password, letters)))
       <==> exists i :: 0 <= i < |letters| && Asked(letters[i]) == Some(name)
  {
    var fs := FlagsOf(letters);
    FieldOfBlock(mask, spoof, password, letters, "flags", 4);
    FlagsAreAsked(letters, name);
    if fs != {} {
      FieldOfOne(FlagLine(fs), "flags");
      assert "\t" + "flags" + " = " == "\tflags = ";
      assert FlagLine(fs)[|"\tflags = "|..] == FlagText(fs, FLAGS);
      AllFlagsHaveATurn(fs);
      FlagTextNames(fs, FLAGS);
    }
  }

  lemma ClassIsRead(mask: string, spoof: string, password: string, letters: string)
    requires GoodParameters(mask, spoof, password)
    ensures QuotedAt(BlockText(Written(mask, spoof, password, letters)), "class")
              == Some(if 'o' in letters then "opers" else "users")
  {
    ClassLineIs('o' in letters);
    QuotedIsRead(mask, spoof, password, letters, "class", 5, if 'o' in letters then "opers" else "users");
  }

  lemma ClassLineIs(opers: bool)
    ensures ClassLine(opers) == "\t" + "class" + " = " + ("\"" + (if opers then "opers" else "users") + "\";\n")
  {
  }

  /** The configuration finds in a block what SPOOF was asked for. */
  lemma BlockIsRead(mask: string, spoof: string, password: string, letters: string)
    requires GoodParameters(mask, spoof, password) && '"' !in mask && '"' !in password
    ensures
      var text, m := BlockText(Written(mask, spoof, password, letters)), Collapse(mask);
      && QuotedAt(text, "user") == Some(if '@' in m then m else "*@" + m)
      && QuotedAt(text, "spoof") == (if spoof == "-" then None else Some(spoof))
      && QuotedAt(text, "password") == (if password == "" then None else Some(password))
      && (forall name :: name in FlagsAt(text) <==> exists i :: 0 <= i < |letters| && Asked(letters[i]) == Some(name))
      && QuotedAt(text, "class") == Some(if 'o' in letters then "opers" else "users")
  {
    UserIsRead(mask, spoof, password, letters);
    SpoofIsRead(mask, spoof, password, letters);
    PasswordIsRead(mask, spoof, password, letters);
    ClassIsRead(mask, spoof, password, letters);
    forall name
      ensures name in FlagsAt(BlockText(Written(mask, spoof, password, letters)))
         <==> exists i :: 0 <= i < |letters| && Asked(letters[i]) == Some(name)
    {
      FlagsAreRead(mask, spoof, password, letters, name);
    }
  }

  /** If one group has the field, the lines have it from there. */
  lemma FieldOfJoined(g: seq<seq<string>>, name: string, k: nat)
    requires |g| == 8 && k < 8 && forall i :: 0 <= i < 8 && i != k ==> Field(g[i], name) == None
    ensures Field(Joined(g), name) == Field(g[k], name)
  {
    FieldConcat(g[0], g[1], name);
    FieldConcat(g[0] + g[1], g[2], name);
    FieldConcat(g[0] + g[1] + g[2], g[3], name);
    FieldConcat(g[0] + g[1] + g[2] + g[3], g[4], name);
    FieldConcat(g[0] + g[1] + g[2] + g[3] + g[4], g[5], name);
    FieldConcat(g[0] + g[1] + g[2] + g[3] + g[4] + g[5], g[6], name);
    FieldConcat(g[0] + g[1] + g[2] + g[3] + g[4] + g[5] + g[6], g[7], name);
  }

  // ----- collapsing and reading lines

  /** A text starts with a word, in any case, exactly if its first characters are the same name. */
  lemma StartIs(first: string, rest: string, word: string)
    requires |first| == |word|
    ensures StartsWith(first + rest, word) <==> SameName(first, word)
  {
    assert (first + rest)[..|word|] == first;
  }

  lemma ShorterDoesNotStart(text: string, word: string)
    requires |text| < |word|
    ensures !StartsWith(text, word)
  {
  }

  /** Of two stars in a row one stays. */
  lemma {:induction false} TwoStarsAreOne(a: string, b: string)
    ensures Collapse(a + "**" + b) == Collapse(a + "*" + b)
  {
    var two, one := a + "**" + b, a + "*" + b;
    if a == "" {
      assert two[1..] == one;
    } else {
      assert two[1..] == a[1..] + "**" + b && one[1..] == a[1..] + "*" + b;
      TwoStarsAreOne(a[1..], b);
      assert two[0] == one[0] && two[1] == one[1];
    }
  }

  /** A line ends with LF, with CR, or with both, which counts as one end. */
  lemma {:induction false} AnyLineEnd(line: string, end: string, rest: string)
    requires NoBreak(line) && |line| < 1023 && end in {"\n", "\r\n", "\r"} && (end == "\r" && rest != "" ==> rest[0] != '\n')
    ensures NextLine(line + end + rest, LINE_MAX) == (line + "\n", rest)
  {
    LineEndsAt(line, end, rest, LINE_MAX);
  }

  lemma {:induction false} LineEndsAt(line: string, end: string, rest: string, n: nat)
    requires NoBreak(line) && |line| < n && end in {"\n", "\r\n", "\r"} && (end == "\r" && rest != "" ==> rest[0] != '\n')
    ensures NextLine(line + end + rest, n) == (line + "\n", rest)
  {
    var text := line + end + rest;
    if line == "" {
      assert text == end + rest && text[0] == end[0];
      assert |end| == 2 ==> text[1] == '\n' && text[2..] == rest;
      assert |end| == 1 ==> text[1..] == rest && (rest != "" ==> text[1] == rest[0]);
      assert line + "\n" == "\n";
    } else {
      assert text[0] == line[0] && text[1..] == line[1..] + end + rest;
      LineEndsAt(line[1..], end, rest, n - 1);
      assert [line[0]] + (line[1..] + "\n") == line + "\n";
    }
  }

  /** A longer line is read in pieces of 1023 characters. */
  lemma LongLineIsCut(line: string, rest: string)
    requires NoBreak(line) && |line| == 1023
    ensures NextLine(line + rest, LINE_MAX) == (line, rest)
  {
    CutAt(line, rest);
  }

  lemma {:induction false} CutAt(line: string, rest: string)
    requires NoBreak(line)
    ensures NextLine(line + rest, |line|) == (line, rest)
  {
    if line == "" {
      assert line + rest == rest;
    } else {
      assert (line + rest)[1..] == line[1..] + rest;
      CutAt(line[1..], rest);
      assert [line[0]] + line[1..] == line;
    }
  }
}
