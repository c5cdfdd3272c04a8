/** SPOOF and DELSPOOF: appending auth{} blocks to a file, and rewriting the file without one
    (contrib/m_spoof.c).  The file is a sequence of characters. */
module Spoof {
  import opened Options
  import opened Text

  // ----- reading lines

  const LINE_MAX: nat := 1023

  /** fbgets(): at most n characters, up to and with a newline; a CR, with the LF after it, counts as one. */
  function NextLine(file: string, n: nat): (r: (string, string))
    ensures |r.0| + |r.1| <= |file| && (file != "" && n > 0 ==> |r.1| < |file|)
  {
    if file == "" || n == 0 then ("", file)
    else if file[0] == '\n' then ("\n", file[1..])
    else if file[0] == '\r' then ("\n", if |file| > 1 && file[1] == '\n' then file[2..] else file[1..])
    else
      var (line, rest) := NextLine(file[1..], n - 1);
      ([file[0]] + line, rest)
  }

  // ----- the parser of one line

  /** ircncmp(s, literal, |literal|) == 0 */
  predicate StartsWith(s: string, literal: string) {
    |s| >= |literal| && SameName(s[..|literal|], literal)
  }

  function SkipBlanks(s: string): string {
    if s != "" && (s[0] == '\t' || s[0] == ' ') then SkipBlanks(s[1..]) else s
  }

  /** The value of a line `user = "value"`, as far as the line is read for it. */
  function UserField(line: string): Option<string> {
    var s := SkipBlanks(line);
    if StartsWith(s, "user") then ValueField(s[4..]) else None
  }

  /** The value of ` = "value"`. */
  function ValueField(s: string): Option<string> {
    var t := SkipBlanks(s);
    if t == "" || t[0] != '=' then None else QuotedField(t[1..])
  }

  function QuotedField(s: string): Option<string> {
    var t := SkipBlanks(s);
    if t == "" || t[0] != '"' then None else Some(Before(t[1..], '"'))
  }

  predicate Matches(value: string, user: string, host: string) {
    var name := Before(value, '@');
    if |name| == |value| then SameName(user, "*") && SameName(host, value)
    else SameName(user, name) && SameName(host, value[|name| + 1..])
  }

  /** What one line makes of the copier: the text it writes, whether it goes on skipping, and
      whether the mask was found.  A user value without an @ that does not match makes the
      program take the length of a null string, which has no defined outcome. */
  datatype Outcome = Undefined | Outcome(out: string, skipping: bool, found: bool)

  function CopyLine(line: string, user: string, host: string, skipping: bool): Outcome {
    if StartsWith(line, "auth {") then Outcome("", true, false)
    else
      var value := UserField(line);
      if value.None? then Outcome(if skipping then "" else line, skipping, false)
      else CopyUser(value.value, user, host, skipping)
  }

  function CopyUser(value: string, user: string, host: string, skipping: bool): Outcome {
    if Matches(value, user, host) then Outcome("", skipping, true)
    else
      var name := Before(value, '@');
      if |name| == |value| then Undefined
      else Outcome((if skipping then "auth {\n" else "") + UserLine(name, value[|name| + 1..]), false, false)
  }

  /** The whole loop of mo_delspoof(). */
  function CopyFile(file: string, user: string, host: string, skipping: bool): Outcome
    decreases |file|
  {
    if file == "" then Outcome("", skipping, false)
    else
      var (line, rest) := NextLine(file, LINE_MAX);
      var o := CopyLine(line, user, host, skipping);
      if o.Undefined? then Undefined else After(o, CopyFile(rest, user, host, o.skipping))
  }

  /** One outcome and then another. */
  function After(o: Outcome, p: Outcome): Outcome
    requires o.Outcome?
  {
    if p.Undefined? then Undefined else Outcome(o.out + p.out, p.skipping, o.found || p.found)
  }

  // ----- masks

  /** collapse(): runs of stars become one star. */
  function Collapse(s: string): string {
    if s == "" then ""
    else if s[0] == '*' && |s| > 1 && s[1] == '*' then Collapse(s[1..])
    else [s[0]] + Collapse(s[1..])
  }

  /** The user and host of a mask; no @ stands for any user. */
  function SplitMask(mask: string): (string, string) {
    var name := Before(mask, '@');
    if |name| == |mask| then ("*", mask) else (name, mask[|name| + 1..])
  }

  /** The file when DELSPOOF of the mask is done with it. */
  function Removed(file: string, mask: string): string {
    var (user, host) := SplitMask(Collapse(mask));
    var o := CopyFile(file, user, host, true);
    if o.Outcome? && o.found then o.out else file
  }

  // ----- what SPOOF writes

  datatype Flag = NoTilde | NeedIdentd | ExemptKline | ExemptGline | NoLimit | CanFlood | NeedPassword

  function FlagName(f: Flag): string {
    match f
    case NoTilde => "no_tilde"
    case NeedIdentd => "need_ident"
    case ExemptKline => "kline_exempt"
    case ExemptGline => "gline_exempt"
    case NoLimit => "exceed_limit"
    case CanFlood => "can_flood"
    case NeedPassword => "need_password"
  }

  const FLAGS: seq<Flag> := [NoTilde, NeedIdentd, ExemptKline, ExemptGline, NoLimit, CanFlood, NeedPassword]

  function FlagOf(c: char): set<Flag> {
    match c
    case 't' => {NoTilde}
    case 'i' => {NeedIdentd}
    case 'k' => {ExemptKline}
    case 'g' => {ExemptGline}
    case 'l' => {NoLimit}
    case 'f' => {CanFlood}
    case 'p' => {NeedPassword}
    case _ => {}
  }

  function FlagsOf(s: string): set<Flag> {
    if s == "" then {} else FlagOf(s[0]) + FlagsOf(s[1..])
  }

  /** What one call of try_flag() writes. */
  function TryText(fs: set<Flag>, f: Flag): string {
    if f !in fs then "" else FlagName(f) + if fs - {f} != {} then ", " else ";\n"
  }

  /** What the calls of try_flag() for a list of flags write. */
  function FlagText(fs: set<Flag>, order: seq<Flag>): string {
    if order == [] then "" else TryText(fs, order[0]) + FlagText(fs - {order[0]}, order[1..])
  }

  function FlagLine(fs: set<Flag>): string {
    "\tflags = " + FlagText(fs, FLAGS)
  }

  function SpoofLine(spoof: string): string {
    "\tspoof = \"" + spoof + "\";\n"
  }

  function PasswordLine(password: string): string {
    "\tpassword = \"" + password + "\";\n"
  }

  function ClassLine(opers: bool): string {
    if opers then "\tclass = \"opers\";\n" else "\tclass = \"users\";\n"
  }

  /** The lines of a block after its user line. */
  function BlockTail(spoof: string, password: string, fs: set<Flag>, opers: bool): seq<string> {
    (if spoof != "-" then [SpoofLine(spoof)] else [])
    + (if password != "" then [PasswordLine(password)] else [])
    + (if fs != {} then [FlagLine(fs)] else [])
    + [ClassLine(opers), "};\n", "\n"]
  }

  datatype Block = Block(user: string, host: string, tail: seq<string>)

  function UserLine(user: string, host: string): string {
    "\tuser = \"" + user + "@" + host + "\";\n"
  }

  function Lines(ls: seq<string>): string {
    if ls == [] then "" else ls[0] + Lines(ls[1..])
  }

  function BlockText(b: Block): string {
    Lines(["auth {\n", UserLine(b.user, b.host)] + b.tail)
  }

  function FileText(bs: seq<Block>): string {
    if bs == [] then "" else BlockText(bs[0]) + FileText(bs[1..])
  }

  function BlockHead(user: string, host: string, spoof: string, password: string): seq<string> {
    ["auth {\n", UserLine(user, host)]
    + (if spoof != "-" then [SpoofLine(spoof)] else [])
    + (if password != "" then [PasswordLine(password)] else [])
  }

  const HOSTLEN: nat := 63

  method CollapseMask(s: string) returns (r: string)
    ensures r == Collapse(s)
  {
    r := "";
    for i := 0 to |s|
      invariant r + Collapse(s[i..]) == Collapse(s)
    {
      assert s[i..][1..] == s[i + 1..];
      if s[i] != '*' {
        r := r + [s[i]];
      } else if i + 1 == |s| || s[i + 1] != '*' {
        r := r + ['*'];
      }
    }
  }

  method SplitAt(mask: string) returns (user: string, host: string)
    ensures (user, host) == SplitMask(mask)
  {
    var at := StrChr(mask, 0, '@');
    assert mask[0..] == mask;
    if at < |mask| {
      user, host := mask[..at], mask[at + 1..];
    } else {
      user, host := "*", mask;
    }
  }

  method SkipBlanksFrom(s: string, from: nat) returns (at: nat)
    requires from <= |s|
    ensures from <= at <= |s| && s[at..] == SkipBlanks(s[from..])
  {
    at := from;
    while at < |s| && (s[at] == '\t' || s[at] == ' ')
      invariant from <= at <= |s| && SkipBlanks(s[at..]) == SkipBlanks(s[from..])
    {
      assert s[at..][1..] == s[at + 1..];
      at := at + 1;
    }
  }

  /** !ircncmp(s + from, literal, |literal|) */
  method HasPrefix(s: string, from: nat, literal: string) returns (r: bool)
    requires from <= |s|
    ensures r <==> StartsWith(s[from..], literal)
  {
    var i := 0;
    while i < |literal| && from + i < |s| && ToUpper(s[from + i]) == ToUpper(literal[i])
      invariant i <= |literal| && from + i <= |s|
      invariant forall j :: 0 <= j < i ==> ToUpper(s[from + j]) == ToUpper(literal[j])
    {
      i := i + 1;
    }
    r := i == |literal|;
    if !r && from + i < |s| && |s[from..]| >= |literal| {
      assert s[from..][..|literal|][i] == s[from + i];
    }
  }

  /** Finds the value of `user = "value"` in a line. */
  method FindUserField(line: string) returns (value: Option<string>)
    ensures value == UserField(line)
  {
    var tmp := SkipBlanksFrom(line, 0);
    assert line[0..] == line;
    var isUser := HasPrefix(line, tmp, "user");
    if isUser {
      DropDrop(line, tmp, 4);
      value := FindValue(line, tmp + 4);
    } else {
      value := None;
    }
  }

  method FindValue(line: string, from: nat) returns (value: Option<string>)
    requires from <= |line|
    ensures value == ValueField(line[from..])
  {
    var tmp := SkipBlanksFrom(line, from);
    if tmp < |line| && line[tmp] == '=' {
      DropDrop(line, tmp, 1);
      value := FindQuoted(line, tmp + 1);
    } else {
      value := None;
    }
  }

  method FindQuoted(line: string, from: nat) returns (value: Option<string>)
    requires from <= |line|
    ensures value == QuotedField(line[from..])
  {
    var tmp := SkipBlanksFrom(line, from);
    if tmp < |line| && line[tmp] == '"' {
      DropDrop(line, tmp, 1);
      var end := StrChr(line, tmp + 1, '"');
      DropTake(line, tmp + 1, end - (tmp + 1));
      value := Some(line[tmp + 1..end]);
    } else {
      value := None;
    }
  }

  /** The body of the loop of mo_delspoof(). */
  method CopyOneLine(line: string, user: string, host: string, skipping: bool) returns (o: Outcome)
    ensures o == CopyLine(line, user, host, skipping)
  {
    assert line[0..] == line;
    var isAuth := HasPrefix(line, 0, "auth {");
    if isAuth {
      return Outcome("", true, false);
    }
    var value := FindUserField(line);
    if value.Some? {
      o := CopyUserLine(value.value, user, host, skipping);
    } else {
      o := Outcome(if skipping then "" else line, skipping, false);
    }
  }

  /** The treatment of a user line with the given value. */
  method CopyUserLine(tmp: string, user: string, host: string, skipping: bool) returns (o: Outcome)
    ensures o == CopyUser(tmp, user, host, skipping)
  {
    assert tmp[0..] == tmp;
    var at := StrChr(tmp, 0, '@');
    var c, d;
    if at == |tmp| {
      c := IrcCmp(user, "*");
      d := IrcCmp(host, tmp);
    } else {
      c := IrcCmp(user, tmp[..at]);
      d := IrcCmp(host, tmp[at + 1..]);
    }
    if c == 0 && d == 0 {
      return Outcome("", skipping, true);
    }
    var out := "";
    if skipping {
      out := out + "auth {\n";
    }
    if at == |tmp| {
      return Undefined;
    }
    out := out + ("\tuser = \"" + tmp[..at] + "@" + tmp[at + 1..] + "\";\n");
    o := Outcome(out, false, false);
  }

  /** fbgets() with a buffer of len + 1 characters. */
  method FbGets(file: string, len: nat) returns (line: string, rest: string)
    ensures (line, rest) == NextLine(file, len)
  {
    line, rest := "", file;
    var n := len;
    while n > 0 && rest != ""
      invariant line + NextLine(rest, n).0 == NextLine(file, len).0 && NextLine(rest, n).1 == NextLine(file, len).1
      decreases n
    {
      if rest[0] == '\n' {
        line, rest := line + "\n", rest[1..];
        return;
      } else if rest[0] == '\r' {
        line, rest := line + "\n", if |rest| > 1 && rest[1] == '\n' then rest[2..] else rest[1..];
        return;
      }
      assert line + ([rest[0]] + NextLine(rest[1..], n - 1).0) == line + [rest[0]] + NextLine(rest[1..], n - 1).0;
      line, rest, n := line + [rest[0]], rest[1..], n - 1;
    }
    assert line + "" == line;
  }

  /** The count of non-wildcard characters in mo_spoof(). */
  method EnoughNonWild(mask: string, minNonWild: nat) returns (r: bool)
    ensures r <==> NonWild(mask) >= minNonWild
  {
    var i, k := 0, 0;
    while k < |mask|
      invariant k <= |mask| && i + NonWild(mask[k..]) == NonWild(mask) && (k > 0 ==> i < minNonWild || i == 0)
    {
      assert mask[k..][1..] == mask[k + 1..];
      if !IsKWildChar(mask[k]) {
        i := i + 1;
        if i >= minNonWild {
          return true;
        }
      }
      k := k + 1;
    }
    r := i >= minNonWild;
  }

  lemma AfterAssociative(a: Outcome, b: Outcome, c: Outcome)
    requires a.Outcome? && b.Outcome?
    ensures After(a, After(b, c)) == After(After(a, b), c)
  {
    if c.Outcome? {
      assert a.out + (b.out + c.out) == a.out + b.out + c.out;
    }
  }

  /** The loop of mo_delspoof(). */
  method CopyAll(file: string, user: string, host: string) returns (o: Outcome)
    ensures o == CopyFile(file, user, host, true)
  {
    var rest := file;
    o := Outcome("", true, false);
    assert After(o, CopyFile(file, user, host, true)) == CopyFile(file, user, host, true);
    while rest != ""
      invariant o.Outcome? && After(o, CopyFile(rest, user, host, o.skipping)) == CopyFile(file, user, host, true)
      decreases |rest|
    {
      var line, next := FbGets(rest, LINE_MAX);
      var p := CopyOneLine(line, user, host, o.skipping);
      if p.Undefined? {
        return p;
      }
      AfterAssociative(o, p, CopyFile(next, user, host, p.skipping));
      o, rest := After(o, p), next;
    }
  }

  class SpoofFile {
    var content: string

    constructor ()
      ensures content == ""
    {
      content := "";
    }

    /** try_flag() */
    method TryFlag(flags: set<Flag>, flag: Flag) returns (left: set<Flag>)
      modifies this
      ensures left == flags - {flag}
      ensures content == old(content) + TryText(flags, flag)
    {
      left := flags;
      if flag in flags {
        content := content + FlagName(flag);
        left := left - {flag};
        content := content + if left != {} then ", " else ";\n";
      }
    }

    /** mo_spoof(): `known` says whether the server has an auth{} for the mask already. */
    method MoSpoof(allowed: bool, mask: string, spoof: string, flags: string, password: string, known: bool,
                   minNonWild: nat)
      modifies this
      ensures
        var m := Collapse(mask);
        var (user, host) := SplitMask(m);
        content == old(content) +
          if allowed && '!' !in mask && NonWild(m) >= minNonWild && !known && spoof != ""
             && (spoof != "-" ==> |spoof| < 63 && forall i :: 0 <= i < |spoof| ==> IsHostChar(spoof[i]))
          then BlockText(Block(user, host, BlockTail(spoof, password, FlagsOf(flags), 'o' in flags))) else ""
    {
      if !allowed || '!' in mask {
        return;
      }
      var m := CollapseMask(mask);
      var enough := EnoughNonWild(m, minNonWild);
      if !enough {
        return;
      }
      var user, host := SplitAt(m);
      if spoof == "" {
        return;
      }
      if spoof != "-" {
        for i := 0 to |spoof|
          invariant content == old(content) && forall j :: 0 <= j < i ==> IsHostChar(spoof[j])
        {
          if !IsHostChar(spoof[i]) {
            return;
          }
        }
        if |spoof| >= HOSTLEN {
          return;
        }
      }
      if known {
        return;
      }
      WriteBlock(user, host, spoof, password, flags);
    }

    /** mo_delspoof(): the file is replaced only when the mask was found in it. */
    method MoDelspoof(allowed: bool, mask: string) returns (defined: bool)
      modifies this
      ensures
        if !allowed || mask == "" then defined && content == old(content)
        else
          var (user, host) := SplitMask(Collapse(mask));
          var o := CopyFile(old(content), user, host, true);
          defined == o.Outcome? && content == Removed(old(content), mask)
    {
      if !allowed || mask == "" {
        return true;
      }
      var m := CollapseMask(mask);
      var user, host := SplitAt(m);
      var o := CopyAll(content, user, host);
      defined := o.Outcome?;
      if o.Outcome? && o.found {
        content := o.out;
      }
    }

    /** The block that mo_spoof() appends once its parameters are checked. */
    method WriteBlock(user: string, host: string, spoof: string, password: string, flags: string)
      modifies this
      ensures content == old(content)
        + BlockText(Block(user, host, BlockTail(spoof, password, FlagsOf(flags), 'o' in flags)))
    {
      ghost var base := content;
      WriteHead(user, host, spoof, password);
      ghost var head := BlockHead(user, host, spoof, password);
      var fs, opers := ReadFlagLetters(flags);
      WriteRest(fs, opers, base, head);
      assert head + (if fs != {} then [FlagLine(fs)] else []) + [ClassLine(opers), "};\n", "\n"]
          == ["auth {\n", UserLine(user, host)] + BlockTail(spoof, password, fs, opers);
    }

    method WriteHead(user: string, host: string, spoof: string, password: string)
      modifies this
      ensures content == old(content) + Lines(BlockHead(user, host, spoof, password))
    {
      ghost var base := content;
      Put("auth {\n", base, []);
      Put("\tuser = \"" + user + "@" + host + "\";\n", base, ["auth {\n"]);
      ghost var ls := ["auth {\n"] + [UserLine(user, host)];
      if spoof != "-" {
        Put("\tspoof = \"" + spoof + "\";\n", base, ls);
        ls := ls + [SpoofLine(spoof)];
      }
      if password != "" {
        Put("\tpassword = \"" + password + "\";\n", base, ls);
        ls := ls + [PasswordLine(password)];
      }
      assert ls == BlockHead(user, host, spoof, password);
    }

    method WriteRest(fs: set<Flag>, opers: bool, ghost base: string, ghost head: seq<string>)
      requires content == base + Lines(head)
      modifies this
      ensures content == base + Lines(head + (if fs != {} then [FlagLine(fs)] else []) + [ClassLine(opers), "};\n", "\n"])
    {
      ghost var ls := head;
      if fs != {} {
        PutFlags(fs, base, ls);
        ls := ls + [FlagLine(fs)];
      }
      if opers {
        Put("\tclass = \"opers\";\n", base, ls);
      } else {
        Put("\tclass = \"users\";\n", base, ls);
      }
      ls := ls + [ClassLine(opers)];
      Put("};\n", base, ls);
      Put("\n", base, ls + ["};\n"]);
      assert ls + ["};\n"] + ["\n"]
          == head + (if fs != {} then [FlagLine(fs)] else []) + [ClassLine(opers), "};\n", "\n"];
    }

    /** Writes a line after the lines `ls`. */
    method Put(text: string, ghost base: string, ghost ls: seq<string>)
      requires content == base + Lines(ls)
      modifies this
      ensures content == base + Lines(ls + [text])
    {
      LinesSnoc(ls, text);
      content := content + text;
    }

    method PutFlags(fs: set<Flag>, ghost base: string, ghost ls: seq<string>)
      requires content == base + Lines(ls)
      modifies this
      ensures content == base + Lines(ls + [FlagLine(fs)])
    {
      LinesSnoc(ls, FlagLine(fs));
      content := content + "\tflags = ";
      WriteFlags(fs, FLAGS);
    }

    /** The switch over the flag letters. */
    method ReadFlagLetters(flags: string) returns (fs: set<Flag>, opers: bool)
      ensures fs == FlagsOf(flags) && opers == ('o' in flags)
    {
      fs, opers := {}, false;
      for k := 0 to |flags|
        invariant fs + FlagsOf(flags[k..]) == FlagsOf(flags) && opers == ('o' in flags[..k])
      {
        assert flags[k..][1..] == flags[k + 1..];
        fs := fs + FlagOf(flags[k]);
        if flags[k] == 'o' {
          opers := true;
        }
      }
      assert flags[..|flags|] == flags;
    }

    /** The seven calls of try_flag(). */
    method WriteFlags(fs: set<Flag>, order: seq<Flag>)
      modifies this
      ensures content == old(content) + FlagText(fs, order)
    {
      var left := fs;
      for i := 0 to |order|
        invariant content + FlagText(left, order[i..]) == old(content) + FlagText(fs, order)
      {
        assert order[i..][0] == order[i] && order[i..][1..] == order[i + 1..];
        left := TryFlag(left, order[i]);
      }
    }
  }

  lemma {:induction false} LinesConcat(a: seq<string>, b: seq<string>)
    ensures Lines(a + b) == Lines(a) + Lines(b)
    decreases |a|
  {
    if a == [] {
      assert a + b == b;
    } else {
      assert (a + b)[1..] == a[1..] + b;
      LinesConcat(a[1..], b);
    }
  }

  lemma LinesSnoc(ls: seq<string>, text: string)
    ensures Lines(ls + [text]) == Lines(ls) + text
  {
    LinesConcat(ls, [text]);
  }
}
