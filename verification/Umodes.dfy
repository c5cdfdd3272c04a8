/** User modes, handler indices and the mode-string interpreter of SVSMODE
    (include/client.h, src/s_user.c, modules/m_services.c). */
module Umodes {

  /** The UMODE_ flags.  Each is its own bit of the word `umodes`; the word is the set of its bits. */
  datatype Umode =
    | ServnoticeMode | RejMode | SkillMode | FullMode | SpyMode | DebugMode | NchangeMode
    | WallopMode | OperwallMode | InvisibleMode | BotsMode | UnauthMode | LocopsMode | DeafMode
    | CloakMode | SslMode | RegnickMode | RegonlyMode | CconnMode | HidechannelsMode | GringoMode
    | ZombieMode | OperMode | AdminMode | NetadminMode | SadminMode | SoperMode | HelperMode
    | VadminMode | VoperMode

  datatype Handler =
    | UnregisteredHandler | ClientHandler | ServerHandler | EncapHandler | OperHandler | DummyHandler

  /** The user_modes[] table: the flag of a mode letter, none for a letter that is no mode. */
  function UserMode(c: char): set<Umode> {
    match c
    case 'A' => {AdminMode}
    case 'B' => {GringoMode}
    case 'D' => {DeafMode}
    case 'N' => {NetadminMode}
    case 'O' => {SoperMode}
    case 'R' => {RegonlyMode}
    case 'S' => {SslMode}
    case 'V' => {VadminMode}
    case 'Z' => {ZombieMode}
    case 'a' => {SadminMode}
    case 'b' => {BotsMode}
    case 'c' => {CconnMode}
    case 'd' => {DebugMode}
    case 'f' => {FullMode}
    case 'h' => {HelperMode}
    case 'i' => {InvisibleMode}
    case 'j' => {RejMode}
    case 'k' => {SkillMode}
    case 'l' => {LocopsMode}
    case 'n' => {NchangeMode}
    case 'o' => {OperMode}
    case 'p' => {HidechannelsMode}
    case 'r' => {RegnickMode}
    case 's' => {ServnoticeMode}
    case 'u' => {UnauthMode}
    case 'v' => {VoperMode}
    case 'w' => {WallopMode}
    case 'x' => {CloakMode}
    case 'y' => {SpyMode}
    case 'z' => {OperwallMode}
    case _ => {}
  }

  /** The letter of each mode. */
  function Letter(u: Umode): char {
    match u
    case ServnoticeMode => 's'
    case RejMode => 'j'
    case SkillMode => 'k'
    case FullMode => 'f'
    case SpyMode => 'y'
    case DebugMode => 'd'
    case NchangeMode => 'n'
    case WallopMode => 'w'
    case OperwallMode => 'z'
    case InvisibleMode => 'i'
    case BotsMode => 'b'
    case UnauthMode => 'u'
    case LocopsMode => 'l'
    case DeafMode => 'D'
    case CloakMode => 'x'
    case SslMode => 'S'
    case RegnickMode => 'r'
    case RegonlyMode => 'R'
    case CconnMode => 'c'
    case HidechannelsMode => 'p'
    case GringoMode => 'B'
    case ZombieMode => 'Z'
    case OperMode => 'o'
    case AdminMode => 'A'
    case NetadminMode => 'N'
    case SadminMode => 'a'
    case SoperMode => 'O'
    case HelperMode => 'h'
    case VadminMode => 'V'
    case VoperMode => 'v'
  }

  /** A letter stands for at most one mode, and every mode has one letter. */
  lemma LettersAreModes(c: char, u: Umode)
    ensures u in UserMode(c) <==> c == Letter(u)
    ensures UserMode(Letter(u)) == {u}
  {
    LetterIsRead(u);
    if u in UserMode(c) {
      ModeIsOfLetter(c, u);
    }
  }

  lemma LetterIsRead(u: Umode)
    ensures UserMode(Letter(u)) == {u}
  {
  }

  lemma ModeIsOfLetter(c: char, u: Umode)
    requires u in UserMode(c)
    ensures c == Letter(u)
  {
    if c <= 'Z' {
      ModeOfUpper(c, u);
    } else if c <= 'k' {
      ModeOfLower(c, u);
    } else {
      ModeOfLast(c, u);
    }
  }

  lemma ModeOfUpper(c: char, u: Umode)
    requires c <= 'Z' && u in UserMode(c)
    ensures c == Letter(u)
  {
  }

  lemma ModeOfLower(c: char, u: Umode)
    requires 'Z' < c <= 'k' && u in UserMode(c)
    ensures c == Letter(u)
  {
  }

  lemma ModeOfLast(c: char, u: Umode)
    requires 'k' < c && u in UserMode(c)
    ensures c == Letter(u)
  {
  }

  /** What the interpreter of a mode string knows about its target and its server:
      whether the target is a local connection, whether cloaking is refused to it, and the
      configured oper_only_umodes. */
  datatype Scope = Scope(local: bool, uncloakable: bool, operOnly: set<Umode>)

  /** The interpreter's state: the target's umodes and the direction, + or -. */
  datatype ModeState = ModeState(umodes: set<Umode>, adding: bool)

  function Deoper(umodes: set<Umode>, operOnly: set<Umode>): set<Umode> {
    umodes - {OperMode, AdminMode} - operOnly - {NetadminMode}
  }

  /** A user who loses his rights keeps every mode but those of operators. */
  lemma DeoperTakes(umodes: set<Umode>, operOnly: set<Umode>, u: Umode)
    ensures u in Deoper(umodes, operOnly) <==>
              u in umodes && u !in operOnly && u != OperMode && u != AdminMode && u != NetadminMode
  {
  }

  function Switch(umodes: set<Umode>, flags: set<Umode>, on: bool): set<Umode> {
    if on then umodes + flags else umodes - flags
  }

  /** The effect of one character of an SVSMODE mode string. */
  function ModeChar(k: Scope, s: ModeState, c: char): ModeState {
    match c
    case '+' => s.(adding := true)
    case '-' => s.(adding := false)
    case 'd' | 'S' | ' ' | '\n' | '\r' | '\t' => s
    case 'o' =>
      if !s.adding && OperMode in s.umodes then s.(umodes := Deoper(s.umodes, k.operOnly)) else s
    case 'x' =>
      if s.adding && k.local && k.uncloakable then s else s.(umodes := Switch(s.umodes, {CloakMode}, s.adding))
    case 'B' =>
      s.(umodes := Switch(s.umodes, {GringoMode}, s.adding && RegnickMode !in s.umodes))
    case 'r' =>
      var u := if s.adding then Switch(s.umodes, {GringoMode}, false) else s.umodes;
      s.(umodes := Switch(u, {RegnickMode}, s.adding))
    case _ =>
      if k.local && OperMode !in s.umodes && k.operOnly * UserMode(c) != {} then s
      else s.(umodes := Switch(s.umodes, UserMode(c), s.adding))
  }

  function ModeString(k: Scope, s: ModeState, m: string): ModeState
    decreases m
  {
    if m == [] then s else ModeString(k, ModeChar(k, s, m[0]), m[1..])
  }

  /** All parameters from parv[3] on are read as mode strings, the direction carrying over. */
  function ModeParams(k: Scope, s: ModeState, ps: seq<string>): ModeState
    decreases ps
  {
    if ps == [] then s else ModeParams(k, ModeString(k, s, ps[0]), ps[1..])
  }

  function Concat(ps: seq<string>): string {
    if ps == [] then [] else ps[0] + Concat(ps[1..])
  }

  lemma {:induction false} ModeStringConcat(k: Scope, s: ModeState, a: string, b: string)
    ensures ModeString(k, s, a + b) == ModeString(k, ModeString(k, s, a), b)
    decreases |a|
  {
    if a == [] {
      assert a + b == b;
    } else {
      assert (a + b)[1..] == a[1..] + b;
      ModeStringConcat(k, ModeChar(k, s, a[0]), a[1..], b);
    }
  }

  lemma {:induction false} ModeParamsAreOneString(k: Scope, s: ModeState, ps: seq<string>)
    ensures ModeParams(k, s, ps) == ModeString(k, s, Concat(ps))
    decreases ps
  {
    if ps != [] {
      ModeStringConcat(k, s, ps[0], Concat(ps[1..]));
      ModeParamsAreOneString(k, ModeString(k, s, ps[0]), ps[1..]);
    }
  }

  /** Whether position i of m is read with the direction +, when m starts with `adding`. */
  function AddingAt(m: string, adding: bool, i: nat): bool
    requires i <= |m|
  {
    if i == 0 then adding
    else if m[i - 1] == '+' then true
    else if m[i - 1] == '-' then false
    else AddingAt(m, adding, i - 1)
  }

  /** A letter o in a - part of the string. */
  predicate Deopers(m: string, adding: bool) {
    exists i :: 0 <= i < |m| && m[i] == 'o' && !AddingAt(m, adding, i)
  }

  lemma {:induction false} AddingAtTail(m: string, adding: bool, i: nat)
    requires 0 < i <= |m|
    ensures AddingAt(m, adding, i) ==
            AddingAt(m[1..], if m[0] == '+' then true else if m[0] == '-' then false else adding, i - 1)
  {
    if i > 1 {
      AddingAtTail(m, adding, i - 1);
    }
  }

  lemma DeopersTail(m: string, adding: bool)
    requires m != []
    ensures Deopers(m, adding) <==>
            (m[0] == 'o' && !adding)
            || Deopers(m[1..], if m[0] == '+' then true else if m[0] == '-' then false else adding)
  {
    var adding' := if m[0] == '+' then true else if m[0] == '-' then false else adding;
    if Deopers(m, adding) {
      var i :| 0 <= i < |m| && m[i] == 'o' && !AddingAt(m, adding, i);
      if i > 0 {
        AddingAtTail(m, adding, i);
        assert m[1..][i - 1] == 'o';
      }
    }
    if m[0] == 'o' && !adding {
      assert !AddingAt(m, adding, 0);
    }
    if Deopers(m[1..], adding') {
      var i :| 0 <= i < |m[1..]| && m[1..][i] == 'o' && !AddingAt(m[1..], adding', i);
      AddingAtTail(m, adding, i + 1);
      assert m[i + 1] == 'o';
    }
  }

  lemma ModeCharOper(k: Scope, s: ModeState, c: char)
    ensures OperMode in ModeChar(k, s, c).umodes <==> OperMode in s.umodes && !(c == 'o' && !s.adding)
  {
  }

  lemma ModeCharAdding(k: Scope, s: ModeState, c: char)
    ensures ModeChar(k, s, c).adding == if c == '+' then true else if c == '-' then false else s.adding
  {
  }

  /** SVSMODE never makes an operator, and unmakes one exactly when an o is read under -. */
  lemma {:induction false} ModeStringOper(k: Scope, s: ModeState, m: string)
    ensures OperMode in ModeString(k, s, m).umodes <==>
            OperMode in s.umodes && !Deopers(m, s.adding)
    decreases m
  {
    if m != [] {
      ModeCharOper(k, s, m[0]);
      ModeCharAdding(k, s, m[0]);
      DeopersTail(m, s.adding);
      ModeStringOper(k, ModeChar(k, s, m[0]), m[1..]);
    }
  }

  /** The last direction in which letter c is read in m, if it is read at all. */
  datatype Toggle = Untouched | On | Off

  function LastToggle(m: string, adding: bool, c: char): Toggle {
    if m == [] then Untouched
    else
      var adding' := if m[0] == '+' then true else if m[0] == '-' then false else adding;
      var later := LastToggle(m[1..], adding', c);
      if later != Untouched then later
      else if m[0] == c then (if adding then On else Off)
      else Untouched
  }

  /** The letters of modes that a user may hold without being an operator and that no other
      letter of an SVSMODE string sets or clears. */
  predicate Plain(k: Scope, c: char) {
    UserMode(c) != {} && UserMode(c) !! k.operOnly && c !in {'o', 'A', 'N', 'd', 'S', 'x', 'B', 'r'}
  }

  lemma ModeCharPlain(k: Scope, s: ModeState, c: char, d: char)
    requires Plain(k, c)
    ensures UserMode(c) <= ModeChar(k, s, d).umodes <==> if d == c then s.adding else UserMode(c) <= s.umodes
  {
    assert d != c ==> UserMode(d) !! UserMode(c);
  }

  /** However often a string toggles a plain mode, it ends as its last toggle says. */
  lemma {:induction false} ModeStringPlain(k: Scope, s: ModeState, m: string, c: char)
    requires Plain(k, c)
    ensures UserMode(c) <= ModeString(k, s, m).umodes <==>
            match LastToggle(m, s.adding, c)
            case Untouched => UserMode(c) <= s.umodes
            case On => true
            case Off => false
    decreases m
  {
    if m != [] {
      ModeCharPlain(k, s, c, m[0]);
      ModeCharAdding(k, s, m[0]);
      ModeStringPlain(k, ModeChar(k, s, m[0]), m[1..], c);
    }
  }

  // ----- modes for operators

  /** The oper-only modes of a user that the interpreter guards; three letters have no such test. */
  function Guarded(umodes: set<Umode>, operOnly: set<Umode>): set<Umode> {
    umodes * operOnly - {CloakMode, GringoMode, RegnickMode}
  }

  lemma ModeCharGuards(k: Scope, s: ModeState, c: char)
    requires k.local
    ensures
      var r := ModeChar(k, s, c).umodes;
      if OperMode !in s.umodes then Guarded(r, k.operOnly) == Guarded(s.umodes, k.operOnly)
      else OperMode !in r ==> Guarded(r, k.operOnly) == {}
  {
    if OperMode !in s.umodes && c !in {'+', '-', 'd', 'S', ' ', '\n', '\r', '\t', 'o', 'x', 'B', 'r'} {
      if k.operOnly * UserMode(c) == {} {
        forall u | u in UserMode(c)
          ensures u !in k.operOnly
        {
          assert u in k.operOnly ==> u in k.operOnly * UserMode(c);
        }
      }
    }
  }

  /** No SVSMODE gives a local user who is no operator an oper-only mode, or takes one from him; and an operator who
      loses his rights in its course has none left. */
  lemma {:induction false} OperOnlyIsGuarded(k: Scope, s: ModeState, m: string)
    requires k.local
    ensures
      var r := ModeString(k, s, m).umodes;
      if OperMode !in s.umodes then Guarded(r, k.operOnly) == Guarded(s.umodes, k.operOnly) && OperMode !in r
      else OperMode !in r ==> Guarded(r, k.operOnly) == {}
    decreases m
  {
    if m != [] {
      ModeCharGuards(k, s, m[0]);
      ModeCharOper(k, s, m[0]);
      OperOnlyIsGuarded(k, ModeChar(k, s, m[0]), m[1..]);
    }
  }

  lemma {:induction false} ParamsAreGuarded(k: Scope, s: ModeState, ps: seq<string>)
    requires k.local
    ensures
      var r := ModeParams(k, s, ps).umodes;
      OperMode !in r ==> Guarded(r, k.operOnly) <= if OperMode in s.umodes then {} else Guarded(s.umodes, k.operOnly)
  {
    ModeParamsAreOneString(k, s, ps);
    OperOnlyIsGuarded(k, s, Concat(ps));
  }

  // ----- what a string makes of each mode

  /** A user who is no operator when the string ends was not, or loses what is for operators. */
  predicate Stripped(k: Scope, s: ModeState, m: string, u: Umode) {
    OperMode in s.umodes && Deopers(m, s.adding) && u in k.operOnly + {AdminMode, NetadminMode}
  }

  lemma StrippedLater(k: Scope, s: ModeState, m: string, u: Umode)
    requires m != [] && !Stripped(k, s, m, u)
    ensures !Stripped(k, ModeChar(k, s, m[0]), m[1..], u)
    ensures OperMode in s.umodes && m[0] == 'o' && !s.adding ==> u !in k.operOnly + {AdminMode, NetadminMode}
  {
    ModeCharOper(k, s, m[0]);
    ModeCharAdding(k, s, m[0]);
    DeopersTail(m, s.adding);
  }

  /** What the last toggle of a letter makes of a mode. */
  predicate Ends(m: string, adding: bool, c: char, was: bool, on: bool, now: bool) {
    match LastToggle(m, adding, c)
    case Untouched => now == was
    case On => now == on
    case Off => !now
  }

  predicate Common(c: char) {
    UserMode(c) != {} && c !in {'o', 'd', 'S', 'x', 'B', 'r'}
  }

  /** Every mode without a case of its own ends as its last toggle says, for remote users and operators also if it is
      oper-only; unless it is stripped. */
  lemma {:induction false} ModeStringFollows(k: Scope, s: ModeState, m: string, u: Umode)
    requires Common(Letter(u)) && !Stripped(k, s, m, u)
    requires k.local && OperMode !in s.umodes ==> u !in k.operOnly
    ensures Ends(m, s.adding, Letter(u), u in s.umodes, true, u in ModeString(k, s, m).umodes)
    decreases m
  {
    LettersAreModes(Letter(u), u);
    if m != [] {
      LettersAreModes(m[0], u);
      StrippedLater(k, s, m, u);
      ModeCharOper(k, s, m[0]);
      ModeCharAdding(k, s, m[0]);
      ModeCharFollows(k, s, m[0], u);
      ModeStringFollows(k, ModeChar(k, s, m[0]), m[1..], u);
    }
  }

  lemma ModeCharFollows(k: Scope, s: ModeState, c: char, u: Umode)
    requires Common(Letter(u)) && (k.local && OperMode !in s.umodes ==> u !in k.operOnly)
    requires OperMode in s.umodes && c == 'o' && !s.adding ==> u !in k.operOnly + {AdminMode, NetadminMode}
    ensures u in ModeChar(k, s, c).umodes <==> if c == Letter(u) then s.adding else u in s.umodes
  {
    LettersAreModes(c, u);
    LettersAreModes(Letter(u), u);
  }

  /** A cloak is put on and off, but never on a local user who may not have one. */
  lemma {:induction false} CloakFollows(k: Scope, s: ModeState, m: string)
    requires !Stripped(k, s, m, CloakMode)
    ensures !(k.local && k.uncloakable) ==>
              Ends(m, s.adding, 'x', CloakMode in s.umodes, true, CloakMode in ModeString(k, s, m).umodes)
    ensures k.local && k.uncloakable && CloakMode in ModeString(k, s, m).umodes ==> CloakMode in s.umodes
    decreases m
  {
    if m != [] {
      LettersAreModes(m[0], CloakMode);
      StrippedLater(k, s, m, CloakMode);
      ModeCharAdding(k, s, m[0]);
      CloakFollows(k, ModeChar(k, s, m[0]), m[1..]);
    }
  }

  /** A nick is marked as registered or not as the last r says. */
  lemma {:induction false} RegnickFollows(k: Scope, s: ModeState, m: string)
    requires !Stripped(k, s, m, RegnickMode)
    ensures Ends(m, s.adding, 'r', RegnickMode in s.umodes, true, RegnickMode in ModeString(k, s, m).umodes)
    decreases m
  {
    if m != [] {
      LettersAreModes(m[0], RegnickMode);
      StrippedLater(k, s, m, RegnickMode);
      ModeCharAdding(k, s, m[0]);
      RegnickFollows(k, ModeChar(k, s, m[0]), m[1..]);
    }
  }

  /** Nobody with a registered nick becomes a gringo, and who registers is none any more. */
  lemma {:induction false} NoRegisteredGringo(k: Scope, s: ModeState, m: string)
    requires !(RegnickMode in s.umodes && GringoMode in s.umodes)
    ensures !(RegnickMode in ModeString(k, s, m).umodes && GringoMode in ModeString(k, s, m).umodes)
    decreases m
  {
    if m != [] {
      LettersAreModes(m[0], RegnickMode);
      LettersAreModes(m[0], GringoMode);
      NoRegisteredGringo(k, ModeChar(k, s, m[0]), m[1..]);
    }
  }

  /** A string without r makes a gringo of exactly those whose nick is not registered, if its last B says so. */
  lemma {:induction false} GringoFollows(k: Scope, s: ModeState, m: string)
    requires 'r' !in m && !Stripped(k, s, m, GringoMode) && !Stripped(k, s, m, RegnickMode)
    ensures Ends(m, s.adding, 'B', GringoMode in s.umodes, RegnickMode !in s.umodes,
                 GringoMode in ModeString(k, s, m).umodes)
    decreases m
  {
    if m != [] {
      LettersAreModes(m[0], RegnickMode);
      LettersAreModes(m[0], GringoMode);
      StrippedLater(k, s, m, RegnickMode);
      StrippedLater(k, s, m, GringoMode);
      ModeCharAdding(k, s, m[0]);
      assert m[0] in m;
      GringoFollows(k, ModeChar(k, s, m[0]), m[1..]);
    }
  }

  /** S and d set and clear nothing. */
  lemma {:induction false} SslAndDebugStay(k: Scope, s: ModeState, m: string, u: Umode)
    requires u in {SslMode, DebugMode} && !Stripped(k, s, m, u)
    ensures u in ModeString(k, s, m).umodes <==> u in s.umodes
    decreases m
  {
    if m != [] {
      LettersAreModes(m[0], u);
      StrippedLater(k, s, m, u);
      SslAndDebugStay(k, ModeChar(k, s, m[0]), m[1..], u);
    }
  }
}
