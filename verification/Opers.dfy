/** Services, operators and captured users: the state machine of modules/m_services.c,
    m_oper.c, m_challenge.c and m_capture.c over the macros of include/client.h. */
module Opers {
  import opened Options
  import opened Seqs
  import opened Text
  import opened Umodes

  /** The privilege bits of an oper{} block that this model reads; the others are numbered. */
  datatype OperFlag = AdminFlag | HiddenAdminFlag | NickFlag | OtherFlag(bit: nat)

  /** The part of an oper{} block that oper_up() reads. */
  datatype OperConf = OperConf(name: string, modes: set<Umode>, privileges: set<OperFlag>)

  /** The modes oper_up() leaves a user with: the block's modes, or else the configured ones, or
      else four standard ones; then admin by privilege, and nick changes only by privilege. */
  function Granted(umodes: set<Umode>, operflags: set<OperFlag>, conf: OperConf, operUmodes: set<Umode>): set<Umode> {
    var given := if conf.modes != {} then conf.modes
                 else if operUmodes != {} then operUmodes
                 else {ServnoticeMode, OperwallMode, WallopMode, LocopsMode};
    var flags := operflags + conf.privileges;
    umodes + {OperMode} + given
    + (if AdminFlag in flags || HiddenAdminFlag in flags then {AdminMode} else {})
    - (if NickFlag in flags then {} else {NchangeMode})
  }

  /** What OPER gives and takes, mode by mode: an administrator is who has the privilege, who is one by his modes, or by
      those of his block. */
  lemma GrantedIs(umodes: set<Umode>, operflags: set<OperFlag>, conf: OperConf, operUmodes: set<Umode>, u: Umode)
    ensures
      var standard := {ServnoticeMode, OperwallMode, WallopMode, LocopsMode};
      var had := u in umodes || u in conf.modes || (conf.modes == {} && u in (if operUmodes == {} then standard else operUmodes));
      u in Granted(umodes, operflags, conf, operUmodes) <==>
        match u
        case OperMode => true
        case AdminMode => had || exists f :: f in {AdminFlag, HiddenAdminFlag} && (f in operflags || f in conf.privileges)
        case NchangeMode => had && (NickFlag in operflags || NickFlag in conf.privileges)
        case _ => had
  {
    assert AdminFlag in {AdminFlag, HiddenAdminFlag} && HiddenAdminFlag in {AdminFlag, HiddenAdminFlag};
  }

  /** A registered user, local or remote. */
  class User {
    const local: bool
    var umodes: set<Umode>
    var handler: Handler
    var tsinfo: int
    var operflags: set<OperFlag>
    var uncloakable: bool
    var virtualLink: bool
    var response: Option<string>
    var authOper: Option<string>

    predicate IsOper()
      reads this
    {
      OperMode in umodes
    }

    predicate IsCaptured()
      reads this
    {
      handler == DummyHandler
    }

    /** The handler index says OPER exactly for operators, and a challenge knows its oper block. */
    ghost predicate Coherent()
      reads this
    {
      && (IsOper() <==> handler == OperHandler)
      && handler in {ClientHandler, OperHandler, DummyHandler}
      && (response.Some? ==> authOper.Some?)
    }

    constructor (local: bool)
      ensures this.local == local && umodes == {} && Coherent()
    {
      this.local := local;
      umodes, handler, tsinfo, operflags := {}, ClientHandler, 0, {};
      uncloakable, virtualLink, response, authOper := false, false, None, None;
    }

    method SetOper()
      modifies this`umodes, this`handler
      ensures umodes == old(umodes) + {OperMode} && handler == OperHandler
    {
      umodes := umodes + {OperMode};
      handler := OperHandler;
    }

    method ClearOper()
      modifies this`umodes, this`handler
      ensures umodes == old(umodes) - {OperMode, AdminMode} && handler == ClientHandler
    {
      umodes := umodes - {OperMode, AdminMode};
      handler := ClientHandler;
    }

    /** The changes oper_up() makes to the user. */
    method GrantOper(conf: OperConf, operUmodes: set<Umode>)
      modifies this`umodes, this`handler, this`operflags
      ensures umodes == Granted(old(umodes), old(operflags), conf, operUmodes)
      ensures OperMode in umodes && handler == OperHandler && operflags == old(operflags) + conf.privileges
    {
      SetOper();
      if conf.modes != {} {
        umodes := umodes + conf.modes;
      } else if operUmodes != {} {
        umodes := umodes + operUmodes;
      } else {
        umodes := umodes + {ServnoticeMode, OperwallMode, WallopMode, LocopsMode};
      }
      operflags := operflags + conf.privileges;
      if AdminFlag in operflags || HiddenAdminFlag in operflags {
        umodes := umodes + {AdminMode};
      }
      if NickFlag !in operflags {
        umodes := umodes - {NchangeMode};
      }
    }

    /** ClearOper, then the modes only operators may hold, then netadmin. */
    method LoseOperModes(operOnly: set<Umode>)
      modifies this`umodes, this`handler
      ensures umodes == Deoper(old(umodes), operOnly) && handler == ClientHandler
    {
      ClearOper();
      umodes := umodes - operOnly;
      if NetadminMode in umodes {
        umodes := umodes - {NetadminMode};
      }
    }
  }

  ghost function Operators(users: set<User>): set<User>
    reads users
  {
    set u | u in users && u.IsOper()
  }

  ghost function LocalOperators(users: set<User>): set<User>
    reads users
  {
    set u | u in users && u.local && u.IsOper()
  }

  ghost function Invisibles(users: set<User>): set<User>
    reads users
  {
    set u | u in users && InvisibleMode in u.umodes
  }

  lemma OperatorRejoins(users: set<User>, u: User)
    requires u in users && u.local && u.IsOper()
    ensures |Operators(users)| == |Operators(users) - {u}| + 1
    ensures LocalOperators(users) == {u} + (LocalOperators(users) - {u})
  {
    assert Operators(users) == (Operators(users) - {u}) + {u};
  }

  lemma OperatorsWith(users: set<User>, u: User)
    requires u !in users && (u.local ==> !u.IsOper())
    ensures LocalOperators(users + {u}) == LocalOperators(users)
    ensures |Operators(users + {u})| == |Operators(users)| + if u.IsOper() then 1 else 0
  {
    if u.IsOper() {
      assert Operators(users + {u}) == Operators(users) + {u};
    } else {
      assert Operators(users + {u}) == Operators(users);
    }
  }

  lemma OperatorsWithout(users: set<User>, u: User)
    requires u in users
    ensures LocalOperators(users - {u}) == LocalOperators(users) - {u}
    ensures |Operators(users - {u})| == |Operators(users)| - if u.IsOper() then 1 else 0
  {
    assert Operators(users - {u}) == Operators(users) - {u};
    if !u.IsOper() {
      assert Operators(users - {u}) == Operators(users);
    }
  }

  lemma InvisiblesWith(users: set<User>, u: User)
    requires u !in users
    ensures |Invisibles(users + {u})| == |Invisibles(users)| + if InvisibleMode in u.umodes then 1 else 0
  {
    if InvisibleMode in u.umodes {
      assert Invisibles(users + {u}) == Invisibles(users) + {u};
    } else {
      assert Invisibles(users + {u}) == Invisibles(users);
    }
  }

  lemma InvisiblesWithout(users: set<User>, u: User)
    requires u in users
    ensures |Invisibles(users - {u})| == |Invisibles(users)| - if InvisibleMode in u.umodes then 1 else 0
  {
    assert Invisibles(users - {u}) == Invisibles(users) - {u};
    if InvisibleMode !in u.umodes {
      assert Invisibles(users - {u}) == Invisibles(users);
    }
  }

  /** What find_conf_exact() knows of the block asked for in a CHALLENGE: its name, and the
      response it expects if it has a key. */
  datatype KeyConf = KeyConf(name: string, hasKey: bool, expected: string)

  /** A command with what its unseen lookups answer. */
  datatype Command =
    | SvsModeCmd(fromServices: bool, target: User?, ts: int, ps: seq<string>)
    | SvsNoopCmd(fromServices: bool, arg: string)
    | OperCmd(source: User, password: string, conf: Option<OperConf>, matches: bool, attaches: bool)
    | ChallengeCmd(source: User, arg: string, asked: Option<KeyConf>, conf: Option<OperConf>, attaches: bool)
    | CaptureNickCmd(source: User, victim: User)
    | CaptureMaskCmd(source: User, validMask: bool, hit: set<User>)
    | UncaptureNickCmd(source: User, victim: User)
    | UncaptureMaskCmd(source: User, hit: set<User>)
    | RegisterCmd(newcomer: User)
    | LeaveCmd(leaver: User)
  {
    /** The users a command names are registered here, but for a newcomer, and OPER and CHALLENGE come from local
        ones. */
    ghost predicate Names(users: set<User>) {
      match this
      case RegisterCmd(newcomer) => newcomer !in users
      case LeaveCmd(leaver) => leaver in users
      case SvsModeCmd(_, target, _, _) => target != null ==> target in users
      case SvsNoopCmd(_, _) => true
      case OperCmd(source, _, _, _, _) => source in users && source.local
      case ChallengeCmd(source, _, _, _, _) => source in users && source.local
      case CaptureNickCmd(source, victim) => source in users && victim in users
      case CaptureMaskCmd(source, _, _) => source in users
      case UncaptureNickCmd(source, victim) => source in users && victim in users
      case UncaptureMaskCmd(source, _) => source in users
    }
  }

  /** Whether the server is in NOOP mode after a run: its last effective SVSNOOP decides. */
  function NoopAfter(noop: bool, cmds: seq<Command>): bool {
    if cmds == [] then noop
    else
      var last := cmds[|cmds| - 1];
      if last.SvsNoopCmd? && last.fromServices && last.arg != [] then last.arg[0] == '+'
      else NoopAfter(noop, cmds[..|cmds| - 1])
  }

  /** The users that are registered after a run. */
  function UsersAfter(users: set<User>, cmds: seq<Command>): set<User> {
    if cmds == [] then users
    else
      var before := UsersAfter(users, cmds[..|cmds| - 1]);
      match cmds[|cmds| - 1]
      case RegisterCmd(u) => before + {u}
      case LeaveCmd(u) => before - {u}
      case _ => before
  }

  /** Each command names users that are registered when it comes, and each newcomer is new. */
  ghost predicate Possible(users: set<User>, cmds: seq<Command>) {
    && (forall i :: 0 <= i < |cmds| ==> cmds[i].Names(UsersAfter(users, cmds[..i])))
    && (forall i :: 0 <= i < |cmds| && cmds[i].RegisterCmd? ==> cmds[i].newcomer !in users)
    && (forall i, j :: 0 <= i < j < |cmds| && cmds[i].RegisterCmd? && cmds[j].RegisterCmd? ==>
          cmds[i].newcomer != cmds[j].newcomer)
  }

  ghost function Newcomers(cmds: seq<Command>): set<User> {
    set cmd | cmd in cmds && cmd.RegisterCmd? :: cmd.newcomer
  }

  lemma {:induction false} UsersCome(users: set<User>, cmds: seq<Command>)
    ensures UsersAfter(users, cmds) <= users + Newcomers(cmds)
  {
    if cmds != [] {
      UsersCome(users, cmds[..|cmds| - 1]);
      assert forall cmd :: cmd in cmds[..|cmds| - 1] ==> cmd in cmds;
    }
  }

  class Ircd {
    const operOnly: set<Umode>
    const operUmodes: set<Umode>
    var users: set<User>
    var localUsers: seq<User>
    var operList: seq<User>
    var countOper: int
    var countInvisi: int
    var svsnoop: bool

    /** Kept by every command: the list of operators and their number are right, handlers agree
        with modes, and no local user is an operator while the server is in NOOP mode. */
    ghost predicate Valid()
      reads this, users
    {
      Consistent() && (svsnoop ==> operList == [])
    }

    ghost predicate Consistent()
      reads this, users
    {
      && Distinct(operList) && Members(operList) == LocalOperators(users)
      && countOper == |Operators(users)|
      && (forall u :: u in users ==> u.Coherent())
      && Distinct(localUsers) && Members(localUsers) == (set u | u in users && u.local)
    }

    ghost predicate InvisibleCountExact()
      reads this, users
    {
      countInvisi == |Invisibles(users)|
    }

    constructor (operOnly: set<Umode>, operUmodes: set<Umode>)
      ensures Valid() && InvisibleCountExact() && users == {} && !svsnoop
      ensures this.operOnly == operOnly && this.operUmodes == operUmodes
    {
      this.operOnly, this.operUmodes := operOnly, operUmodes;
      users, localUsers, operList := {}, [], [];
      countOper, countInvisi, svsnoop := 0, 0, false;
    }

    /** What registration leaves: a coherent user, who if he is local is no operator yet. */
    ghost predicate IsNewcomer(u: User)
      reads u
    {
      u.Coherent() && (u.local ==> !u.IsOper())
    }

    /** A user is registered here (register_local_user()) or introduced by another server (client_from_server()). */
    method Register(u: User)
      requires Valid() && u !in users && IsNewcomer(u)
      modifies this`users, this`localUsers, this`countOper, this`countInvisi
      ensures Valid() && users == old(users) + {u} && (InvisibleCountExact() <==> old(InvisibleCountExact()))
      ensures countOper == old(countOper) + if u.IsOper() then 1 else 0
    {
      OperatorsWith(users, u);
      InvisiblesWith(users, u);
      if u.IsOper() {
        countOper := countOper + 1;
      }
      if InvisibleMode in u.umodes {
        countInvisi := countInvisi + 1;
      }
      if u.local {
        ConsMembers(u, localUsers);
        localUsers := [u] + localUsers;
      }
      users := users + {u};
    }

    /** exit_client() of a user: he leaves oper_list and the counts of update_client_exit_stats(). */
    method Leave(u: User)
      requires Valid() && u in users
      modifies this`users, this`localUsers, this`operList, this`countOper, this`countInvisi
      ensures Valid() && users == old(users) - {u} && (InvisibleCountExact() <==> old(InvisibleCountExact()))
    {
      OperatorsWithout(users, u);
      InvisiblesWithout(users, u);
      LeaveLists(u);
      if u.IsOper() {
        countOper := countOper - 1;
      }
      if InvisibleMode in u.umodes {
        countInvisi := countInvisi - 1;
      }
      users := users - {u};
    }

    method LeaveLists(u: User)
      requires Distinct(localUsers) && Distinct(operList) && (u in Members(operList) + Members(localUsers) ==> u.local)
      modifies this`localUsers, this`operList
      ensures Distinct(localUsers) && Members(localUsers) == old(Members(localUsers)) - {u}
      ensures Distinct(operList) && Members(operList) == old(Members(operList)) - {u}
      ensures old(operList) == [] ==> operList == []
    {
      RemoveMembers(localUsers, u);
      RemoveMembers(operList, u);
      if u.local {
        localUsers := Remove(localUsers, u);
        operList := Remove(operList, u);
      }
    }

    /** What every path that takes an operator's rights away does (SVSNOOP +, SVSMODE -o). */
    method Unoper(target: User)
      requires Consistent() && target in users && target.IsOper()
      modifies this`countOper, this`operList, target`umodes, target`handler, target`operflags
      ensures Consistent()
      ensures target.umodes == Deoper(old(target.umodes), operOnly)
      ensures target.handler == ClientHandler
      ensures target.operflags == if target.local then {} else old(target.operflags)
      ensures operList == if target.local then Remove(old(operList), target) else old(operList)
      ensures countOper == old(countOper) - 1
    {
      ghost var opers, locals := Operators(users), LocalOperators(users);
      target.LoseOperModes(operOnly);
      ghost var now := Operators(users);
      CountChange(opers, now, target);
      countOper := countOper - 1;
      if target.local {
        target.operflags := {};
        RemoveMembers(operList, target);
        operList := Remove(operList, target);
      }
      assert Operators(users) == now && LocalOperators(users) == locals - {target};
    }

    /** SetX(target) and ClearX(target) for a flag other than UMODE_OPER. */
    method ChangeMode(target: User, flags: set<Umode>, on: bool)
      requires Valid() && target in users && OperMode !in flags
      modifies target`umodes
      ensures Valid() && target.umodes == Switch(old(target.umodes), flags, on)
    {
      ghost var opers, locals := Operators(users), LocalOperators(users);
      target.umodes := if on then target.umodes + flags else target.umodes - flags;
      assert Operators(users) == opers && LocalOperators(users) == locals;
    }

    /** The character loop of me_svsmode() for one character. */
    method SvsModeChar(target: User, c: char, adding: bool) returns (adding': bool)
      requires Valid() && target in users
      modifies this`countOper, this`operList, target`umodes, target`handler, target`operflags
      ensures Valid()
      ensures ModeState(target.umodes, adding')
           == ModeChar(Scope(target.local, target.uncloakable, operOnly), ModeState(old(target.umodes), adding), c)
      ensures target.handler ==
              if old(target.IsOper()) && !target.IsOper() then ClientHandler else old(target.handler)
    {
      adding' := adding;
      match c {
        case '+' => adding' := true;
        case '-' => adding' := false;
        case 'd' | 'S' | ' ' | '\n' | '\r' | '\t' =>
        case 'o' =>
          if !adding && target.IsOper() {
            Unoper(target);
          }
        case 'x' =>
          if adding {
            if !(target.local && target.uncloakable) && CloakMode !in target.umodes {
              ChangeMode(target, {CloakMode}, true);
            }
          } else if CloakMode in target.umodes {
            ChangeMode(target, {CloakMode}, false);
          }
        case 'B' =>
          if adding && RegnickMode !in target.umodes {
            ChangeMode(target, {GringoMode}, true);
          } else {
            ChangeMode(target, {GringoMode}, false);
          }
        case 'r' =>
          if adding {
            if GringoMode in target.umodes {
              ChangeMode(target, {GringoMode}, false);
            }
            ChangeMode(target, {RegnickMode}, true);
          } else {
            ChangeMode(target, {RegnickMode}, false);
          }
        case _ =>
          var flags := UserMode(c);
          if flags != {} && !(target.local && !target.IsOper() && operOnly * flags != {}) {
            ChangeMode(target, flags, adding);
          }
      }
    }

    method SvsModeString(target: User, m: string, adding: bool) returns (adding': bool)
      requires Valid() && target in users
      modifies this`countOper, this`operList, target`umodes, target`handler, target`operflags
      ensures Valid()
      ensures ModeState(target.umodes, adding')
           == ModeString(Scope(target.local, target.uncloakable, operOnly), ModeState(old(target.umodes), adding), m)
      ensures target.IsOper() ==> old(target.IsOper())
      ensures target.handler ==
              if old(target.IsOper()) && !target.IsOper() then ClientHandler else old(target.handler)
    {
      ghost var k := Scope(target.local, target.uncloakable, operOnly);
      ghost var end := ModeString(k, ModeState(target.umodes, adding), m);
      var i := 0;
      adding' := adding;
      while i < |m|
        invariant 0 <= i <= |m| && Valid()
        invariant ModeString(k, ModeState(target.umodes, adding'), m[i..]) == end
        invariant target.IsOper() ==> old(target.IsOper())
        invariant target.handler ==
                  if old(target.IsOper()) && !target.IsOper() then ClientHandler else old(target.handler)
      {
        ModeCharOper(k, ModeState(target.umodes, adding'), m[i]);
        assert m[i..][1..] == m[i + 1..];
        adding' := SvsModeChar(target, m[i], adding');
        i := i + 1;
      }
    }

    method SvsModeParams(target: User, ps: seq<string>)
      requires Valid() && target in users
      modifies this`countOper, this`operList, target`umodes, target`handler, target`operflags
      ensures Valid()
      ensures target.umodes == ModeParams(Scope(target.local, target.uncloakable, operOnly),
                                          ModeState(old(target.umodes), true), ps).umodes
      ensures target.handler ==
              if old(target.IsOper()) && !target.IsOper() then ClientHandler else old(target.handler)
    {
      ghost var k := Scope(target.local, target.uncloakable, operOnly);
      ghost var end := ModeParams(k, ModeState(target.umodes, true), ps);
      var adding, p := true, 0;
      while p < |ps|
        invariant 0 <= p <= |ps| && Valid()
        invariant ModeParams(k, ModeState(target.umodes, adding), ps[p..]) == end
        invariant target.IsOper() ==> old(target.IsOper())
        invariant target.handler ==
                  if old(target.IsOper()) && !target.IsOper() then ClientHandler else old(target.handler)
      {
        assert ps[p..][1..] == ps[p + 1..];
        adding := SvsModeString(target, ps[p], adding);
        p := p + 1;
      }
    }

    /** Count.invisi after a command that may have changed target's modes. */
    method CountInvisible(target: User, setflags: set<Umode>, ghost before: set<User>)
      requires Valid() && target in users
      requires Invisibles(users) - {target} == before - {target} && (target in before <==> InvisibleMode in setflags)
      modifies this`countInvisi
      ensures Valid() && countInvisi - old(countInvisi) == |Invisibles(users)| - |before|
    {
      CountChange(before, Invisibles(users), target);
      if InvisibleMode !in setflags && InvisibleMode in target.umodes {
        countInvisi := countInvisi + 1;
      }
      if InvisibleMode in setflags && InvisibleMode !in target.umodes {
        countInvisi := countInvisi - 1;
      }
    }

    method ApplyModes(target: User, ps: seq<string>)
      requires Valid() && target in users
      modifies this`countOper, this`operList, this`countInvisi, target`umodes, target`handler, target`operflags
      ensures Valid() && (InvisibleCountExact() <==> old(InvisibleCountExact()))
      ensures target.umodes == ModeParams(Scope(target.local, target.uncloakable, operOnly),
                                          ModeState(old(target.umodes), true), ps).umodes
      ensures target.handler ==
              if old(target.IsOper()) && !target.IsOper() then ClientHandler else old(target.handler)
    {
      ghost var before := Invisibles(users);
      var setflags := target.umodes;
      SvsModeParams(target, ps);
      assert Invisibles(users) - {target} == before - {target};
      CountInvisible(target, setflags, before);
    }

    /** me_svsmode(): only services may send it, for a known user whose timestamp agrees. */
    method SvsMode(fromServices: bool, target: User?, ts: int, ps: seq<string>)
      requires Valid() && (target != null ==> target in users)
      modifies this`countOper, this`operList, this`countInvisi, if target != null then {target} else {}
      ensures Valid() && (InvisibleCountExact() <==> old(InvisibleCountExact()))
      ensures target != null ==>
        if fromServices && ps != [] && (ts == 0 || ts == old(target.tsinfo)) then
          target.umodes == old(ModeParams(Scope(target.local, target.uncloakable, operOnly),
                                          ModeState(target.umodes, true), ps).umodes)
        else unchanged(target)
      ensures target == null ==> unchanged(this)
    {
      if !fromServices || ps == [] || target == null {
        return;
      }
      if ts != 0 && ts != target.tsinfo {
        return;
      }
      ApplyModes(target, ps);
    }

    /** me_svsnoop().  The sweep takes every local operator's rights away; it adjusts Count.oper
        but not Count.invisi, which stays right exactly when no invisible operator loses +i. */
    method SvsNoop(fromServices: bool, arg: string)
      requires Valid()
      modifies this`svsnoop, this`countOper, this`operList, users
      ensures Valid()
      ensures !fromServices || arg == [] ==> unchanged(this) && forall u :: u in users ==> unchanged(u)
      ensures fromServices && arg != [] && arg[0] != '+' ==>
                !svsnoop && operList == old(operList) && forall u :: u in users ==> unchanged(u)
      ensures fromServices && arg != [] && arg[0] == '+' ==>
                && svsnoop && operList == []
                && (forall u :: u in old(operList) ==>
                      u.umodes == Deoper(old(u.umodes), operOnly) && u.handler == ClientHandler && u.operflags == {})
                && (forall u :: u in users && u !in old(operList) ==> unchanged(u))
                && (old(InvisibleCountExact()) ==>
                      (InvisibleCountExact() <==>
                        InvisibleMode !in operOnly
                        || old(Invisibles(users)) !! old(LocalOperators(users))))
    {
      if !fromServices || arg == [] {
        return;
      }
      if arg[0] == '+' {
        ghost var before, swept := Invisibles(users), LocalOperators(users);
        NoopOn();
        DifferenceSize(before, swept);
        assert before - {} == before;
      } else {
        svsnoop := false;
      }
    }

    method NoopOn()
      requires Consistent()
      modifies this`svsnoop, this`countOper, this`operList, users
      ensures Consistent() && svsnoop && operList == []
      ensures forall u :: u in old(operList) ==>
                u.umodes == Deoper(old(u.umodes), operOnly) && u.handler == ClientHandler && u.operflags == {}
      ensures forall u :: u in users && u !in old(operList) ==> unchanged(u)
      ensures Invisibles(users) == old(Invisibles(users)) -
                if InvisibleMode in operOnly then old(LocalOperators(users)) else {}
    {
      assert Members(operList) == LocalOperators(users);
      svsnoop := true;
      Sweep();
    }

    /** The DLINK_FOREACH_SAFE loop over oper_list: `rest` is the list from the saved next
        pointer on, which the removal of the current entry leaves alone. */
    method Sweep()
      requires Consistent()
      modifies this`countOper, this`operList, users
      ensures Consistent() && operList == []
      ensures forall u :: u in old(operList) ==>
                u.umodes == Deoper(old(u.umodes), operOnly) && u.handler == ClientHandler && u.operflags == {}
      ensures forall u :: u in users && u !in old(operList) ==> unchanged(u)
    {
      var rest := operList;
      ghost var k := 0;
      while rest != []
        invariant k <= old(|operList|) && rest == old(operList)[k..]
        invariant Consistent() && operList == rest
        invariant forall i :: 0 <= i < k ==> var u := old(operList)[i];
                    u.umodes == Deoper(old(u.umodes), operOnly) && u.handler == ClientHandler && u.operflags == {}
        invariant forall u :: u in users && u !in old(operList)[..k] ==> unchanged(u)
        decreases rest
      {
        var target := rest[0];
        rest := rest[1..];
        assert target in Members(operList);
        assert Remove(operList, target) == rest;
        if target.local && target.IsOper() {
          Unoper(target);
        }
        k := k + 1;
      }
    }

    /** oper_up().  It leaves Count.invisi alone. */
    method OperUp(source: User, conf: OperConf)
      requires Valid() && !svsnoop
      requires source in users && source.local && !source.IsOper()
      modifies this`countOper, this`operList, source`umodes, source`handler, source`operflags
      ensures Valid() && source.IsOper()
      ensures source.umodes == Granted(old(source.umodes), old(source.operflags), conf, operUmodes)
      ensures source.operflags == old(source.operflags) + conf.privileges
      ensures operList == [source] + old(operList) && countOper == old(countOper) + 1
      ensures old(InvisibleCountExact()) ==>
                (InvisibleCountExact() <==>
                  (InvisibleMode in old(Granted(source.umodes, source.operflags, conf, operUmodes)) ==>
                    InvisibleMode in old(source.umodes)))
    {
      Raise(source, conf);
      Enlist(source);
    }

    /** What oper_up() does before it touches oper_list. */
    method Raise(source: User, conf: OperConf)
      requires source in users && source.Coherent() && !source.IsOper()
      modifies this`countOper, source`umodes, source`handler, source`operflags
      ensures source.IsOper() && source.Coherent() && countOper == old(countOper) + 1
      ensures source.umodes == Granted(old(source.umodes), old(source.operflags), conf, operUmodes)
      ensures source.operflags == old(source.operflags) + conf.privileges
      ensures Operators(users) - {source} == old(Operators(users))
      ensures LocalOperators(users) - {source} == old(LocalOperators(users))
      ensures |Invisibles(users)| - old(|Invisibles(users)|) ==
                (if InvisibleMode in source.umodes then 1 else 0) - (if old(InvisibleMode in source.umodes) then 1 else 0)
    {
      ghost var invisibles := Invisibles(users);
      countOper := countOper + 1;
      source.GrantOper(conf, operUmodes);
      assert Invisibles(users) - {source} == invisibles - {source};
      CountChange(invisibles, Invisibles(users), source);
    }

    /** Puts a new operator at the head of oper_list. */
    method Enlist(source: User)
      requires !svsnoop && source in users && source.local && source.IsOper()
      requires Distinct(operList) && Members(operList) == LocalOperators(users) - {source}
      requires countOper == |Operators(users) - {source}| + 1
      requires forall u :: u in users ==> u.Coherent()
      requires Distinct(localUsers) && Members(localUsers) == (set u | u in users && u.local)
      modifies this`operList
      ensures Valid() && operList == [source] + old(operList)
    {
      OperatorRejoins(users, source);
      ConsMembers(source, operList);
      operList := [source] + operList;
    }

    /** The OPER command.  Only the handler of an ordinary user runs m_oper(). */
    method OperCommand(source: User, password: string, conf: Option<OperConf>, matches: bool, attaches: bool)
      requires Valid() && source in users && source.local
      modifies this`countOper, this`operList, source`umodes, source`handler, source`operflags
      ensures Valid()
      ensures
        if old(source.handler) == ClientHandler && password != [] && !source.virtualLink && !svsnoop
           && conf.Some? && matches && attaches
        then
          && source.umodes == Granted(old(source.umodes), old(source.operflags), conf.value, operUmodes)
          && operList == [source] + old(operList)
        else unchanged(this) && unchanged(source)
    {
      if source.handler != ClientHandler {
        return;
      }
      if password == [] {
        return;
      }
      if source.virtualLink {
        return;
      }
      if svsnoop {
        return;
      }
      if conf.None? {
        return;
      }
      if matches {
        if !attaches {
          return;
        }
        OperUp(source, conf.value);
      }
    }

    /** The CHALLENGE command: a request stores the expected response, a response that agrees
        with it makes an operator unless the server is in NOOP mode. */
    method ChallengeCommand(source: User, arg: string, asked: Option<KeyConf>, conf: Option<OperConf>, attaches: bool)
      requires Valid() && source in users && source.local
      modifies this`countOper, this`operList, source
      ensures Valid()
      ensures
        var reply := arg != [] && arg[0] == '+';
        if old(source.handler) != ClientHandler then unchanged(this) && unchanged(source)
        else if !reply then
          && unchanged(this) && source.umodes == old(source.umodes)
          && source.response == (if asked.Some? && asked.value.hasKey then Some(asked.value.expected) else None)
          && source.authOper == (if asked.Some? && asked.value.hasKey then Some(asked.value.name) else None)
        else if old(source.response.Some? && !svsnoop && SameName(source.response.value, arg[1..]))
                && conf.Some? && attaches then
          && source.umodes == Granted(old(source.umodes), old(source.operflags), conf.value, operUmodes)
          && source.IsOper() && operList == [source] + old(operList)
          && source.response == None && source.authOper == None
        else unchanged(this) && unchanged(source)
    {
      if source.handler == DummyHandler {
        return;
      }
      if source.IsOper() {
        return;
      }
      if arg != [] && arg[0] == '+' {
        if source.response == None {
          return;
        }
        if svsnoop {
          return;
        }
        var differs := IrcCmp(source.response.value, arg[1..]);
        if differs != 0 {
          return;
        }
        if conf == None {
          return;
        }
        if !attaches {
          return;
        }
        OperUp(source, conf.value);
        ClearChallenge(source);
        return;
      }
      ClearChallenge(source);
      if asked == None {
        return;
      }
      if !asked.value.hasKey {
        return;
      }
      StoreChallenge(source, asked.value);
    }

    method ClearChallenge(source: User)
      requires Valid() && source in users
      modifies source`response, source`authOper
      ensures Valid() && source.response == None && source.authOper == None
    {
      ghost var opers, locals := Operators(users), LocalOperators(users);
      source.response := None;
      source.authOper := None;
      assert Operators(users) == opers && LocalOperators(users) == locals;
    }

    /** generate_challenge() sets the response even if it cannot encrypt the challenge (src/rsa.c:208-229). */
    method StoreChallenge(source: User, key: KeyConf)
      requires Valid() && source in users
      modifies source`response, source`authOper
      ensures Valid() && source.response == Some(key.expected) && source.authOper == Some(key.name)
    {
      ghost var opers, locals := Operators(users), LocalOperators(users);
      source.response := Some(key.expected);
      source.authOper := Some(key.name);
      assert Operators(users) == opers && LocalOperators(users) == locals;
    }

    /** SetCaptured and ClearCaptured, on a user who is no operator. */
    method SetHandler(target: User, h: Handler)
      requires Valid() && target in users && !target.IsOper() && h in {ClientHandler, DummyHandler}
      modifies target`handler
      ensures Valid() && target.handler == h
    {
      ghost var opers, locals := Operators(users), LocalOperators(users);
      target.handler := h;
      assert Operators(users) == opers && LocalOperators(users) == locals;
    }

    /** CAPTURE of a nick that names a registered user. */
    method CaptureNick(source: User, target: User)
      requires Valid() && source in users && target in users
      modifies target`handler
      ensures Valid()
      ensures target.handler ==
              if (source.local ==> NetadminMode in source.umodes) && target.local && source != target && !target.IsOper()
              then DummyHandler else old(target.handler)
    {
      if source.local && NetadminMode !in source.umodes {
        return;
      }
      if target.local && source != target {
        if target.IsOper() {
          return;
        }
        if !target.IsCaptured() {
          SetHandler(target, DummyHandler);
        }
      }
    }

    /** CAPTURE of a mask; `hit` are the users that the mask matches. */
    method CaptureMask(source: User, validMask: bool, hit: set<User>)
      requires Valid() && source in users
      modifies users`handler
      ensures Valid()
      ensures var acts := (source.local ==> NetadminMode in source.umodes) && validMask;
        (forall u :: u in users ==>
              u.handler == if acts && u.local && u != source && !u.IsOper() && u in hit
                           then DummyHandler else old(u.handler))
    {
      if source.local && NetadminMode !in source.umodes {
        return;
      }
      if !validMask {
        return;
      }
      ghost var seen := {};
      for i := 0 to |localUsers|
        invariant Valid() && seen == Members(localUsers[..i])
        invariant forall u :: u in seen ==>
                    u.handler == if u != source && !u.IsOper() && u in hit then DummyHandler else old(u.handler)
        invariant forall u :: u in users && u !in seen ==> u.handler == old(u.handler)
      {
        var target := localUsers[i];
        assert localUsers[..i + 1] == localUsers[..i] + [target] && target in Members(localUsers);
        assert target !in seen;
        if !(source == target || target.IsOper() || target.IsCaptured()) {
          if target in hit {
            SetHandler(target, DummyHandler);
          }
        }
        seen := seen + {target};
      }
      assert localUsers[..|localUsers|] == localUsers;
    }

    method UncaptureNick(source: User, target: User)
      requires Valid() && source in users && target in users
      modifies target`handler
      ensures Valid()
      ensures target.handler ==
              if (source.local ==> NetadminMode in source.umodes) && target.local && old(target.IsCaptured())
              then ClientHandler else old(target.handler)
    {
      if source.local && NetadminMode !in source.umodes {
        return;
      }
      if target.local && target.IsCaptured() {
        SetHandler(target, ClientHandler);
      }
    }

    method UncaptureMask(source: User, hit: set<User>)
      requires Valid() && source in users
      modifies users`handler
      ensures Valid()
      ensures var acts := source.local ==> NetadminMode in source.umodes;
        (forall u :: u in users ==>
              u.handler == if acts && u.local && old(u.IsCaptured()) && u in hit then ClientHandler else old(u.handler))
    {
      if source.local && NetadminMode !in source.umodes {
        return;
      }
      ghost var seen := {};
      for i := 0 to |localUsers|
        invariant Valid() && seen == Members(localUsers[..i])
        invariant forall u :: u in seen ==>
                    u.handler == if old(u.IsCaptured()) && u in hit then ClientHandler else old(u.handler)
        invariant forall u :: u in users && u !in seen ==> u.handler == old(u.handler)
      {
        var target := localUsers[i];
        assert localUsers[..i + 1] == localUsers[..i] + [target] && target in Members(localUsers);
        assert target !in seen;
        if target.IsCaptured() {
          if target in hit {
            SetHandler(target, ClientHandler);
          }
        }
        seen := seen + {target};
      }
      assert localUsers[..|localUsers|] == localUsers;
    }

    /** Who is a local user and no operator now has no guarded mode that he did not have, or none at all if he was an
        operator. */
    twostate predicate GainNothing(us: set<User>)
      reads us
    {
      forall u :: u in us && u.local && !u.IsOper() ==>
        Guarded(u.umodes, operOnly) <= if old(u.IsOper()) then {} else old(Guarded(u.umodes, operOnly))
    }

    method ExecuteSvsMode(fromServices: bool, target: User?, ts: int, ps: seq<string>)
      requires Valid() && (target != null ==> target in users)
      modifies this`countOper, this`operList, this`countInvisi, if target != null then {target} else {}
      ensures Valid() && GainNothing(users)
    {
      if target != null && target.local {
        ParamsAreGuarded(Scope(target.local, target.uncloakable, operOnly), ModeState(target.umodes, true), ps);
      }
      SvsMode(fromServices, target, ts, ps);
    }

    method ExecuteSvsNoop(fromServices: bool, arg: string)
      requires Valid()
      modifies this`svsnoop, this`countOper, this`operList, users
      ensures Valid() && GainNothing(users)
      ensures svsnoop == if fromServices && arg != [] then arg[0] == '+' else old(svsnoop)
    {
      SvsNoop(fromServices, arg);
    }

    method ExecuteOper(cmd: Command)
      requires Valid() && cmd.Names(users) && (cmd.OperCmd? || cmd.ChallengeCmd?)
      modifies this`countOper, this`operList, users
      ensures Valid() && GainNothing(users)
    {
      match cmd {
        case OperCmd(source, password, conf, matches, attaches) =>
          OperCommand(source, password, conf, matches, attaches);
        case ChallengeCmd(source, arg, asked, conf, attaches) => ChallengeCommand(source, arg, asked, conf, attaches);
      }
    }

    method ExecuteCapture(cmd: Command)
      requires Valid() && cmd.Names(users)
      requires cmd.CaptureNickCmd? || cmd.CaptureMaskCmd? || cmd.UncaptureNickCmd? || cmd.UncaptureMaskCmd?
      modifies users`handler
      ensures Valid() && GainNothing(users)
    {
      match cmd {
        case CaptureNickCmd(source, victim) => CaptureNick(source, victim);
        case CaptureMaskCmd(source, validMask, hit) => CaptureMask(source, validMask, hit);
        case UncaptureNickCmd(source, victim) => UncaptureNick(source, victim);
        case UncaptureMaskCmd(source, hit) => UncaptureMask(source, hit);
      }
    }

    method Execute(cmd: Command)
      requires Valid() && cmd.Names(users) && (cmd.RegisterCmd? ==> IsNewcomer(cmd.newcomer))
      modifies this`svsnoop, this`countOper, this`operList, this`countInvisi, this`users, this`localUsers, users
      ensures Valid() && svsnoop == NoopAfter(old(svsnoop), [cmd]) && users == UsersAfter(old(users), [cmd])
      ensures GainNothing(old(users))
    {
      match cmd {
        case SvsModeCmd(fromServices, target, ts, ps) => ExecuteSvsMode(fromServices, target, ts, ps);
        case SvsNoopCmd(fromServices, arg) => ExecuteSvsNoop(fromServices, arg);
        case OperCmd(_, _, _, _, _) | ChallengeCmd(_, _, _, _, _) => ExecuteOper(cmd);
        case RegisterCmd(newcomer) => Register(newcomer);
        case LeaveCmd(leaver) => Leave(leaver);
        case _ => ExecuteCapture(cmd);
      }
    }

    /** `locals` are the local operators of the first states of a run that began with the users and the mode given. */
    ghost predicate HasRun(before: set<User>, noop: bool, cmds: seq<Command>, n: nat, locals: seq<set<User>>)
      requires n <= |cmds|
      reads this, users
    {
      && |locals| == n + 1 && locals[n] == LocalOperators(users)
      && users == UsersAfter(before, cmds[..n]) && svsnoop == NoopAfter(noop, cmds[..n])
      && forall i :: 0 <= i <= n && NoopAfter(noop, cmds[..i]) ==> locals[i] == {}
    }

    /** `came` are the modes that users came with: who is a local user and no operator has no other guarded ones. */
    ghost predicate HaveAsTheyCame(came: map<User, set<Umode>>)
      reads this, users
    {
      forall u :: u in users ==>
        u in came && (u.local && !u.IsOper() ==> Guarded(u.umodes, operOnly) <= came[u])
    }

    /** The newcomers from command n on are as they came. */
    ghost predicate StillNew(cmds: seq<Command>, n: nat, came: map<User, set<Umode>>)
      requires n <= |cmds|
      reads Newcomers(cmds)
    {
      forall i :: n <= i < |cmds| && cmds[i].RegisterCmd? ==>
        var u := cmds[i].newcomer;
        u in Newcomers(cmds) && IsNewcomer(u) && u in came && u.umodes == came[u]
    }

    /** The next command of a run. */
    method ExecuteNext(ghost before: set<User>, ghost noop: bool, cmds: seq<Command>, n: nat, ghost locals: seq<set<User>>,
                       ghost came: map<User, set<Umode>>) returns (ghost more: seq<set<User>>)
      requires Valid() && n < |cmds| && HasRun(before, noop, cmds, n, locals) && Possible(before, cmds)
      requires HaveAsTheyCame(came) && StillNew(cmds, n, came)
      modifies this`svsnoop, this`countOper, this`operList, this`countInvisi, this`users, this`localUsers, users
      ensures Valid() && HasRun(before, noop, cmds, n + 1, more)
      ensures HaveAsTheyCame(came) && StillNew(cmds, n + 1, came)
    {
      StillToCome(before, cmds, n);
      assert cmds[..n + 1][..n] == cmds[..n] && cmds[n] in cmds;
      Execute(cmds[n]);
      more := locals + [LocalOperators(users)];
      assert svsnoop ==> Members(operList) == {};
    }

    /** Any run, in which users come and go: `locals` are the local operators of its successive states.  Between
        SVSNOOP + and the next SVSNOOP - there is none.  No local user who is no operator comes to hold an oper-only
        mode that he did not come with. */
    method Run(cmds: seq<Command>) returns (ghost locals: seq<set<User>>)
      requires Valid() && Possible(users, cmds) && forall u :: u in Newcomers(cmds) ==> IsNewcomer(u)
      modifies this`svsnoop, this`countOper, this`operList, this`countInvisi, this`users, this`localUsers
      modifies users, Newcomers(cmds)
      ensures Valid() && |locals| == |cmds| + 1 && locals[|cmds|] == LocalOperators(users)
      ensures users == UsersAfter(old(users), cmds)
      ensures forall i :: 0 <= i <= |cmds| && NoopAfter(old(svsnoop), cmds[..i]) ==> locals[i] == {}
      ensures forall u :: u in old(users) + Newcomers(cmds) && u in users && u.local && !u.IsOper() ==>
                u.umodes * operOnly - {CloakMode, GringoMode, RegnickMode} <= old(u.umodes)
    {
      ghost var came := map u | u in users + Newcomers(cmds) :: u.umodes;
      locals := [LocalOperators(users)];
      for n := 0 to |cmds|
        invariant Valid() && HasRun(old(users), old(svsnoop), cmds, n, locals)
        invariant users <= old(users) + Newcomers(cmds)
        invariant HaveAsTheyCame(came) && StillNew(cmds, n, came)
      {
        locals := ExecuteNext(old(users), old(svsnoop), cmds, n, locals, came);
        UsersCome(old(users), cmds[..n + 1]);
      }
      assert cmds[..|cmds|] == cmds;
    }
  }

  /** Newcomers to come are not registered yet. */
  lemma StillToCome(users: set<User>, cmds: seq<Command>, n: nat)
    requires Possible(users, cmds) && n <= |cmds|
    ensures forall i :: n <= i < |cmds| && cmds[i].RegisterCmd? ==> cmds[i].newcomer !in UsersAfter(users, cmds[..n])
  {
    UsersCome(users, cmds[..n]);
    forall i | n <= i < |cmds| && cmds[i].RegisterCmd?
      ensures cmds[i].newcomer !in Newcomers(cmds[..n])
    {
      forall cmd | cmd in cmds[..n] && cmd.RegisterCmd?
        ensures cmd.newcomer != cmds[i].newcomer
      {
        var j :| 0 <= j < n && cmds[j] == cmd;
      }
    }
  }
}
