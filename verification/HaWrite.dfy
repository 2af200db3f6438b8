/** The write protocol of the key-value proxy: a write goes to both masters of its slot, and a single
    failure is covered by a record that names the master which missed the write. */
module HaWrite {
  import opened Options

  const OK := 200
  const NOT_FOUND := 404
  const PRECONDITION_FAILED := 412

  const DEL := 2
  const HSET := 3
  const HDEL := 4
  const SADD := 5
  const SREM := 6
  const ZADD := 7
  const ZREM := 8

  /** A node of a write list. */
  type Node = n: nat | n < 2

  function Other(n: Node): Node
  {
    1 - n
  }

  /** Answers that count as neither success nor failure: the key is not there to delete, or a newer
      version is. */
  predicate SkipError(code: nat, status: nat)
  {
    || (status == PRECONDITION_FAILED && code in {DEL, HDEL, SREM, ZREM, HSET, SADD, ZADD})
    || (status == NOT_FOUND && code in {DEL, HDEL, SREM, ZREM})
  }

  /** What became of the write at one master. */
  datatype Verdict = Pending | Accepted | Skipped | Failed

  function VerdictOf(code: nat, status: nat): (v: Verdict)
    ensures v != Pending
  {
    if status == OK then Accepted else if SkipError(code, status) then Skipped else Failed
  }

  function Count(v: seq<Verdict>, x: Verdict): (n: nat)
    requires |v| == 2
    ensures n == multiset(v)[x]
  {
    assert v == [v[0], v[1]];
    (if v[0] == x then 1 else 0) + (if v[1] == x then 1 else 0)
  }

  /** A completed subrequest; a version that is no number reads as -1. */
  datatype Answer = Answer(status: nat, version: Option<int>)

  /** How the surroundings behave during one call of the handler: which masters the health checks
      report down, and whether a subrequest can be started, the record encoded, the local log written,
      and the `Sync` and `Version` headers added. */
  datatype Env = Env(dead: set<Node>, debugSync: bool, started: bool, encoded: bool, logged: bool, marked: bool,
                     versioned: bool)

  /** How one call of the handler ends: a further subrequest, a reply, or an internal error. */
  datatype Action = Ask(node: Node, binlog: bool) | Reply(status: nat, version: Option<int>) | Fault

  function Respond(status: nat, version: Option<int>, env: Env): Action
  {
    if !env.versioned then Fault else Reply(status, if status == OK then version else Some(0))
  }

  function Start(node: Node, binlog: bool, env: Env): (a: Action)
    ensures a.Ask? ==> a == Ask(node, binlog)
  {
    if env.started then Ask(node, binlog) else Fault
  }

  function LocalLog(version: Option<int>, env: Env): Action
  {
    Respond(if env.encoded && env.logged && env.marked then OK else NOT_FOUND, version, env)
  }

  /** The only master that took the write, if the other one failed it. */
  function Covering(v: seq<Verdict>): Option<Node>
  {
    if v == [Accepted, Failed] then Some(0) else if v == [Failed, Accepted] then Some(1) else None
  }

  /** What the protocol owes a write once both masters are settled. */
  function Decide(v: seq<Verdict>, version: Option<int>, env: Env): (a: Action)
    ensures a.Ask? ==> Covering(v).Some? && a == Ask(Covering(v).value, true)
  {
    if v == [Accepted, Accepted] then Respond(OK, version, env)
    else match Covering(v)
      case Some(healthy) => if healthy in env.dead then LocalLog(version, env) else Start(healthy, true, env)
      case None => Respond(NOT_FOUND, version, env)
  }

  /** What deciding adds to the local log. */
  function Logged(v: seq<Verdict>, env: Env): set<Node>
  {
    match Covering(v)
    case Some(healthy) => if healthy in env.dead && env.encoded && env.logged then {Other(healthy)} else {}
    case None => {}
  }

  /** The reply once a binlog request has completed: a refused one falls back to the local log. */
  function BinlogReply(status: nat, version: Option<int>, env: Env): Action
  {
    if status == OK then Respond(if env.marked then OK else NOT_FOUND, version, env) else LocalLog(version, env)
  }

  function BinlogLogged(status: nat, v: seq<Verdict>, env: Env): set<Node>
  {
    match Covering(v)
    case Some(healthy) => if status != OK && env.encoded && env.logged then {Other(healthy)} else {}
    case None => {}
  }

  datatype State = Master1 | Master2 | Binlog

  /** The context of one write and the handlers that advance it. */
  class WriteContext {
    const code: nat
    var state: State
    var peer: Node
    var errorCount: nat
    var skipErrorCount: nat
    var errorPeer: Option<Node>
    var healthPeer: Option<Node>
    var version: Option<int>
    /** The masters named by records in the local log. */
    var log: set<Node>
    ghost var verdicts: seq<Verdict>

    ghost predicate Tallied()
      reads this
    {
      && |verdicts| == 2
      && errorCount == Count(verdicts, Failed) && skipErrorCount == Count(verdicts, Skipped)
      && (errorPeer.Some? <==> Failed in verdicts) && (errorPeer.Some? ==> verdicts[errorPeer.value] == Failed)
      && (healthPeer.Some? <==> Accepted in verdicts) && (healthPeer.Some? ==> verdicts[healthPeer.value] == Accepted)
    }

    ghost predicate Valid()
      reads this
    {
      && Tallied()
      && match state
         case Master1 => peer == 0 && verdicts == [Pending, Pending]
         case Master2 => peer == 1 && verdicts[0] != Pending && verdicts[1] == Pending
         case Binlog => Covering(verdicts).Some?
    }

    /** `hustdb_ha_init_write_args`, which fails exactly when both masters are down. */
    constructor (code: nat, env: Env)
      ensures Tallied() && log == {} && version == None && this.code == code
      ensures 0 !in env.dead ==> state == Master1 && peer == 0 && verdicts == [Pending, Pending]
      ensures 0 in env.dead ==> state == Master2 && peer == 1 && verdicts == [Failed, Pending]
    {
      this.code := code;
      log, version, healthPeer, skipErrorCount := {}, None, None, 0;
      if 0 in env.dead {
        errorCount, errorPeer, peer, state := 1, Some(0), 1, Master2;
        verdicts := [Failed, Pending];
      } else {
        errorCount, errorPeer, peer, state := 0, None, 0, Master1;
        verdicts := [Pending, Pending];
      }
    }

    /** `__update_error`. */
    method UpdateError(status: nat)
      requires Tallied() && verdicts[peer] == Pending
      modifies `errorCount, `skipErrorCount, `errorPeer, `healthPeer, `verdicts
      ensures Tallied() && verdicts == old(verdicts)[peer := VerdictOf(code, status)]
    {
      ghost var before := verdicts;
      verdicts := verdicts[peer := VerdictOf(code, status)];
      assert verdicts[Other(peer)] == before[Other(peer)];
      if status == OK {
        healthPeer := Some(peer);
        return;
      }
      if SkipError(code, status) {
        skipErrorCount := skipErrorCount + 1;
        return;
      }
      errorCount := errorCount + 1;
      errorPeer := Some(peer);
    }

    /** `hustdb_ha_write_sync_data`: the record may reach the log although the reply is an error. */
    method WriteSyncData(env: Env) returns (a: Action)
      requires errorPeer.Some?
      modifies `log
      ensures a == LocalLog(version, env)
      ensures log == old(log) + if env.encoded && env.logged then {errorPeer.value} else {}
    {
      if !env.encoded {
        return Respond(NOT_FOUND, version, env);
      }
      if !env.logged {
        return Respond(NOT_FOUND, version, env);
      }
      log := log + {errorPeer.value};
      if !env.marked {
        return Respond(NOT_FOUND, version, env);
      }
      a := Respond(OK, version, env);
    }

    /** `hustdb_ha_write_binlog`: reached only with one master that took the write and another that did
        not, so both pointers it follows are set and name different masters. */
    method WriteBinlog(env: Env) returns (a: Action)
      requires Tallied() && Covering(verdicts).Some?
      modifies `state, `log
      ensures Tallied() && healthPeer == Covering(verdicts) && errorPeer == Some(Other(healthPeer.value))
      ensures a == Decide(verdicts, version, env) && log == old(log) + Logged(verdicts, env)
      ensures a.Ask? ==> state == Binlog
    {
      if healthPeer.value in env.dead {
        a := WriteSyncData(env);
        return;
      }
      state := Binlog;
      a := Start(healthPeer.value, true, env);
    }

    /** `__post_write_data`. */
    method PostWriteData(env: Env) returns (a: Action)
      requires Tallied() && Pending !in verdicts
      modifies `state, `log
      ensures Tallied() && a == Decide(verdicts, version, env) && log == old(log) + Logged(verdicts, env)
      ensures a.Ask? ==> Valid() && state == Binlog
    {
      CountsTell(verdicts);
      if skipErrorCount == 0 && errorCount == 1 {
        a := WriteBinlog(env);
        return;
      }
      if skipErrorCount == 0 && errorCount == 0 {
        return Respond(OK, version, env);
      }
      a := Respond(NOT_FOUND, version, env);
    }

    /** `__on_write_master1_complete`. */
    method OnMaster1Complete(status: nat, env: Env) returns (a: Action)
      requires Valid() && state == Master1
      modifies `state, `peer, `errorCount, `skipErrorCount, `errorPeer, `healthPeer, `verdicts, `log
      ensures Tallied() && verdicts == [VerdictOf(code, status), if SecondDown(env) then Failed else Pending]
      ensures a == if SecondDown(env) then Decide(verdicts, version, env) else Start(1, false, env)
      ensures log == if SecondDown(env) then old(log) + Logged(verdicts, env) else old(log)
      ensures a.Ask? ==> Valid() && state == if SecondDown(env) then Binlog else Master2
    {
      hide Decide, Logged, Covering, VerdictOf, Start, Count;
      UpdateError(status);
      peer := 1;
      var alive := 1 !in env.dead;
      if env.debugSync {
        alive := false;
      }
      if alive {
        state := Master2;
        return Start(peer, false, env);
      }
      a := PassOverMaster2(env);
    }

    /** The second half of `__on_write_master1_complete`, for a second master that is down. */
    method PassOverMaster2(env: Env) returns (a: Action)
      requires Tallied() && peer == 1 && verdicts[0] != Pending && verdicts[1] == Pending
      modifies `state, `errorCount, `errorPeer, `verdicts, `log
      ensures Tallied() && verdicts == [old(verdicts[0]), Failed]
      ensures a == Decide(verdicts, version, env) && log == old(log) + Logged(verdicts, env)
      ensures a.Ask? ==> Valid() && state == Binlog
    {
      hide Decide, Logged, Covering, Count;
      SecondFails(verdicts);
      errorCount := errorCount + 1;
      errorPeer := Some(peer);
      verdicts := [verdicts[0], Failed];
      a := PostWriteData(env);
    }

    /** `__on_write_master2_complete`. */
    method OnMaster2Complete(status: nat, env: Env) returns (a: Action)
      requires Valid() && state == Master2
      modifies `state, `errorCount, `skipErrorCount, `errorPeer, `healthPeer, `verdicts, `log
      ensures Tallied() && verdicts == [old(verdicts[0]), VerdictOf(code, status)]
      ensures a == Decide(verdicts, version, env) && log == old(log) + Logged(verdicts, env)
      ensures a.Ask? ==> Valid() && state == Binlog
    {
      UpdateError(status);
      a := PostWriteData(env);
    }

    /** `__on_write_binlog_complete`. */
    method OnBinlogComplete(status: nat, env: Env) returns (a: Action)
      requires Valid() && state == Binlog
      modifies `log
      ensures Tallied() && !a.Ask?
      ensures a == BinlogReply(status, version, env)
      ensures log == old(log) + BinlogLogged(status, verdicts, env)
    {
      if status != OK {
        a := WriteSyncData(env);
        return;
      }
      if !env.marked {
        return Respond(NOT_FOUND, version, env);
      }
      a := Respond(OK, version, env);
    }

    /** The subrequest the protocol is waiting for. */
    ghost function Due(): Action
      requires Valid()
      reads this
    {
      DueIn(state, verdicts)
    }

    /** `__switch_state`. */
    method SwitchState(status: nat, env: Env) returns (a: Action)
      requires Valid()
      modifies `state, `peer, `errorCount, `skipErrorCount, `errorPeer, `healthPeer, `verdicts, `log
      ensures a.Ask? ==> Valid() && a == Due()
      ensures Handled(old(state), old(verdicts), code, status, version, env, a, verdicts, old(log), log)
    {
      hide Decide, Logged, LocalLog, VerdictOf;
      match state {
        case Master1 => a := OnMaster1Complete(status, env);
        case Master2 => a := OnMaster2Complete(status, env);
        case Binlog => a := OnBinlogComplete(status, env);
      }
    }

    /** `hustdb_ha_on_subrequest_complete`: keep the largest version among the successful answers. */
    method OnSubrequestComplete(answer: Answer)
      modifies `version
      ensures version == Newer(old(version), answer)
    {
      if answer.status != OK {
        return;
      }
      if answer.version.Some? {
        if version.None? {
          version := answer.version;
        } else if answer.version.value > version.value {
          version := answer.version;
        }
      }
    }
  }

  predicate SecondDown(env: Env)
  {
    1 in env.dead || env.debugSync
  }

  function Newer(version: Option<int>, answer: Answer): Option<int>
  {
    if answer.status != OK || answer.version.None? then version
    else if version.None? || answer.version.value > version.value then answer.version
    else version
  }

  lemma SecondFails(v: seq<Verdict>)
    requires |v| == 2 && v[1] == Pending
    ensures Count([v[0], Failed], Failed) == Count(v, Failed) + 1
    ensures Count([v[0], Failed], Skipped) == Count(v, Skipped)
    ensures Accepted in [v[0], Failed] <==> Accepted in v
  {}

  lemma CountsTell(v: seq<Verdict>)
    requires |v| == 2 && Pending !in v
    ensures Count(v, Accepted) + Count(v, Skipped) + Count(v, Failed) == 2
    ensures v == [Accepted, Accepted] <==> Count(v, Skipped) == 0 && Count(v, Failed) == 0
    ensures Covering(v).Some? <==> Count(v, Skipped) == 0 && Count(v, Failed) == 1
  {}

  /** What the handler of the state makes of a completed subrequest. */
  predicate Handled(state: State, v: seq<Verdict>, code: nat, status: nat, version: Option<int>, env: Env,
                    a: Action, v': seq<Verdict>, before: set<Node>, log: set<Node>)
  {
    match state
    case Binlog => a == BinlogReply(status, version, env) && v' == v && log == before + BinlogLogged(status, v, env)
    case Master1 =>
      if SecondDown(env) then
        v' == [VerdictOf(code, status), Failed] && a == Decide(v', version, env) && log == before + Logged(v', env)
      else v' == [VerdictOf(code, status), Pending] && a == Start(1, false, env) && log == before
    case Master2 =>
      |v| == 2 && v' == [v[0], VerdictOf(code, status)] && a == Decide(v', version, env)
        && log == before + Logged(v', env)
  }

  function DueIn(state: State, v: seq<Verdict>): Action
    requires state == Binlog ==> Covering(v).Some?
  {
    match state
    case Master1 => Ask(0, false)
    case Master2 => Ask(1, false)
    case Binlog => Ask(Covering(v).value, true)
  }

  // --- whole runs ---

  /** How a whole write went: the subrequests sent, the end, and the masters named in the local log. */
  datatype Run = Run(asked: seq<Action>, result: Action, log: set<Node>)

  /** The largest version among the first `n` answers, for answers that succeeded. */
  function NewestOf(answer: nat -> Answer, n: nat): Option<int>
  {
    if n == 0 then None else Newer(NewestOf(answer, n - 1), answer(n - 1))
  }

  /** The masters asked to write, in order, when every subrequest can be started. */
  function Writes(env: nat -> Env): seq<Action>
  {
    if 0 in env(0).dead then [Ask(1, false)]
    else if SecondDown(env(1)) then [Ask(0, false)]
    else [Ask(0, false), Ask(1, false)]
  }

  function Verdicts(code: nat, answer: nat -> Answer, env: nat -> Env): seq<Verdict>
  {
    var first := VerdictOf(code, answer(0).status);
    if 0 in env(0).dead then [Failed, first]
    else if SecondDown(env(1)) then [first, Failed]
    else [first, VerdictOf(code, answer(1).status)]
  }

  /** A run in one formula: `answer(i)` completes the i-th subrequest, `env(i)` is met by the i-th call. */
  function RunOf(code: nat, posted: bool, answer: nat -> Answer, env: nat -> Env): Run
  {
    if 0 in env(0).dead && 1 in env(0).dead then
      Run([], if posted then Respond(NOT_FOUND, None, env(0)) else Fault, {})
    else if !env(0).started then Run([], Fault, {})
    else if |Writes(env)| == 2 && !env(1).started then Run([Ask(0, false)], Fault, {})
    else
      var n, v := |Writes(env)|, Verdicts(code, answer, env);
      var a := Decide(v, NewestOf(answer, n), env(n));
      if !a.Ask? then Run(Writes(env), a, Logged(v, env(n)))
      else
        Run(Writes(env) + [a], BinlogReply(answer(n).status, NewestOf(answer, n + 1), env(n + 1)),
            BinlogLogged(answer(n).status, v, env(n + 1)))
  }

  /** Both masters are not down at the start, and every write the run needs can be started. */
  predicate Begun(env: nat -> Env)
  {
    && (0 in env(0).dead ==> 1 !in env(0).dead) && env(0).started
    && (|Writes(env)| == 2 ==> env(1).started)
  }

  /** Where a run stands while the subrequest after `asked` is out. */
  predicate Underway(state: State, v: seq<Verdict>, asked: seq<Action>, code: nat, answer: nat -> Answer,
                     env: nat -> Env)
  {
    match state
    case Master1 => asked == [] && 0 !in env(0).dead && env(0).started
    case Master2 => Begun(env) && !(0 !in env(0).dead && SecondDown(env(1)))
      && asked == Writes(env)[..|Writes(env)| - 1]
                    && |v| == 2 && v[0] == Verdicts(code, answer, env)[0]
    case Binlog => Begun(env) && asked == Writes(env) && v == Verdicts(code, answer, env)
                   && Decide(v, NewestOf(answer, |asked|), env(|asked|)).Ask?
  }

  lemma StartTurn(code: nat, posted: bool, answer: nat -> Answer, env: nat -> Env)
    requires 0 in env(0).dead ==> 1 !in env(0).dead
    ensures !env(0).started ==> Run([], Fault, {}) == RunOf(code, posted, answer, env)
    ensures env(0).started && 0 in env(0).dead ==> Underway(Master2, [Failed, Pending], [], code, answer, env)
    ensures env(0).started && 0 !in env(0).dead ==> Underway(Master1, [Pending, Pending], [], code, answer, env)
  {}

  lemma Master1Turn(v: seq<Verdict>, asked: seq<Action>, code: nat, posted: bool, answer: nat -> Answer,
                    env: nat -> Env)
    requires Underway(Master1, v, asked, code, answer, env)
    ensures asked == []
    ensures var v0, a := VerdictOf(code, answer(0).status), Start(1, false, env(1));
      if SecondDown(env(1)) then Begun(env) && [Ask(0, false)] == Writes(env)
        && [v0, Failed] == Verdicts(code, answer, env)
      else if a.Ask? then Underway(Master2, [v0, Pending], [Ask(0, false)], code, answer, env)
      else Run([Ask(0, false)], a, {}) == RunOf(code, posted, answer, env)
  {}

  lemma Master2Turn(v: seq<Verdict>, asked: seq<Action>, code: nat, answer: nat -> Answer, env: nat -> Env)
    requires Underway(Master2, v, asked, code, answer, env)
    ensures Begun(env) && asked + [Ask(1, false)] == Writes(env)
    ensures [v[0], VerdictOf(code, answer(|asked|).status)] == Verdicts(code, answer, env)
  {}

  lemma DecideTurn(code: nat, posted: bool, answer: nat -> Answer, env: nat -> Env)
    requires Begun(env)
    ensures var n, v := |Writes(env)|, Verdicts(code, answer, env);
      var a := Decide(v, NewestOf(answer, n), env(n));
      if a.Ask? then Underway(Binlog, v, Writes(env), code, answer, env)
      else Run(Writes(env), a, Logged(v, env(n))) == RunOf(code, posted, answer, env)
  {}

  lemma BinlogTurn(v: seq<Verdict>, asked: seq<Action>, code: nat, posted: bool, answer: nat -> Answer, env: nat -> Env)
    requires Underway(Binlog, v, asked, code, answer, env)
    ensures var n := |asked|; var e, version := env(n + 1), NewestOf(answer, n + 1);
      Covering(v).Some?
      && RunOf(code, posted, answer, env) == Run(
        asked + [Ask(Covering(v).value, true)], BinlogReply(answer(n).status, version, e),
          BinlogLogged(answer(n).status, v, e))
  {}

  lemma NeverBegun(code: nat, posted: bool, answer: nat -> Answer, env: nat -> Env)
    requires 0 in env(0).dead && 1 in env(0).dead
    ensures RunOf(code, posted, answer, env) == Run([], if posted then Respond(NOT_FOUND, None, env(0)) else Fault, {})
  {}

  lemma NothingPlus(s: set<Node>)
    ensures {} + s == s
  {}

  lemma AskLogsNothing(v: seq<Verdict>, version: Option<int>, env: Env)
    requires Decide(v, version, env).Ask?
    ensures Logged(v, env) == {}
  {}

  function Rank(state: State): nat
  {
    match state case Master1 => 2 case Master2 => 1 case Binlog => 0
  }

  /** A handled subrequest takes the run one turn further. */
  lemma Turned(state: State, v: seq<Verdict>, asked: seq<Action>, code: nat, posted: bool, answer: nat -> Answer,
               env: nat -> Env, a: Action, v': seq<Verdict>, log: set<Node>)
    requires state == Binlog ==> Covering(v).Some?
    requires Underway(state, v, asked, code, answer, env)
    requires Handled(state, v, code, answer(|asked|).status, NewestOf(answer, |asked| + 1), env(|asked| + 1), a, v', {},
                     log)
    ensures !a.Ask? ==> Run(asked + [DueIn(state, v)], a, log) == RunOf(code, posted, answer, env)
    ensures a.Ask? ==>
      && log == {} && state != Binlog
      && Underway(if a.binlog then Binlog else Master2, v', asked + [DueIn(state, v)], code, answer, env)
      && (!a.binlog ==> state == Master1 && a.node == 1)
  {
    hide RunOf, Underway, Decide, Logged, LocalLog, BinlogReply, BinlogLogged, VerdictOf, Begun, Verdicts, Writes,
         SecondDown, Start, Respond;
    NothingPlus(log);
    match state {
      case Binlog =>
        BinlogTurn(v, asked, code, posted, answer, env);
        NothingPlus(BinlogLogged(answer(|asked|).status, v, env(|asked| + 1)));
        BinlogEnds(answer(|asked|).status, NewestOf(answer, |asked| + 1), env(|asked| + 1));
      case Master1 =>
        Master1Turn(v, asked, code, posted, answer, env);
        assert asked + [Ask(0, false)] == [Ask(0, false)];
        if SecondDown(env(1)) { DecidedTurn(asked, code, posted, answer, env, a, v', log); }
      case Master2 =>
        Master2Turn(v, asked, code, answer, env);
        DecidedTurn(asked, code, posted, answer, env, a, v', log);
    }
  }

  lemma BinlogEnds(status: nat, version: Option<int>, env: Env)
    ensures !BinlogReply(status, version, env).Ask?
  {}

  lemma DecidedTurn(asked: seq<Action>, code: nat, posted: bool, answer: nat -> Answer, env: nat -> Env,
                    a: Action, v': seq<Verdict>, log: set<Node>)
    requires Begun(env) && |Writes(env)| == |asked| + 1 && v' == Verdicts(code, answer, env)
    requires a == Decide(v', NewestOf(answer, |asked| + 1), env(|asked| + 1))
    requires log == {} + Logged(v', env(|asked| + 1))
    ensures !a.Ask? ==> Run(Writes(env), a, log) == RunOf(code, posted, answer, env)
    ensures a.Ask? ==> a.binlog && log == {} && Underway(Binlog, v', Writes(env), code, answer, env)
  {
    hide RunOf, Underway, Decide, Logged, Begun, Verdicts, Writes;
    DecideTurn(code, posted, answer, env);
    NothingPlus(Logged(v', env(|asked| + 1)));
    if a.Ask? { AskLogsNothing(v', NewestOf(answer, |asked| + 1), env(|asked| + 1)); }
  }

  /** The subrequest that is out completes, and the handler runs again. */
  method Complete(w: WriteContext, asked: seq<Action>, posted: bool, answer: nat -> Answer, env: nat -> Env)
    returns (a: Action)
    requires w.Valid() && w.log == {} && w.version == NewestOf(answer, |asked|)
    requires Underway(w.state, w.verdicts, asked, w.code, answer, env)
    modifies w
    ensures w.version == NewestOf(answer, |asked| + 1)
    ensures a.Ask? ==> w.Valid() && w.log == {} && a == w.Due() && Rank(w.state) < Rank(old(w.state))
                       && Underway(w.state, w.verdicts, asked + [old(w.Due())], w.code, answer, env)
    ensures !a.Ask? ==> Run(asked + [old(w.Due())], a, w.log) == RunOf(w.code, posted, answer, env)
  {
    hide RunOf, Underway, Decide, Logged, LocalLog, BinlogReply, BinlogLogged, Covering, VerdictOf, Newer, Begun,
         Verdicts, Writes, SecondDown, Start, Respond, Handled;
    ghost var state, v := w.state, w.verdicts;
    w.OnSubrequestComplete(answer(|asked|));
    a := w.SwitchState(answer(|asked|).status, env(|asked| + 1));
    Turned(state, v, asked, w.code, posted, answer, env, a, w.verdicts, w.log);
  }

  /** Start a write and feed every completed subrequest back to the handler until it replies. */
  method Serve(code: nat, posted: bool, answer: nat -> Answer, env: nat -> Env) returns (run: Run)
    ensures run == RunOf(code, posted, answer, env)
  {
    hide RunOf, Underway;
    var w := new WriteContext(code, env(0));
    if w.peer == 1 && 1 in env(0).dead {
      NeverBegun(code, posted, answer, env);
      return Run([], if posted then Respond(NOT_FOUND, None, env(0)) else Fault, {});
    }
    var asked: seq<Action> := [];
    var a := Start(w.peer, false, env(0));
    StartTurn(code, posted, answer, env);
    while a.Ask?
      invariant fresh(w) && w.code == code && w.version == NewestOf(answer, |asked|)
      invariant a.Ask? ==> w.Valid() && a == w.Due() && w.log == {}
      invariant a.Ask? ==> Underway(w.state, w.verdicts, asked, code, answer, env)
      invariant !a.Ask? ==> Run(asked, a, w.log) == RunOf(code, posted, answer, env)
      decreases a.Ask?, Rank(w.state)
    {
      var next := Complete(w, asked, posted, answer, env);
      asked := asked + [a];
      a := next;
    }
    run := Run(asked, a, w.log);
  }

  // --- what every run keeps ---

  predicate AcceptedBy(n: Node, asked: seq<Action>, answer: nat -> Answer)
  {
    exists i :: 0 <= i < |asked| && asked[i] == Ask(n, false) && answer(i).status == OK
  }

  /** The other master's binlog or the local log holds a record for `n`. */
  predicate Recorded(n: Node, run: Run, answer: nat -> Answer)
  {
    n in run.log || exists i :: 0 <= i < |run.asked| && run.asked[i] == Ask(Other(n), true) && answer(i).status == OK
  }

  lemma WhoAccepted(code: nat, answer: nat -> Answer, env: nat -> Env, n: Node)
    ensures AcceptedBy(n, Writes(env), answer) <==> Verdicts(code, answer, env)[n] == Accepted
  {}

  lemma BinlogIsNoWrite(asked: seq<Action>, healthy: Node, answer: nat -> Answer, n: Node)
    ensures AcceptedBy(n, asked + [Ask(healthy, true)], answer) <==> AcceptedBy(n, asked, answer)
  {}

  lemma RecordedWhere(run: Run, writes: seq<Action>, answer: nat -> Answer, n: Node)
    requires forall i :: 0 <= i < |writes| ==> writes[i].Ask? && !writes[i].binlog
    ensures run.asked == writes ==> (Recorded(n, run, answer) <==> n in run.log)
    ensures run.asked == writes + [Ask(Other(n), true)] ==>
      (Recorded(n, run, answer) <==> n in run.log || answer(|writes|).status == OK)
    ensures run.asked == writes + [Ask(n, true)] ==> (Recorded(n, run, answer) <==> n in run.log)
  {}

  /** At most three subrequests: the masters in order, each at most once, then at most one binlog request,
      sent to a master that took the write for one that did not. */
  lemma AtMostThree(code: nat, posted: bool, answer: nat -> Answer, env: nat -> Env)
    ensures var run := RunOf(code, posted, answer, env);
      && |run.asked| <= 3 && !run.result.Ask?
      && (forall i :: 0 <= i < |run.asked| ==> run.asked[i].Ask?)
      && (forall i, j :: 0 <= i < j < |run.asked| ==>
            !run.asked[i].binlog && (!run.asked[j].binlog ==> run.asked[i].node < run.asked[j].node))
      && (forall i :: 0 <= i < |run.asked| && run.asked[i].binlog ==>
            AcceptedBy(run.asked[i].node, run.asked, answer)
              && !AcceptedBy(Other(run.asked[i].node), run.asked, answer))
      && (forall n: Node :: n in run.log ==>
            AcceptedBy(Other(n), run.asked, answer) && !AcceptedBy(n, run.asked, answer))
  {
    hide AcceptedBy;
    var run := RunOf(code, posted, answer, env);
    WhoAccepted(code, answer, env, 0);
    WhoAccepted(code, answer, env, 1);
    if |run.asked| > |Writes(env)| {
      BinlogIsNoWrite(Writes(env), run.asked[|Writes(env)|].node, answer, 0);
      BinlogIsNoWrite(Writes(env), run.asked[|Writes(env)|].node, answer, 1);
    }
  }

  /** A write is acknowledged exactly when both masters took it, or one did and a record naming the
      other was stored and announced; the version returned is the newest reported. */
  lemma AcknowledgedExactly(code: nat, posted: bool, answer: nat -> Answer, env: nat -> Env)
    ensures var run := RunOf(code, posted, answer, env); var last := env(|run.asked|);
      && (run.result.Reply? && run.result.status == OK <==>
            && last.versioned
            && (|| (AcceptedBy(0, run.asked, answer) && AcceptedBy(1, run.asked, answer))
                || (last.marked
                    && exists n: Node :: AcceptedBy(n, run.asked, answer) && Recorded(Other(n), run, answer))))
      && (run.result.Reply? && run.result.status == OK ==> run.result.version == NewestOf(answer, |run.asked|))
  {
    hide AcceptedBy, Recorded;
    var run, writes := RunOf(code, posted, answer, env), Writes(env);
    WhoAccepted(code, answer, env, 0);
    WhoAccepted(code, answer, env, 1);
    RecordedWhere(run, writes, answer, 0);
    RecordedWhere(run, writes, answer, 1);
    if |run.asked| > |writes| {
      BinlogIsNoWrite(writes, run.asked[|writes|].node, answer, 0);
      BinlogIsNoWrite(writes, run.asked[|writes|].node, answer, 1);
    } else if |run.asked| < |writes| {
      CutShort(run, answer);
    }
  }

  lemma CutShort(run: Run, answer: nat -> Answer)
    requires run.asked <= [Ask(0, false)] && run.log == {}
    ensures !AcceptedBy(1, run.asked, answer) && !Recorded(0, run, answer) && !Recorded(1, run, answer)
  {}

  /** The version kept is the largest reported by a successful answer, if any reported one. */
  lemma {:induction false} NewestIsLargest(answer: nat -> Answer, n: nat)
    ensures NewestOf(answer, n) == None <==>
      forall i: nat :: i < n && answer(i).status == OK ==> answer(i).version == None
    ensures NewestOf(answer, n).Some? ==>
      && (exists i: nat :: i < n && answer(i).status == OK && answer(i).version == NewestOf(answer, n))
      && forall i: nat :: i < n && answer(i).status == OK && answer(i).version.Some? ==>
        answer(i).version.value <= NewestOf(answer, n).value
  {
    if n > 0 { NewestIsLargest(answer, n - 1); }
  }

  datatype Outcome = Done | DoneAndLogged | NotFound

  /** The decision table written above `__post_write_data`. */
  function Documented(skips: nat, errors: nat): Outcome
  {
    if errors == 0 && skips <= 1 then Done else if errors == 1 && skips == 0 then DoneAndLogged else NotFound
  }

  /** Nothing but masters fails: subrequests start, records are stored, headers are added. */
  predicate Reliable(env: nat -> Env)
  {
    forall i: nat :: i <= 3 ==> env(i).started && env(i).encoded && env(i).logged && env(i).marked && env(i).versioned
  }

  /** What became of a write at both masters, also if both are down at the start. */
  function Settled(code: nat, answer: nat -> Answer, env: nat -> Env): (v: seq<Verdict>)
    ensures |v| == 2 && Pending !in v
  {
    if 0 in env(0).dead && 1 in env(0).dead then [Failed, Failed] else Verdicts(code, answer, env)
  }

  /** As long as nothing but masters fails, a run of the handlers replies 200 as the documented table says,
      except for exactly one case: one skipped answer beside a success, reported as not found. */
  lemma TableDeviation(code: nat, posted: bool, answer: nat -> Answer, env: nat -> Env)
    requires Reliable(env)
    ensures var v := Settled(code, answer, env); var skips, errors := Count(v, Skipped), Count(v, Failed);
      var result := RunOf(code, posted, answer, env).result;
      && ((result.Reply? && result.status == OK <==> Documented(skips, errors) != NotFound) <==>
          !(skips == 1 && errors == 0))
      && (skips == 1 && errors == 0 ==> result == Reply(NOT_FOUND, Some(0)))
  {
    hide Count, RunOf, Settled, Covering;
    var v := Settled(code, answer, env);
    ReliableOutcome(code, posted, answer, env);
    CountsTell(v);
  }

  /** With nothing else failing the verdicts decide. */
  lemma ReliableOutcome(code: nat, posted: bool, answer: nat -> Answer, env: nat -> Env)
    requires Reliable(env)
    ensures var v := Settled(code, answer, env); var result := RunOf(code, posted, answer, env).result;
      if v == [Accepted, Accepted] || Covering(v).Some? then result.Reply? && result.status == OK
      else result == Reply(NOT_FOUND, Some(0)) || (v == [Failed, Failed] && result == Fault)
  {
    hide NewestOf, VerdictOf;
  }

  /** The deviation on real input: both masters are up, one deletes the key, the other never had it. */
  lemma DeleteAnsweredNotFound(answer: nat -> Answer, env: nat -> Env)
    requires Reliable(env) && env(0).dead == {} && env(1).dead == {} && !env(1).debugSync
    requires answer(0).status == OK && answer(1).status == NOT_FOUND
    ensures RunOf(DEL, false, answer, env) == Run([Ask(0, false), Ask(1, false)], Reply(NOT_FOUND, Some(0)), {})
    ensures Documented(Count(Settled(DEL, answer, env), Skipped), Count(Settled(DEL, answer, env), Failed)) == Done
  {}

  /** With both masters up and nothing else failing, the two answers alone decide a write. Answers other
      than 200 are told apart by method code: 404 on the removing methods (codes 2, 4, 6 and 8) and 412 on
      every method from code 2 to 8 call for no record and make the reply 404; any other one beside a 200
      leads to a third subrequest, a stored record naming the master that gave it, and the reply 200. */
  lemma AnswersDecide(code: nat, posted: bool, answer: nat -> Answer, env: nat -> Env, good: Node)
    requires Reliable(env) && forall i: nat :: i <= 3 ==> env(i).dead == {} && !env(i).debugSync
    ensures var run, s := RunOf(code, posted, answer, env), answer(1 - good).status;
      var masters := [Ask(0, false), Ask(1, false)];
      var excused := (s == 404 && (code == 2 || code == 4 || code == 6 || code == 8)) || (s == 412 && 2 <= code <= 8);
      if answer(good).status != 200 then
        s != 200 ==> run == Run(masters, Reply(404, Some(0)), {})
      else if s == 200 then
        run == Run(masters, Reply(200, NewestOf(answer, 2)), {})
      else if excused then
        run == Run(masters, Reply(404, Some(0)), {})
      else
        && run.asked == masters + [Ask(good, true)]
        && run.result == Reply(200, NewestOf(answer, 3)) && Recorded(1 - good, run, answer)
        && run.log == if answer(2).status == 200 then {} else {1 - good}
  {
    assert env(0).dead == {} && env(1).dead == {} && env(2).dead == {} && env(3).dead == {};
  }

  /** No subrequest is ever sent to a master the health checks report down at that moment. */
  lemma NeverAsksDown(code: nat, posted: bool, answer: nat -> Answer, env: nat -> Env)
    ensures var asked := RunOf(code, posted, answer, env).asked;
      forall i :: 0 <= i < |asked| && asked[i].Ask? ==> asked[i].node !in env(i).dead
  {
    hide VerdictOf, NewestOf;
  }

  /** With one master down all along and nothing else failing, the other one is asked alone: if it takes the
      write, a record naming the one that is down is stored and the reply is 200; otherwise it is 404. */
  lemma OneDown(code: nat, posted: bool, answer: nat -> Answer, env: nat -> Env, down: Node)
    requires Reliable(env) && forall i: nat :: i <= 3 ==> env(i).dead == {down} && !env(i).debugSync
    ensures var run, up := RunOf(code, posted, answer, env), 1 - down;
      if answer(0).status == 200 then
        && run.asked == [Ask(up, false), Ask(up, true)]
        && run.result == Reply(200, NewestOf(answer, 2)) && Recorded(down, run, answer)
        && run.log == if answer(1).status == 200 then {} else {down}
      else run == Run([Ask(up, false)], Reply(404, Some(0)), {})
  {
    hide NewestOf;
    assert env(0).dead == {down} && env(1).dead == {down} && env(2).dead == {down};
  }
}
