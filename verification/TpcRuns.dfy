/**
 Whole runs of two-phase commit: one master, any number of slaves, one transaction at a
 time.  Slaves may restart between any two steps and crash inside the handler of any
 message, votes may be lost, decisions may be repeated, and every file operation of a slave
 may fail.  A step without a defined outcome ends a run.
 */
module TpcRuns {
  import opened KvStore
  import opened Tpc

  /** Where tpcmaster_handle_tpc stands; `next` is the slave it talks to. */
  datatype Master =
    | Idle
    | Voting(req: Request, next: nat, abort: bool)
    | Deciding(req: Request, next: nat, abort: bool)

  /** `committed` lists the requests of all transactions decided as commits. */
  datatype System = System(slaves: seq<Slave>, master: Master, committed: seq<Request>)

  function Decision(abort: bool): Message { if abort then Abort else Commit }

  // ----- the steps -----

  /**
   The next slave answers the request, and the master hears it or not; the request does not
   reach it; or it crashes while it handles the request, comes back and has not answered.
   The next slave handles the decision, and without its acknowledgement the master asks
   again; or it crashes while it handles the decision and comes back.  Slave `j` restarts
   between two messages.
   */
  datatype Action =
    | Begin(req: Request)
    | Vote(env: Env, heard: bool)
    | Silent
    | CrashInVote(env: Env, p: Point, u: Update)
    | Decide
    | Deliver(env: Env, acked: bool)
    | CrashInDelivery(env: Env, p: Point, u: Update)
    | RestartOf(j: nat, u: Update)
    | Finish

  predicate InVoting(a: System) { a.master.Voting? && a.master.next < |a.slaves| }

  predicate InDelivery(a: System) { a.master.Deciding? && a.master.next < |a.slaves| }

  /** The slave that the master talks to, and what it says. */
  function Current(a: System): Slave
    requires InVoting(a) || InDelivery(a)
  {
    a.slaves[a.master.next]
  }

  function Sent(a: System): Message
    requires InVoting(a) || InDelivery(a)
  {
    if a.master.Voting? then Ask(a.master.req) else Decision(a.master.abort)
  }

  /** The action can happen now and has a defined outcome. */
  predicate Enabled(a: System, act: Action) {
    match act
    case Begin(_) => a.master.Idle?
    case Vote(_, _) => InVoting(a)
    case Silent => InVoting(a)
    case CrashInVote(env, p, u) => InVoting(a) && Recover(Current(a), Sent(a), env, p, u).Back?
    case Decide => a.master.Voting? && a.master.next == |a.slaves|
    case Deliver(env, _) => InDelivery(a) && !Handle(Current(a), Sent(a), env).1.Undefined?
    case CrashInDelivery(env, p, u) => InDelivery(a) && Recover(Current(a), Sent(a), env, p, u).Back?
    case RestartOf(j, u) => j < |a.slaves| && Restarted(a.slaves[j], u).Back?
    case Finish => a.master.Deciding? && a.master.next == |a.slaves|
  }

  function Restarted(s: Slave, u: Update): Recovered { Rebuild(s.log, s.store, u) }

  function After(a: System, act: Action): System
    requires Enabled(a, act)
  {
    match act
    case Begin(r) => a.(master := Voting(r, 0, false))
    case Vote(env, heard) =>
      var (s, answer) := Handle(Current(a), Sent(a), env);
      Polled(a, s, heard && answer.VoteAbort?)
    case Silent => Polled(a, Current(a), false)
    case CrashInVote(env, p, u) => Polled(a, Recover(Current(a), Sent(a), env, p, u).slave, false)
    case Decide =>
      var Voting(r, _, abort) := a.master;
      a.(master := Deciding(r, 0, abort), committed := if abort then a.committed else a.committed + [r])
    case Deliver(env, acked) => Told(a, Handle(Current(a), Sent(a), env).0, acked)
    case CrashInDelivery(env, p, u) => Told(a, Recover(Current(a), Sent(a), env, p, u).slave, false)
    case RestartOf(j, u) => a.(slaves := a.slaves[j := Restarted(a.slaves[j], u).slave])
    case Finish => a.(master := Idle)
  }

  /** The next slave has become `s`; the master goes on to the one after it. */
  function Polled(a: System, s: Slave, refused: bool): System
    requires InVoting(a)
  {
    var Voting(r, i, abort) := a.master;
    a.(slaves := a.slaves[i := s], master := Voting(r, i + 1, abort || refused))
  }

  /** The next slave has become `s`; the master goes on if it has heard the acknowledgement. */
  function Told(a: System, s: Slave, acked: bool): System
    requires InDelivery(a)
  {
    var Deciding(r, i, abort) := a.master;
    a.(slaves := a.slaves[i := s], master := if acked then Deciding(r, i + 1, abort) else a.master)
  }

  // ----- what holds in every reachable state -----

  /** The slave has this store and does not lose it in a restart. */
  ghost predicate Keeps(s: Slave, store: Contents) {
    && s.store == store
    && (s.log != [] && Last(s.log).CommitRec? ==> Confirms(s.log, store))
  }

  /** If the last request of the log can be executed, the store has it. */
  ghost predicate Confirms(log: seq<Record>, store: Contents) {
    var r := LastReq(log);
    r.Req? && !Breaks(r.req) ==> Apply(store, r.req) == store
  }

  /** The store before the open transaction. */
  ghost function Base(sys: System, init: Contents): Contents {
    if sys.master.Deciding? && !sys.master.abort && sys.committed != []
    then ApplyAll(init, sys.committed[..|sys.committed| - 1])
    else ApplyAll(init, sys.committed)
  }

  /** The store with all committed requests. */
  ghost function Goal(sys: System, init: Contents): Contents { ApplyAll(init, sys.committed) }

  ghost predicate Inv(sys: System, init: Contents) {
    var base, goal, n := Base(sys, init), Goal(sys, init), |sys.slaves|;
    match sys.master
    case Idle => forall j :: 0 <= j < n ==> Keeps(sys.slaves[j], base)
    case Voting(r, i, abort) => i <= n && forall j :: 0 <= j < n ==> Keeps(sys.slaves[j], base)
    case Deciding(r, i, abort) =>
      && i <= n
      && (forall j :: 0 <= j < i ==> Keeps(sys.slaves[j], goal))
      && (forall j :: i < j < n ==> Keeps(sys.slaves[j], base))
      && (i < n ==> Keeps(sys.slaves[i], base) || Keeps(sys.slaves[i], goal))
      && (!abort ==> sys.committed != [] && sys.committed[|sys.committed| - 1] == r)
  }

  /** In a commit, the goal is the base with the request, and so is either of them with the request. */
  lemma GoalIsApplied(a: System, init: Contents, s: Contents)
    requires Inv(a, init) && a.master.Deciding? && !a.master.abort && s in {Base(a, init), Goal(a, init)}
    ensures Goal(a, init) == Apply(Base(a, init), a.master.req) == Apply(s, a.master.req)
  {
    ApplyTwice(Base(a, init), a.master.req);
  }

  // ----- which steps break it -----

  /** The store that a commit leaves is neither the goal nor, as long as it is not acknowledged, the base. */
  ghost predicate Strays(a: System, init: Contents, store: Contents, acked: bool) {
    store != Goal(a, init) && (acked || store != Base(a, init))
  }

  /**
   The slave that handles a commit executes the request its log ends with, if it can update
   its store.  That goes wrong if it does not give the store it should, or if the record
   confirms a request that the store does not have.
   */
  ghost predicate CommitSpoils(a: System, init: Contents, env: Env, acked: bool)
    requires InDelivery(a) && Current(a).log != []
  {
    var s := Current(a);
    || Strays(a, init, StoreAfter(s, env), acked)
    || (env.dir && env.log.Written? && !Confirms(s.log, StoreAfter(s, env)))
  }

  /** The same if it crashes and the rebuild repeats the last request behind a record of the commit. */
  ghost predicate CrashSpoils(a: System, init: Contents, env: Env, p: Point, u: Update)
    requires InDelivery(a)
  {
    var s := Current(a);
    var store := StoreAt(s, Commit, env, p);
    if Recorded(s, Commit, env, p) && LastReq(s.log).Req? then
      if u.Made? then Strays(a, init, Apply(store, LastReq(s.log).req), false)
      else Strays(a, init, store, false) || !Confirms(s.log, store)
    else Strays(a, init, store, false)
  }

  ghost predicate Spoils(a: System, init: Contents, act: Action) {
    && InDelivery(a) && !a.master.abort && Current(a).log != []
    && match act
       case Deliver(env, acked) => CommitSpoils(a, init, env, acked)
       case CrashInDelivery(env, p, u) => CrashSpoils(a, init, env, p, u)
       case _ => false
  }

  // ----- single slaves -----

  lemma RestartKeeps(s: Slave, store: Contents, u: Update)
    requires Keeps(s, store) && Restarted(s, u).Back?
    ensures Keeps(Restarted(s, u).slave, store)
  {
    hide Apply, LastReq, Breaks;
  }

  /** A request, an abort and a crash in either change no store. */
  lemma OthersKeep(s: Slave, store: Contents, m: Message, env: Env)
    requires Keeps(s, store) && !m.Commit?
    ensures Keeps(Handle(s, m, env).0, store)
  {
    hide Apply, LastReq, Breaks;
    assert Logged(s.log, RecordOf(m), env) != s.log ==> !Last(Logged(s.log, RecordOf(m), env)).CommitRec?;
  }

  lemma OthersKeepInCrash(s: Slave, store: Contents, m: Message, env: Env, p: Point, u: Update)
    requires Keeps(s, store) && !m.Commit? && Recover(s, m, env, p, u).Back?
    ensures Keeps(Recover(s, m, env, p, u).slave, store)
  {
    hide Apply, LastReq, Breaks;
    if Begun(s, m, env, p) {
      assert !Last(LogAt(s, m, env, p)).CommitRec?;
    } else {
      RestartKeeps(s, store, u);
    }
  }

  /** What a slave has and keeps after a commit. */
  lemma CommitKeeps(s: Slave, env: Env, store: Contents)
    requires Keeps(s, s.store) && Executable(s, env)
    ensures Keeps(Handle(s, Commit, env).0, store) <==>
            store == StoreAfter(s, env) && (env.dir && env.log.Written? ==> Confirms(s.log, store))
  {
    hide Apply, LastReq, Breaks;
    LastReqSnoc(s.log, CommitRec);
    if env.log.Written? {
      assert Last(s.log + [CommitRec]) == CommitRec;
    } else if env.log.Unwritten? {
      assert Last(s.log + [Torn]) == Torn;
    }
  }

  /** And after a crash in it. */
  lemma CrashKeeps(s: Slave, env: Env, p: Point, u: Update, store: Contents)
    requires Keeps(s, s.store) && Recover(s, Commit, env, p, u).Back?
    ensures Recorded(s, Commit, env, p) ==> LastReq(s.log).Req?
    ensures Keeps(Recover(s, Commit, env, p, u).slave, store) <==>
      var t := StoreAt(s, Commit, env, p);
      if Recorded(s, Commit, env, p) then
        if u.Made? then store == Apply(t, LastReq(s.log).req) else store == t && Confirms(s.log, t)
      else store == t
  {
    hide Apply, LastReq, Breaks, Opens;
    var log, t := LogAt(s, Commit, env, p), StoreAt(s, Commit, env, p);
    if Recorded(s, Commit, env, p) {
      LastReqSnoc(s.log, CommitRec);
      assert Last(log) == CommitRec;
      ApplyTwice(t, LastReq(s.log).req);
    } else if Begun(s, Commit, env, p) {
      TornIsLost(s.log, t, u);
      assert false;
    }
  }

  // ----- every step -----

  lemma VoteKeepsInv(a: System, init: Contents, act: Action)
    requires Inv(a, init) && Enabled(a, act) && (act.Vote? || act.Silent? || act.CrashInVote?)
    ensures Inv(After(a, act), init)
  {
    hide Keeps, Handle, Recover;
    match act
    case Vote(env, heard) => OthersKeep(Current(a), Base(a, init), Sent(a), env);
    case Silent =>
    case CrashInVote(env, p, u) => OthersKeepInCrash(Current(a), Base(a, init), Sent(a), env, p, u);
  }

  lemma DecideKeepsInv(a: System, init: Contents)
    requires Inv(a, init) && Enabled(a, Decide)
    ensures Inv(After(a, Decide), init)
  {
    hide Keeps;
    var b := After(a, Decide);
    if !a.master.abort {
      assert b.committed[..|b.committed| - 1] == a.committed;
    }
  }

  /** Once slave `next` has become `s`, the invariant is a matter of `s` alone. */
  lemma ToldInv(a: System, init: Contents, s: Slave, acked: bool)
    requires Inv(a, init) && InDelivery(a)
    ensures Inv(Told(a, s, acked), init) <==>
            Keeps(s, Goal(a, init)) || (!acked && Keeps(s, Base(a, init)))
  {
    hide Keeps;
    var b := Told(a, s, acked);
    var i := a.master.next;
    assert b.slaves[i] == s && Base(b, init) == Base(a, init) && Goal(b, init) == Goal(a, init);
    if Inv(b, init) && acked {
      assert i < b.master.next;
    }
  }

  /** The slave that the master talks to has the base or the goal. */
  lemma CurrentKeeps(a: System, init: Contents)
    requires Inv(a, init) && InDelivery(a)
    ensures Keeps(Current(a), Current(a).store) && Current(a).store in {Base(a, init), Goal(a, init)}
    ensures a.master.abort ==> Base(a, init) == Goal(a, init)
  {
  }

  /** A delivery keeps the invariant exactly if it is not one that spoils. */
  lemma DeliverKeepsInv(a: System, init: Contents, env: Env, acked: bool)
    requires Inv(a, init) && Enabled(a, Deliver(env, acked))
    ensures Inv(After(a, Deliver(env, acked)), init) <==> !Spoils(a, init, Deliver(env, acked))
  {
    hide Keeps, Handle, Confirms, Inv;
    var s := Current(a);
    CurrentKeeps(a, init);
    ToldInv(a, init, Handle(s, Sent(a), env).0, acked);
    if a.master.abort {
      OthersKeep(s, s.store, Abort, env);
    } else {
      CommitIsExecutable(s, env);
      CommitKeeps(s, env, Goal(a, init));
      CommitKeeps(s, env, Base(a, init));
    }
  }

  lemma CommitIsExecutable(s: Slave, env: Env)
    requires !Handle(s, Commit, env).1.Undefined?
    ensures Executable(s, env)
  {
  }

  /** And so does a crash in a delivery. */
  lemma CrashKeepsInv(a: System, init: Contents, env: Env, p: Point, u: Update)
    requires Inv(a, init) && Enabled(a, CrashInDelivery(env, p, u))
    ensures Inv(After(a, CrashInDelivery(env, p, u)), init) <==> !Spoils(a, init, CrashInDelivery(env, p, u))
  {
    hide Keeps, Recover, Confirms, Inv, StoreAt, Recorded;
    var s := Current(a);
    CurrentKeeps(a, init);
    ToldInv(a, init, Recover(s, Sent(a), env, p, u).slave, false);
    if a.master.abort {
      OthersKeepInCrash(s, s.store, Abort, env, p, u);
    } else {
      RecoveredFromLog(s, env, p, u);
      CrashKeeps(s, env, p, u, Goal(a, init));
      CrashKeeps(s, env, p, u, Base(a, init));
    }
  }

  lemma RecoveredFromLog(s: Slave, env: Env, p: Point, u: Update)
    requires Recover(s, Commit, env, p, u).Back?
    ensures s.log != []
  {
    if Recorded(s, Commit, env, p) {
      LastReqSnoc(s.log, CommitRec);
      assert Last(LogAt(s, Commit, env, p)) == CommitRec;
    } else if Begun(s, Commit, env, p) {
      TornIsLost(s.log, StoreAt(s, Commit, env, p), u);
    }
  }

  lemma RestartKeepsInv(a: System, init: Contents, j: nat, u: Update)
    requires Inv(a, init) && Enabled(a, RestartOf(j, u))
    ensures Inv(After(a, RestartOf(j, u)), init)
  {
    hide Keeps, Rebuild;
    var s := a.slaves[j];
    if Keeps(s, Base(a, init)) {
      RestartKeeps(s, Base(a, init), u);
    }
    if Keeps(s, Goal(a, init)) {
      RestartKeeps(s, Goal(a, init), u);
    }
  }

  lemma FinishKeepsInv(a: System, init: Contents)
    requires Inv(a, init) && Enabled(a, Finish)
    ensures Inv(After(a, Finish), init)
  {
    hide Keeps;
  }

  /** A step keeps the invariant exactly if it is not a commit that spoils. */
  lemma StepKeepsInv(a: System, init: Contents, act: Action)
    requires Inv(a, init) && Enabled(a, act)
    ensures Inv(After(a, act), init) <==> !Spoils(a, init, act)
  {
    hide Keeps, Handle, Rebuild, Recover, CommitSpoils, CrashSpoils;
    match act
    case Begin(_) =>
    case Vote(_, _) => VoteKeepsInv(a, init, act);
    case Silent => VoteKeepsInv(a, init, act);
    case CrashInVote(_, _, _) => VoteKeepsInv(a, init, act);
    case Decide => DecideKeepsInv(a, init);
    case Deliver(env, acked) => DeliverKeepsInv(a, init, env, acked);
    case CrashInDelivery(env, p, u) => CrashKeepsInv(a, init, env, p, u);
    case RestartOf(j, u) => RestartKeepsInv(a, init, j, u);
    case Finish => FinishKeepsInv(a, init);
  }

  // ----- runs -----

  /** Slaves start with equal stores, which they keep; a new slave has an empty log. */
  ghost predicate Initial(sys: System, init: Contents) {
    && sys.master.Idle? && sys.committed == []
    && forall s <- sys.slaves :: Keeps(s, init)
  }

  /** The states of a run and the actions between them. */
  ghost predicate IsRun(run: seq<System>, acts: seq<Action>, init: Contents) {
    && |run| == |acts| + 1 && Initial(run[0], init)
    && forall i :: 0 <= i < |acts| ==> Enabled(run[i], acts[i]) && run[i + 1] == After(run[i], acts[i])
  }

  /** No commit spoils a slave before state `k`. */
  ghost predicate NoneSpoiled(run: seq<System>, acts: seq<Action>, init: Contents, k: nat)
    requires k <= |acts| < |run|
  {
    forall i :: 0 <= i < k ==> !Spoils(run[i], init, acts[i])
  }

  ghost predicate InvUpTo(run: seq<System>, init: Contents, k: nat)
    requires k < |run|
  {
    forall i :: 0 <= i <= k ==> Inv(run[i], init)
  }

  /** The invariant holds all along a run exactly if no commit spoils a slave. */
  lemma {:induction false} RunKeepsInv(run: seq<System>, acts: seq<Action>, init: Contents, k: nat)
    requires IsRun(run, acts, init) && k <= |acts|
    ensures InvUpTo(run, init, k) <==> NoneSpoiled(run, acts, init, k)
  {
    hide Enabled, After, Inv, Spoils;
    if k == 0 {
      InitialInv(run[0], init);
    } else {
      RunKeepsInv(run, acts, init, k - 1);
      if NoneSpoiled(run, acts, init, k - 1) {
        assert Inv(run[k - 1], init);
        assert Enabled(run[k - 1], acts[k - 1]) && run[k - 1 + 1] == After(run[k - 1], acts[k - 1]);
        StepKeepsInv(run[k - 1], init, acts[k - 1]);
      }
    }
  }

  lemma InitialInv(sys: System, init: Contents)
    requires Initial(sys, init)
    ensures Inv(sys, init)
  {
    hide Keeps;
    assert ApplyAll(init, []) == init;
    forall j | 0 <= j < |sys.slaves| ensures Keeps(sys.slaves[j], init) {
      assert sys.slaves[j] in sys.slaves;
    }
  }

  /**
   Slave `j` agrees: between transactions and during a vote its store is the fold of the
   committed requests; while a decision is delivered it is that fold with or without the open
   request, and with it once the slave has acknowledged.
   */
  ghost predicate Agrees(sys: System, init: Contents, j: nat)
    requires j < |sys.slaves|
  {
    match sys.master
    case Idle => sys.slaves[j].store == ApplyAll(init, sys.committed)
    case Voting(_, _, _) => sys.slaves[j].store == ApplyAll(init, sys.committed)
    case Deciding(r, i, abort) =>
      && (abort ==> sys.slaves[j].store == ApplyAll(init, sys.committed))
      && (!abort && j < i ==> sys.slaves[j].store == ApplyAll(init, sys.committed))
      && (!abort && j >= i ==> sys.slaves[j].store in {Base(sys, init), ApplyAll(init, sys.committed)})
  }

  /** The invariant gives agreement. */
  lemma InvAgrees(sys: System, init: Contents, j: nat)
    requires Inv(sys, init) && j < |sys.slaves|
    ensures Agrees(sys, init, j)
  {
  }

  /**
   Agreement over whole runs in which no commit spoils a slave: each transaction is applied by
   all slaves or by none, and no slave has the open request before the decision.
   */
  lemma Agreement(run: seq<System>, acts: seq<Action>, init: Contents, k: nat, j: nat)
    requires IsRun(run, acts, init) && k <= |acts| && j < |run[k].slaves| && NoneSpoiled(run, acts, init, k)
    ensures Agrees(run[k], init, j)
  {
    hide NoneSpoiled, Agrees;
    RunKeepsInv(run, acts, init, k);
    assert Inv(run[k], init);
    InvAgrees(run[k], init, j);
  }

  /**
   The slave acknowledges a commit without having the request: its log does not end with it,
   because it never voted or could not log its vote, or its store could not be updated.
   */
  ghost predicate Misses(a: System, env: Env) {
    && InDelivery(a) && !a.master.abort && Current(a).log != []
    && var s := Current(a);
       if Last(s.log).Req? && env.store.Made? then Apply(s.store, Last(s.log).req) != Apply(s.store, a.master.req)
       else s.store != Apply(s.store, a.master.req)
  }

  /** The hypothesis is needed: after a delivery the slave has the committed requests exactly if it did not miss this one. */
  lemma DeliveryAgrees(run: seq<System>, acts: seq<Action>, init: Contents, k: nat)
    requires IsRun(run, acts, init) && k < |acts| && NoneSpoiled(run, acts, init, k) && acts[k].Deliver?
    ensures InDelivery(run[k])
    ensures run[k + 1].slaves[run[k].master.next].store == ApplyAll(init, run[k + 1].committed) <==>
            !Misses(run[k], acts[k].env)
    ensures acts[k].acked && Misses(run[k], acts[k].env) ==> Spoils(run[k], init, acts[k])
  {
    hide Keeps, Apply, Confirms, Inv;
    RunKeepsInv(run, acts, init, k);
    var a, act := run[k], acts[k];
    assert Inv(a, init) && Enabled(a, act) && run[k + 1] == After(a, act);
    CurrentKeeps(a, init);
    if !a.master.abort {
      GoalIsApplied(a, init, Current(a).store);
    }
  }

  /**
   For a slave whose log ends with the request: the commit spoils it exactly if it changes the
   store, the store could not be updated, and the commit was acknowledged or recorded.
   */
  lemma LoggedCommitSpoils(a: System, init: Contents, env: Env, acked: bool)
    requires Inv(a, init) && InDelivery(a) && !a.master.abort && Executable(Current(a), env)
    requires Last(Current(a).log) == Req(a.master.req)
    ensures Spoils(a, init, Deliver(env, acked)) <==>
            && !env.store.Made? && Apply(Current(a).store, a.master.req) != Current(a).store
            && (acked || env.log.Written?)
  {
    hide Keeps, Apply, LastReq, Inv;
    var s, r := Current(a), a.master.req;
    CurrentKeeps(a, init);
    GoalIsApplied(a, init, s.store);
    LastReqIsLast(s.log);
    ApplyTwice(s.store, r);
  }

  /**
   Nor may a record confirm what the store does not have: unless one is torn, a restart then
   changes the store of a slave that has acknowledged the commit.
   */
  lemma FalseRecordDisagrees(s: Slave, env: Env)
    requires Executable(s, env) && env.log.Written? && Torn !in s.log
    ensures var s' := Handle(s, Commit, env).0;
      (Restarted(s', Made).Back? && Restarted(s', Made).slave.store != s'.store) <==> !Confirms(s.log, StoreAfter(s, env))
  {
    hide Apply, LastReq;
    LastReqSnoc(s.log, CommitRec);
    assert Last(s.log + [CommitRec]) == CommitRec;
  }

  // ----- the hypotheses are needed -----

  /** The log ends with the request. */
  ghost predicate Knows(s: Slave, r: Request) { s.log != [] && Last(s.log) == Req(r) }

  /** A store file that cannot be opened: both slaves acknowledge the commit, and the stores part. */
  lemma MissedCommitDisagrees()
    ensures var r := PutReq("k", "v");
      var s := Slave([Req(r)], map[], Wait);
      && Knows(s, r) && Accepts(map[], r) && !Breaks(r)
      && Handle(s, Commit, SOUND) == (Slave([Req(r), CommitRec], map["k" := "v"], Ready), Ack)
      && Handle(s, Commit, Env(true, Written, Refused)) == (Slave([Req(r), CommitRec], map[], Ready), Ack)
  {
    var r := PutReq("k", "v");
    assert [Req(r)] + [CommitRec] == [Req(r), CommitRec];
  }

  /** A vote to commit that could not be logged: the slave acknowledges the commit and does nothing. */
  lemma UnloggedVoteDisagrees()
    ensures var r := PutReq("k", "v");
      var (voted, answer) := Handle(Slave([AbortRec], map[], Ready), Ask(r), Env(true, Unopened, Made));
      && answer == VoteCommit
      && Handle(voted, Commit, SOUND) == (Slave([AbortRec, CommitRec], map[], Ready), Ack)
  {
    assert [AbortRec] + [CommitRec] == [AbortRec, CommitRec];
  }

  /** A transaction that one of two slaves never voted on: the stores part. */
  lemma SilentSlaveDisagrees()
    ensures var r := PutReq("k", "v");
      var voted, silent := Slave([Req(r)], map[], Wait), Slave([AbortRec], map[], Ready);
      && Knows(voted, r) && Keeps(silent, map[])
      && Handle(voted, Commit, SOUND).0.store == map["k" := "v"]
      && Handle(silent, Commit, SOUND).0.store == map[]
  {
  }

  /** A slave that never voted agrees with one that did after the commit exactly if the request changes nothing. */
  lemma CommitWithoutVote(silent: Slave, voted: Slave, r: Request)
    requires Executable(silent, SOUND) && !Last(silent.log).Req?
    requires Knows(voted, r) && Executable(voted, SOUND) && silent.store == voted.store
    ensures Handle(silent, Commit, SOUND).0.store == Handle(voted, Commit, SOUND).0.store <==>
            Apply(silent.store, r) == silent.store
  {
  }
}
