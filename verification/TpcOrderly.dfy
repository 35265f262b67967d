/**
 Runs of two-phase commit in which the master hears every vote, every vote to commit is
 logged and the stores can be updated: no commit spoils a slave, so the slaves agree.
 Directories may be missing, aborts unlogged, decisions repeated, and slaves may crash and
 restart all the same.
 */
module TpcOrderly {
  import opened KvStore
  import opened Tpc
  import opened TpcRuns

  /** No record is torn, and a rebuild can execute what the last record commits. */
  ghost predicate Tidy(s: Slave) {
    && Torn !in s.log
    && (s.log != [] && Last(s.log).CommitRec? ==> LastReq(s.log).Req? && !Breaks(LastReq(s.log).req))
  }

  /** The log ends with the request or with a commit of it. */
  ghost predicate Heeds(s: Slave, r: Request) {
    s.log != [] && (Knows(s, r) || (Last(s.log).CommitRec? && LastReq(s.log) == Req(r) && !Breaks(r)))
  }

  /**
   The master hears every vote, a vote to commit has been logged, no record is left torn, and
   a store can be updated where a commit or the rebuild of one asks for it.
   */
  ghost predicate Orderly(a: System, act: Action) {
    match act
    case Vote(env, heard) =>
      && heard && !env.log.Unwritten? && InVoting(a)
      && var answer := Handle(Current(a), Sent(a), env).1;
         answer.VoteAbort? || (answer.VoteCommit? && env.log.Written?)
    case Silent => false
    case CrashInVote(_, _, _) => false
    case Deliver(env, _) => !env.log.Unwritten? && env.store.Made?
    case CrashInDelivery(_, _, u) => u.Made?
    case _ => true
  }

  /** As long as nobody has refused, the slaves that have been asked know the request. */
  ghost predicate VotesLogged(sys: System, init: Contents) {
    match sys.master
    case Idle => true
    case Voting(r, i, abort) =>
      abort || ((i > 0 ==> Accepts(Base(sys, init), r)) && forall j :: 0 <= j < i <= |sys.slaves| ==> Knows(sys.slaves[j], r))
    case Deciding(r, i, abort) =>
      || abort
      || (&& (|sys.slaves| > 0 ==> Accepts(Base(sys, init), r))
          && (forall j :: i < j < |sys.slaves| ==> Knows(sys.slaves[j], r))
          && (i < |sys.slaves| ==> Heeds(sys.slaves[i], r)))
  }

  ghost predicate AllTidy(slaves: seq<Slave>) { forall j :: 0 <= j < |slaves| ==> Tidy(slaves[j]) }

  ghost predicate OrderlyInv(sys: System, init: Contents) {
    Inv(sys, init) && VotesLogged(sys, init) && AllTidy(sys.slaves)
  }

  /** A commit at a slave that heeds it gives the goal and confirms nothing else. */
  lemma HeededCommit(s: Slave, r: Request, env: Env)
    requires Heeds(s, r) && Keeps(s, s.store) && env.store.Made? && !env.log.Unwritten? && Executable(s, env)
    ensures var s' := Handle(s, Commit, env).0;
      Heeds(s', r) && (Tidy(s) ==> Tidy(s')) && s'.store == Apply(s.store, r) && Confirms(s.log, s'.store)
  {
    hide Apply, LastReq;
    LastReqSnoc(s.log, CommitRec);
    assert Last(s.log + [CommitRec]) == CommitRec;
    ApplyTwice(s.store, r);
    if Knows(s, r) { LastReqIsLast(s.log); }
  }

  /** And so does the rebuild after a crash in it. */
  lemma HeededCrash(s: Slave, r: Request, env: Env, p: Point)
    requires Heeds(s, r) && Keeps(s, s.store) && Recover(s, Commit, env, p, Made).Back?
    ensures var s' := Recover(s, Commit, env, p, Made).slave;
      && Heeds(s', r) && Tidy(s')
      && StoreAt(s, Commit, env, p) in {s.store, Apply(s.store, r)}
      && LastReq(s.log) == Req(r) && Apply(StoreAt(s, Commit, env, p), r) == Apply(s.store, r)
  {
    hide Apply, LastReq;
    ApplyTwice(s.store, r);
    if Knows(s, r) { LastReqIsLast(s.log); }
    if Recorded(s, Commit, env, p) {
      LastReqSnoc(s.log, CommitRec);
      assert Last(s.log + [CommitRec]) == CommitRec;
    } else if Begun(s, Commit, env, p) {
      TornIsLost(s.log, StoreAt(s, Commit, env, p), Made);
      assert false;
    }
  }

  /** An orderly step spoils nothing. */
  lemma OrderlyNeverSpoils(a: System, init: Contents, act: Action)
    requires OrderlyInv(a, init) && Enabled(a, act) && Orderly(a, act)
    ensures !Spoils(a, init, act)
  {
    hide Apply, LastReq, Keeps, Handle, Recover, StoreAt, Confirms;
    if InDelivery(a) && !a.master.abort {
      var s, r := Current(a), a.master.req;
      CurrentKeeps(a, init);
      GoalIsApplied(a, init, s.store);
      match act
      case Deliver(env, acked) =>
        CommitIsExecutable(s, env);
        CommittedStore(s, env);
        HeededCommit(s, r, env);
      case CrashInDelivery(env, p, u) =>
        HeededCrash(s, r, env, p);
      case _ =>
    }
  }

  lemma CommittedStore(s: Slave, env: Env)
    requires Executable(s, env)
    ensures Handle(s, Commit, env).0.store == StoreAfter(s, env)
  {
  }

  lemma TidyAfter(s: Slave, m: Message, env: Env)
    requires Tidy(s) && !m.Commit? && !env.log.Unwritten?
    ensures Tidy(Handle(s, m, env).0)
  {
    hide LastReq;
    assert Last(s.log + [RecordOf(m)]) == RecordOf(m);
  }

  lemma TidyRebuilt(log: seq<Record>, store: Contents, u: Update)
    requires Rebuild(log, store, u).Back?
    ensures Tidy(Rebuild(log, store, u).slave) && Rebuild(log, store, u).slave.log == log
  {
  }

  lemma OrderlyVote(a: System, init: Contents, env: Env)
    requires OrderlyInv(a, init) && Enabled(a, Vote(env, true)) && Orderly(a, Vote(env, true))
    ensures var b := After(a, Vote(env, true)); VotesLogged(b, init) && AllTidy(b.slaves)
  {
    hide Keeps, Tidy, Accepts;
    var s, r := Current(a), a.master.req;
    assert Tidy(s);
    TidyAfter(s, Ask(r), env);
    var (s', answer) := Handle(s, Ask(r), env);
    if answer.VoteCommit? {
      assert Knows(s', r) by { assert Last(s.log + [Req(r)]) == Req(r); }
      assert s.store == Base(a, init) by { StoreIsBase(a, init); }
    }
  }

  lemma StoreIsBase(a: System, init: Contents)
    requires Inv(a, init) && InVoting(a)
    ensures Current(a).store == Base(a, init)
  {
  }

  lemma OrderlyDelivery(a: System, init: Contents, act: Action)
    requires OrderlyInv(a, init) && Enabled(a, act) && Orderly(a, act) && (act.Deliver? || act.CrashInDelivery?)
    ensures var b := After(a, act); VotesLogged(b, init) && AllTidy(b.slaves)
  {
    hide Keeps, Tidy, Accepts, Handle, Recover, Heeds, Inv, Knows;
    var s, r := Current(a), a.master.req;
    assert Tidy(s);
    CurrentKeeps(a, init);
    match act
    case Deliver(env, acked) =>
      if a.master.abort {
        TidyAfter(s, Abort, env);
      } else {
        CommitIsExecutable(s, env);
        HeededCommit(s, r, env);
        KnowingHeeds(r);
      }
    case CrashInDelivery(env, p, u) =>
      if a.master.abort {
        RecoveredTidy(s, Abort, env, p, u);
      } else {
        HeededCrash(s, r, env, p);
      }
  }

  lemma RecoveredTidy(s: Slave, m: Message, env: Env, p: Point, u: Update)
    requires Recover(s, m, env, p, u).Back?
    ensures Tidy(Recover(s, m, env, p, u).slave)
  {
    hide Tidy, Rebuild;
    TidyRebuilt(LogAt(s, m, env, p), StoreAt(s, m, env, p), u);
  }

  /** A slave that knows the request heeds its commit. */
  lemma KnowingHeeds(r: Request)
    ensures forall t: Slave :: Knows(t, r) ==> Heeds(t, r)
  {
  }

  lemma OrderlyRestart(a: System, init: Contents, j: nat, u: Update)
    requires OrderlyInv(a, init) && Enabled(a, RestartOf(j, u))
    ensures var b := After(a, RestartOf(j, u)); VotesLogged(b, init) && AllTidy(b.slaves)
  {
    hide Keeps, Tidy, Accepts, Rebuild, Inv;
    TidyRebuilt(a.slaves[j].log, a.slaves[j].store, u);
  }

  /** An orderly step keeps the slaves orderly. */
  lemma OrderlyKeepsInv(a: System, init: Contents, act: Action)
    requires OrderlyInv(a, init) && Enabled(a, act) && Orderly(a, act)
    ensures OrderlyInv(After(a, act), init)
  {
    hide Keeps, Tidy, Accepts, Handle, Recover, Rebuild, Spoils, Inv, AllTidy;
    OrderlyNeverSpoils(a, init, act);
    StepKeepsInv(a, init, act);
    match act
    case Begin(_) =>
    case Vote(env, _) => OrderlyVote(a, init, env);
    case Deliver(_, _) => OrderlyDelivery(a, init, act);
    case CrashInDelivery(_, _, _) => OrderlyDelivery(a, init, act);
    case RestartOf(j, u) => OrderlyRestart(a, init, j, u);
    case Decide => OrderlyDecide(a, init);
    case Finish =>
  }

  lemma OrderlyDecide(a: System, init: Contents)
    requires OrderlyInv(a, init) && Enabled(a, Decide)
    ensures VotesLogged(After(a, Decide), init)
  {
    hide Keeps, Tidy, Accepts, Knows, Heeds;
    var b := After(a, Decide);
    KnowingHeeds(a.master.req);
    if !a.master.abort {
      assert b.committed[..|b.committed| - 1] == a.committed;
      assert Base(b, init) == Base(a, init);
    }
  }

  /**
   In a run whose votes are heard, whose votes to commit are logged and whose stores can be
   updated, no commit spoils a slave, whatever directory is missing, whatever is unlogged or
   repeated, and whoever crashes and restarts.
   */
  lemma {:induction false} OrderlyRun(run: seq<System>, acts: seq<Action>, init: Contents, k: nat)
    requires IsRun(run, acts, init) && k <= |acts| && AllTidy(run[0].slaves)
    requires forall i :: 0 <= i < k ==> Orderly(run[i], acts[i])
    ensures NoneSpoiled(run, acts, init, k) && OrderlyInv(run[k], init)
  {
    hide Enabled, After, Inv, Spoils, Orderly, AllTidy;
    if k == 0 {
      InitialInv(run[0], init);
    } else {
      OrderlyRun(run, acts, init, k - 1);
      assert Enabled(run[k - 1], acts[k - 1]) && run[k - 1 + 1] == After(run[k - 1], acts[k - 1]);
      OrderlyNeverSpoils(run[k - 1], init, acts[k - 1]);
      OrderlyKeepsInv(run[k - 1], init, acts[k - 1]);
    }
  }

  /** So between transactions every store of such a run is the fold of the committed requests, and all agree at any time. */
  lemma OrderlyRunAgrees(run: seq<System>, acts: seq<Action>, init: Contents, k: nat, j: nat)
    requires IsRun(run, acts, init) && k <= |acts| && AllTidy(run[0].slaves) && j < |run[k].slaves|
    requires forall i :: 0 <= i < k ==> Orderly(run[i], acts[i])
    ensures run[k].master.Idle? ==> run[k].slaves[j].store == ApplyAll(init, run[k].committed)
    ensures Agrees(run[k], init, j)
  {
    hide AllTidy, Orderly, NoneSpoiled, Inv, VotesLogged;
    OrderlyRun(run, acts, init, k);
    InvAgrees(run[k], init, j);
  }

  // ----- which steps of such a run are defined -----

  /**
   A decision cannot be executed exactly if it is a commit and the directory is missing, the
   value is too long, or the store file is damaged.
   */
  lemma DeliveryIsDefined(a: System, init: Contents, env: Env)
    requires OrderlyInv(a, init) && InDelivery(a)
    ensures Handle(Current(a), Sent(a), env).1.Undefined? <==>
            && !a.master.abort
            && (!env.dir || Overruns(a.master.req)
                || (Last(Current(a).log).Req? && env.store.Damaged? && Opens(Current(a).store, a.master.req)))
  {
    hide Apply, LastReq;
  }

  /**
   A slave cannot be rebuilt exactly if its log is empty or waits for the decision on such a
   value, or the rebuild of a commit damages the store file.
   */
  lemma RestartIsDefined(a: System, init: Contents, j: nat, u: Update)
    requires OrderlyInv(a, init) && j < |a.slaves|
    ensures Restarted(a.slaves[j], u).Lost? <==>
            var s := a.slaves[j];
            || s.log == [] || (Last(s.log).Req? && Overruns(Last(s.log).req))
            || (Last(s.log).CommitRec? && u.Damaged? && LastReq(s.log).Req? && Opens(s.store, LastReq(s.log).req))
  {
    hide Accepts, Apply, Inv, VotesLogged;
    var s := a.slaves[j];
    assert Tidy(s);
    if s.log != [] {
      assert Last(s.log) in s.log;
    }
  }

  /**
   A crash during the commit of a request that the slave has logged.  It cannot be rebuilt
   exactly if a record is torn, a store file is damaged or the value is too long; otherwise
   it comes back before the commit or after it, and with the request exactly if the rebuild
   repeated it or the handler had got that far.
   */
  lemma CrashedSlave(s: Slave, r: Request, env: Env, p: Point, u: Update)
    requires Knows(s, r) && Tidy(s) && Accepts(s.store, r)
    ensures var back := Recover(s, Commit, env, p, u);
      var recorded := Recorded(s, Commit, env, p);
      && (back.Lost? <==>
            || (Begun(s, Commit, env, p) && !recorded) || Overruns(r)
            || (!env.dir && (p.WhileApplying? || p.AfterApply?))
            || (r.PutReq? && (|| (p.WhileApplying? && !env.store.Refused?) || (p.AfterApply? && env.store.Damaged?)
                              || (recorded && u.Damaged?))))
      && (back.Back? ==>
            && Heeds(back.slave, r)
            && back.slave.store ==
               if (recorded && u.Made?) || (p.AfterApply? && env.dir && env.store.Made?) then Apply(s.store, r) else s.store)
  {
    hide Apply, LastReq;
    var log := LogAt(s, Commit, env, p);
    ApplyTwice(s.store, r);
    LastReqIsLast(s.log);
    LastReqSnoc(s.log, CommitRec);
    OpensAgain(s.store, r);
    if Recorded(s, Commit, env, p) {
      assert Last(log) == CommitRec && Torn !in log;
    } else if Begun(s, Commit, env, p) {
      TornIsLost(s.log, StoreAt(s, Commit, env, p), u);
    }
  }
}
