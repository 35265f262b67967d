/** tpcmaster_handle_tpc: the two loops of the master over the list of its slaves. */
module TpcMaster {
  import opened KvStore
  import opened Tpc
  import opened TpcRuns

  // ----- what can become of a slave in phase 2 -----

  /**
   A delivery of the decision: it is handled, or the slave crashes in the handler and comes
   back.  The master repeats it until it sees the acknowledgement of one that was handled.
   */
  datatype Delivery = Handled(env: Env) | CrashAt(env: Env, point: Point, u: Update)

  function Delivered(s: Slave, m: Message, d: Delivery): Recovered {
    match d
    case Handled(env) =>
      var (s', answer) := Handle(s, m, env);
      if answer.Undefined? then Lost else Back(s')
    case CrashAt(env, p, u) => Recover(s, m, env, p, u)
  }

  function AfterDeliveries(s: Slave, m: Message, ds: seq<Delivery>): Recovered {
    if ds == [] then Back(s)
    else
      var before := AfterDeliveries(s, m, ds[..|ds| - 1]);
      if before.Lost? then Lost else Delivered(before.slave, m, ds[|ds| - 1])
  }

  /** The slave is heard in phase 2: its last delivery is handled and its behaviour defined up to it. */
  predicate Heard(s: Slave, m: Message, ds: seq<Delivery>) {
    ds != [] && ds[|ds| - 1].Handled? && AfterDeliveries(s, m, ds).Back?
  }

  lemma {:induction false} LostStays(s: Slave, m: Message, ds: seq<Delivery>, k: nat)
    requires k <= |ds| && AfterDeliveries(s, m, ds[..k]).Lost?
    ensures AfterDeliveries(s, m, ds).Lost?
    decreases |ds| - k
  {
    if k < |ds| {
      assert ds[..k + 1][..k] == ds[..k];
      LostStays(s, m, ds, k + 1);
    } else {
      assert ds[..k] == ds;
    }
  }

  /** Whatever happens while an abort is delivered, the store stays. */
  lemma {:induction false} AbortedStore(s: Slave, store: Contents, ds: seq<Delivery>)
    requires Keeps(s, store) && AfterDeliveries(s, Abort, ds).Back?
    ensures Keeps(AfterDeliveries(s, Abort, ds).slave, store)
  {
    hide Keeps, Handle, Recover;
    if ds != [] {
      var before := ds[..|ds| - 1];
      AbortedStore(s, store, before);
      var t := AfterDeliveries(s, Abort, before).slave;
      match ds[|ds| - 1]
      case Handled(env) => OthersKeep(t, store, Abort, env);
      case CrashAt(env, p, u) => OthersKeepInCrash(t, store, Abort, env, p, u);
    }
  }

  // ----- the fate of a slave that has logged its vote, while a commit is delivered -----

  /** Its log ends with the request, with a commit, or with a torn record. */
  datatype Mark = Asked | Committed | Spoilt

  /** `has` says whether the request is in its store; `Dead` that its behaviour is no longer defined. */
  datatype Fate = Alive(mark: Mark, has: bool) | Dead

  function MarkAfter(mark: Mark, log: Logging): Mark {
    match log
    case Written => Committed
    case Unopened => mark
    case Unwritten => Spoilt
  }

  /** A commit that finds the request at the end of the log can execute it. */
  predicate CanExecute(r: Request, env: Env) {
    env.dir && !Overruns(r) && !(env.store.Damaged? && r.PutReq?)
  }

  function AfterHandled(f: Fate, r: Request, env: Env): Fate
    requires f.Alive?
  {
    if !env.dir || f.mark.Spoilt? || (f.mark.Asked? && !CanExecute(r, env)) then Dead
    else Alive(MarkAfter(f.mark, env.log), f.has || (f.mark.Asked? && env.store.Made?))
  }

  /** The commit is interrupted behind an access that the missing directory spoils, or leaves an empty entry file. */
  predicate Ruins(mark: Mark, r: Request, env: Env, p: Point) {
    && (p.WhileApplying? || p.AfterApply?)
    && (|| !env.dir
        || (mark.Asked? && r.PutReq? && if p.WhileApplying? then !env.store.Refused? else env.store.Damaged?))
  }

  function AfterCrash(f: Fate, r: Request, env: Env, p: Point, u: Update): Fate
    requires f.Alive?
  {
    var begun := !p.BeforeLog? && env.dir && !env.log.Unopened?;
    var recorded := begun && !p.WhileLogging? && env.log.Written?;
    var applies := f.mark.Asked? && CanExecute(r, env) && env.store.Made?;
    var has := f.has || (p.AfterApply? && applies);
    if f.mark.Spoilt? || (begun && !recorded) || Overruns(r) || Ruins(f.mark, r, env, p) then Dead
    else if !recorded && f.mark.Asked? then Alive(Asked, has)
    else if u.Damaged? && r.PutReq? then Dead
    else Alive(Committed, has || u.Made?)
  }

  function NextFate(f: Fate, r: Request, d: Delivery): Fate {
    if f.Dead? then Dead
    else match d
      case Handled(env) => AfterHandled(f, r, env)
      case CrashAt(env, p, u) => AfterCrash(f, r, env, p, u)
  }

  function FateAfter(r: Request, ds: seq<Delivery>): Fate {
    if ds == [] then Alive(Asked, false) else NextFate(FateAfter(r, ds[..|ds| - 1]), r, ds[|ds| - 1])
  }

  ghost predicate InFate(s: Slave, store: Contents, r: Request, f: Fate) {
    && f.Alive? && s.log != [] && s.store == (if f.has then Apply(store, r) else store)
    && match f.mark
       case Asked => Last(s.log) == Req(r) && Torn !in s.log
       case Committed => Last(s.log).CommitRec? && LastReq(s.log) == Req(r) && !Breaks(r) && Torn !in s.log
       case Spoilt => Last(s.log).Torn?
  }

  /**
   The table of fates is what the handler and the rebuild do.  A commit that was recorded but
   not executed stays so however often it is repeated; only a crash makes up for it.
   */
  lemma FateIsTold(s: Slave, store: Contents, r: Request, f: Fate, d: Delivery)
    requires InFate(s, store, r, f) && Accepts(store, r)
    ensures var f', back := NextFate(f, r, d), Delivered(s, Commit, d);
      if f'.Dead? then back.Lost? else back.Back? && InFate(back.slave, store, r, f')
  {
    hide Delivered, AfterHandled, AfterCrash;
    match d
    case Handled(env) => HandledIsTold(s, store, r, f, env);
    case CrashAt(env, p, u) => CrashIsTold(s, store, r, f, env, p, u);
  }

  /** Whether the store has the request already does not matter to its execution. */
  lemma ExecutesAlike(store: Contents, r: Request, has: bool)
    requires Accepts(store, r)
    ensures var s := if has then Apply(store, r) else store;
      Apply(s, r) == Apply(store, r) && (Opens(s, r) <==> r.PutReq?) && (Breaks(r) <==> Overruns(r))
  {
    ApplyTwice(store, r);
  }

  lemma HandledIsTold(s: Slave, store: Contents, r: Request, f: Fate, env: Env)
    requires InFate(s, store, r, f) && Accepts(store, r)
    ensures var f', back := AfterHandled(f, r, env), Delivered(s, Commit, Handled(env));
      if f'.Dead? then back.Lost? else back.Back? && InFate(back.slave, store, r, f')
  {
    hide Apply, LastReq, Accepts, Opens, Breaks, Overruns;
    ExecutesAlike(store, r, f.has);
    LastReqSnoc(s.log, CommitRec);
    assert Last(s.log + [CommitRec]) == CommitRec && Last(s.log + [Torn]) == Torn;
    if f.mark.Asked? { LastReqIsLast(s.log); }
  }

  ghost predicate Foretold(f: Fate, back: Recovered, store: Contents, r: Request) {
    if f.Dead? then back.Lost? else back.Back? && InFate(back.slave, store, r, f)
  }

  lemma CrashIsTold(s: Slave, store: Contents, r: Request, f: Fate, env: Env, p: Point, u: Update)
    requires InFate(s, store, r, f) && Accepts(store, r)
    ensures Foretold(AfterCrash(f, r, env, p, u), Delivered(s, Commit, CrashAt(env, p, u)), store, r)
  {
    hide AfterCrash, Foretold, Recover;
    match f.mark
    case Asked => CrashOfAsked(s, store, r, f, env, p, u);
    case Committed => CrashOfCommitted(s, store, r, f, env, p, u);
    case Spoilt => CrashOfSpoilt(s, store, r, f, env, p, u);
  }

  lemma CrashOfSpoilt(s: Slave, store: Contents, r: Request, f: Fate, env: Env, p: Point, u: Update)
    requires InFate(s, store, r, f) && f.mark.Spoilt?
    ensures Foretold(AfterCrash(f, r, env, p, u), Recover(s, Commit, env, p, u), store, r)
  {
    hide Apply, LastReq;
    assert LogAt(s, Commit, env, p)[|s.log| - 1] == Torn;
  }

  /** A rebuild from a log that commits `r`, for a store that has it or not. */
  lemma RebuildsCommit(log: seq<Record>, store: Contents, r: Request, has: bool, u: Update)
    requires log != [] && Last(log).CommitRec? && LastReq(log) == Req(r) && Torn !in log && Accepts(store, r)
    ensures var f := if Overruns(r) || (u.Damaged? && r.PutReq?) then Dead else Alive(Committed, has || u.Made?);
      Foretold(f, Rebuild(log, if has then Apply(store, r) else store, u), store, r)
  {
    hide Apply, LastReq, Accepts, Opens, Breaks, Overruns;
    ExecutesAlike(store, r, has);
  }

  lemma CrashOfCommitted(s: Slave, store: Contents, r: Request, f: Fate, env: Env, p: Point, u: Update)
    requires InFate(s, store, r, f) && Accepts(store, r) && f.mark.Committed?
    ensures Foretold(AfterCrash(f, r, env, p, u), Recover(s, Commit, env, p, u), store, r)
  {
    hide Apply, LastReq, Accepts, Opens, Breaks, Overruns, Rebuild, Foretold;
    ExecutesAlike(store, r, f.has);
    LastReqSnoc(s.log, CommitRec);
    assert StoreAt(s, Commit, env, p) == s.store;
    LostIsForetold(s.log, s.store, u, store, r);
    if !Begun(s, Commit, env, p) || Recorded(s, Commit, env, p) {
      var log := LogAt(s, Commit, env, p);
      assert Last(log) == CommitRec && Torn !in log && LastReq(log) == Req(r);
      RebuildsCommit(log, store, r, f.has, u);
    }
  }

  lemma LostIsForetold(log: seq<Record>, t: Contents, u: Update, store: Contents, r: Request)
    ensures Foretold(Dead, Rebuild(log + [Torn], t, u), store, r) && Foretold(Dead, Lost, store, r)
  {
    TornIsLost(log, t, u);
  }

  lemma CrashOfAsked(s: Slave, store: Contents, r: Request, f: Fate, env: Env, p: Point, u: Update)
    requires InFate(s, store, r, f) && Accepts(store, r) && f.mark.Asked?
    ensures Foretold(AfterCrash(f, r, env, p, u), Recover(s, Commit, env, p, u), store, r)
  {
    hide Apply, LastReq, Accepts, Opens, Breaks, Overruns, Rebuild, Foretold;
    var t, log := StoreAt(s, Commit, env, p), LogAt(s, Commit, env, p);
    ghost var has := f.has || (p.AfterApply? && CanExecute(r, env) && env.store.Made?);
    ExecutesAlike(store, r, f.has);
    assert t == (if has then Apply(store, r) else store);
    LostIsForetold(s.log, t, u, store, r);
    if Recorded(s, Commit, env, p) {
      LastReqIsLast(s.log);
      LastReqSnoc(s.log, CommitRec);
      assert Last(log) == CommitRec && Torn !in log && LastReq(log) == Req(r);
      RebuildsCommit(log, store, r, has, u);
    } else if !Begun(s, Commit, env, p) {
      RebuildsAsked(log, store, r, has, u);
    }
  }

  lemma RebuildsAsked(log: seq<Record>, store: Contents, r: Request, has: bool, u: Update)
    requires log != [] && Last(log) == Req(r) && Torn !in log
    ensures var f := if Overruns(r) then Dead else Alive(Asked, has);
      Foretold(f, Rebuild(log, if has then Apply(store, r) else store, u), store, r)
  {
    hide Apply, LastReq;
  }

  /** Over all deliveries: the slave survives them exactly if its fate is not death, and has the request as that says. */
  lemma {:induction false} FateOfSlave(s: Slave, store: Contents, r: Request, ds: seq<Delivery>)
    requires InFate(s, store, r, Alive(Asked, false)) && Accepts(store, r)
    ensures var f, back := FateAfter(r, ds), AfterDeliveries(s, Commit, ds);
      if f.Dead? then back.Lost? else back.Back? && InFate(back.slave, store, r, f)
  {
    hide InFate, Delivered, NextFate;
    if ds != [] {
      var before := ds[..|ds| - 1];
      FateOfSlave(s, store, r, before);
      if FateAfter(r, before).Alive? {
        FateIsTold(AfterDeliveries(s, Commit, before).slave, store, r, FateAfter(r, before), ds[|ds| - 1]);
      } else {
        DeadIsDead(r, ds[|ds| - 1]);
      }
    }
  }

  lemma DeadIsDead(r: Request, d: Delivery)
    ensures NextFate(Dead, r, d).Dead?
  {
  }

  /** A slave has the request as its fate says, and then keeps it. */
  lemma FateStore(s: Slave, store: Contents, r: Request, f: Fate)
    requires InFate(s, store, r, f)
    ensures s.store == if f.has then Apply(store, r) else store
    ensures f.has ==> Keeps(s, Apply(store, r))
  {
    ApplyTwice(store, r);
  }

  // ----- the master -----

  /** What happens to a slave in phase 1: it answers, and the master hears it or not; or it is not reached. */
  datatype Ballot = Answers(env: Env, heard: bool) | Unreached

  /** The slave votes to abort and is heard. */
  predicate Refuses(s: Slave, r: Request, b: Ballot) {
    b.Answers? && b.heard && !s.mode.Wait? && !(b.env.dir && Accepts(s.store, r))
  }

  /** One of the first `n` slaves does. */
  ghost predicate SomeRefuses(start: seq<Slave>, votes: seq<Ballot>, n: nat, r: Request)
    requires n <= |start| == |votes|
  {
    exists i :: 0 <= i < n && Refuses(start[i], r, votes[i])
  }

  /** The slave votes to commit and logs it behind whole records. */
  predicate VoteLogged(s: Slave, r: Request, b: Ballot) {
    b.Answers? && !s.mode.Wait? && b.env.dir && b.env.log.Written? && Accepts(s.store, r) && Torn !in s.log
  }

  /** The slave after phase 1. */
  function AfterAsk(s: Slave, r: Request, b: Ballot): Slave {
    match b
    case Answers(env, _) => Handle(s, Ask(r), env).0
    case Unreached => s
  }

  lemma NoVote(start: seq<Slave>, votes: seq<Ballot>, r: Request)
    requires |start| == |votes|
    ensures !SomeRefuses(start, votes, 0, r)
  {
  }

  lemma OneMoreVote(start: seq<Slave>, votes: seq<Ballot>, n: nat, r: Request)
    requires n < |start| == |votes|
    ensures SomeRefuses(start, votes, n + 1, r) <==> SomeRefuses(start, votes, n, r) || Refuses(start[n], r, votes[n])
  {
    hide Refuses;
    if SomeRefuses(start, votes, n, r) {
      var i :| 0 <= i < n && Refuses(start[i], r, votes[i]);
      assert 0 <= i < n + 1 && Refuses(start[i], r, votes[i]);
    }
    if Refuses(start[n], r, votes[n]) {
      assert 0 <= n < n + 1 && Refuses(start[n], r, votes[n]);
    }
  }

  /** What one slave has in its store at the end of a transaction. */
  ghost predicate EndsAs(s: Slave, start: Slave, r: Request, b: Ballot, abort: bool, ds: seq<Delivery>, store: Contents) {
    && (abort ==> Keeps(s, store))
    && (!abort && VoteLogged(start, r, b) ==>
          && FateAfter(r, ds).Alive?
          && s.store == (if FateAfter(r, ds).has then Apply(store, r) else store)
          && (FateAfter(r, ds).has ==> Keeps(s, Apply(store, r))))
  }

  /**
   One transaction.  `votes` is what happens to each slave in phase 1 and `deliveries` in
   phase 2, up to the delivery whose acknowledgement arrives.  The master only looks for
   abort votes.  An aborted request is in no store.  A committed one is in the store of a slave that logged
   its vote exactly as the table of fates says, and if all did, in all stores exactly if
   every fate is to have it or it changes nothing.
   */
  method HandleTpc(start: seq<Slave>, r: Request, votes: seq<Ballot>, deliveries: seq<seq<Delivery>>, ghost store: Contents)
      returns (slaves: seq<Slave>, abort: bool)
    requires |votes| == |start| == |deliveries|
    requires forall s <- start :: Keeps(s, store)
    requires forall i :: 0 <= i < |start| ==>
      Heard(AfterAsk(start[i], r, votes[i]), Decision(SomeRefuses(start, votes, |start|, r)), deliveries[i])
    ensures |slaves| == |start|
    ensures abort <==> SomeRefuses(start, votes, |start|, r)
    ensures forall i :: 0 <= i < |slaves| ==>
      && Back(slaves[i]) == AfterDeliveries(AfterAsk(start[i], r, votes[i]), Decision(abort), deliveries[i])
      && EndsAs(slaves[i], start[i], r, votes[i], abort, deliveries[i], store)
    ensures !abort && (forall i :: 0 <= i < |start| ==> VoteLogged(start[i], r, votes[i])) ==>
      ((forall s <- slaves :: s.store == Apply(store, r)) <==>
       (forall ds <- deliveries :: FateAfter(r, ds).Alive? && FateAfter(r, ds).has) || Apply(store, r) == store)
  {
    hide Keeps, Apply, FateAfter, SomeRefuses, AfterDeliveries, VoteLogged, EndsAs, AfterAsk;
    slaves, abort := Poll(start, r, votes);
    var i := 0;
    while i < |slaves|
      invariant 0 <= i <= |slaves| == |start|
      invariant forall j :: 0 <= j < i ==>
        && Back(slaves[j]) == AfterDeliveries(AfterAsk(start[j], r, votes[j]), Decision(abort), deliveries[j])
        && EndsAs(slaves[j], start[j], r, votes[j], abort, deliveries[j], store)
      invariant forall j :: i <= j < |slaves| ==> slaves[j] == AfterAsk(start[j], r, votes[j])
    {
      var s := SendDecision(slaves[i], Decision(abort), deliveries[i]);
      assert start[i] in start;
      SlaveEnds(s, start[i], r, votes[i], abort, deliveries[i], store);
      slaves := slaves[i := s];
      i := i + 1;
    }
    if !abort && forall i :: 0 <= i < |start| ==> VoteLogged(start[i], r, votes[i]) {
      AllOrMissed(slaves, start, r, votes, deliveries, store);
    }
  }

  lemma SlaveEnds(s: Slave, start: Slave, r: Request, b: Ballot, abort: bool, ds: seq<Delivery>, store: Contents)
    requires Keeps(start, store) && Back(s) == AfterDeliveries(AfterAsk(start, r, b), Decision(abort), ds)
    ensures EndsAs(s, start, r, b, abort, ds, store)
  {
    hide Apply, FateAfter, AfterDeliveries, Keeps, AfterAsk, VoteLogged, InFate;
    if abort {
      AbortedAfterVote(start, r, b, ds, store);
    } else if VoteLogged(start, r, b) {
      LoggedVote(start, r, b, store);
      FateOfSlave(AfterAsk(start, r, b), store, r, ds);
      FateStore(s, store, r, FateAfter(r, ds));
    }
  }

  lemma LoggedVote(start: Slave, r: Request, b: Ballot, store: Contents)
    requires VoteLogged(start, r, b) && Keeps(start, store)
    ensures Accepts(store, r) && InFate(AfterAsk(start, r, b), store, r, Alive(Asked, false))
  {
  }

  lemma AbortedAfterVote(start: Slave, r: Request, b: Ballot, ds: seq<Delivery>, store: Contents)
    requires Keeps(start, store) && AfterDeliveries(AfterAsk(start, r, b), Abort, ds).Back?
    ensures Keeps(AfterDeliveries(AfterAsk(start, r, b), Abort, ds).slave, store)
  {
    hide Keeps, Handle, AfterDeliveries;
    if b.Answers? { OthersKeep(start, store, Ask(r), b.env); }
    AbortedStore(AfterAsk(start, r, b), store, ds);
  }

  lemma AllOrMissed(slaves: seq<Slave>, start: seq<Slave>, r: Request, votes: seq<Ballot>,
                    deliveries: seq<seq<Delivery>>, store: Contents)
    requires |slaves| == |start| == |votes| == |deliveries|
    requires forall i :: 0 <= i < |start| ==> VoteLogged(start[i], r, votes[i])
    requires forall i :: 0 <= i < |slaves| ==> EndsAs(slaves[i], start[i], r, votes[i], false, deliveries[i], store)
    ensures (forall s <- slaves :: s.store == Apply(store, r)) <==>
            (forall ds <- deliveries :: FateAfter(r, ds).Alive? && FateAfter(r, ds).has) || Apply(store, r) == store
  {
    hide Apply, FateAfter, VoteLogged, Keeps;
    if (forall s <- slaves :: s.store == Apply(store, r)) && Apply(store, r) != store {
      forall ds <- deliveries ensures FateAfter(r, ds).Alive? && FateAfter(r, ds).has {
        var j :| 0 <= j < |deliveries| && deliveries[j] == ds;
        assert EndsAs(slaves[j], start[j], r, votes[j], false, deliveries[j], store);
        assert slaves[j] in slaves;
      }
    }
    if (forall ds <- deliveries :: FateAfter(r, ds).Alive? && FateAfter(r, ds).has) || Apply(store, r) == store {
      forall s <- slaves ensures s.store == Apply(store, r) {
        var j :| 0 <= j < |slaves| && slaves[j] == s;
        assert EndsAs(slaves[j], start[j], r, votes[j], false, deliveries[j], store);
        assert deliveries[j] in deliveries;
      }
    }
  }

  /** Phase 1: the master aborts exactly if it hears one refuse; no answer and an invalid-request answer count as none. */
  method Poll(start: seq<Slave>, r: Request, votes: seq<Ballot>) returns (slaves: seq<Slave>, abort: bool)
    requires |votes| == |start|
    ensures |slaves| == |start|
    ensures forall i :: 0 <= i < |slaves| ==> slaves[i] == AfterAsk(start[i], r, votes[i])
    ensures abort <==> SomeRefuses(start, votes, |start|, r)
  {
    hide Accepts, SomeRefuses;
    slaves, abort := start, false;
    NoVote(start, votes, r);
    var counter := 0;
    while counter < |slaves|
      invariant 0 <= counter <= |slaves| == |start|
      invariant forall j :: 0 <= j < counter ==> slaves[j] == AfterAsk(start[j], r, votes[j])
      invariant forall j :: counter <= j < |slaves| ==> slaves[j] == start[j]
      invariant abort <==> SomeRefuses(start, votes, counter, r)
    {
      OneMoreVote(start, votes, counter, r);
      if votes[counter].Answers? {
        var (s, response) := Handle(slaves[counter], Ask(r), votes[counter].env);
        if votes[counter].heard && response.VoteAbort? {
          abort := true;
        }
        slaves := slaves[counter := s];
      }
      counter := counter + 1;
    }
  }

  /** Phase 2 for one slave: the decision is sent until an acknowledgement arrives. */
  method SendDecision(start: Slave, m: Message, ds: seq<Delivery>) returns (s: Slave)
    requires Heard(start, m, ds)
    ensures Back(s) == AfterDeliveries(start, m, ds)
  {
    hide Delivered;
    s := start;
    var k := 0;
    assert ds[..0] == [];
    while k < |ds|
      invariant 0 <= k <= |ds|
      invariant Back(s) == AfterDeliveries(start, m, ds[..k])
    {
      assert ds[..k + 1][..k] == ds[..k];
      if AfterDeliveries(start, m, ds[..k + 1]).Lost? {
        LostStays(start, m, ds, k + 1);
      }
      s := Delivered(s, m, ds[k]).slave;
      k := k + 1;
    }
    assert ds[..k] == ds;
  }
}
