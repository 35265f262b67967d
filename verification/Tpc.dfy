/**
 Two-phase commit as a state machine: the slave handler with its on-disk log, recovery
 after a crash, and the master that drives one transaction at a time.

 A slave is its persistent part, the log and the stored map, and one volatile field.
 */
module Tpc {
  import opened KvStore

  // ----- requests and their effect on a store -----

  /** PUTREQ and DELREQ. */
  datatype Request = PutReq(key: string, value: string) | DelReq(key: string)

  /** A record of the log; `Torn` is a file that was created but not completely written. */
  datatype Record = Req(req: Request) | CommitRec | AbortRec | Torn

  type Contents = map<string, string>

  /** kvserver_put_check and kvserver_del_check on an accessible directory. */
  predicate Accepts(store: Contents, r: Request) {
    match r
    case PutReq(k, v) => |k| <= MAX_KEYLEN && |v| <= MAX_VALLEN
    case DelReq(k) => |k| <= MAX_KEYLEN && k in store
  }

  /** kvserver_put and kvserver_del, which do nothing if the check fails. */
  function Apply(store: Contents, r: Request): Contents {
    if !Accepts(store, r) then store
    else match r
      case PutReq(k, v) => store[k := v]
      case DelReq(k) => store - {k}
  }

  /** kvserver_del looks up a lock for a key that is too long, finds none and uses it anyway. */
  predicate Faults(r: Request) { r.DelReq? && |r.key| > MAX_KEYLEN }

  /** The buffer for a logged value has no room for a value of MAX_VALLEN characters and its NUL. */
  predicate Overruns(r: Request) { r.PutReq? && |r.value| >= MAX_VALLEN }

  /** Applying a request again changes nothing. */
  lemma ApplyTwice(store: Contents, r: Request)
    ensures Apply(Apply(store, r), r) == Apply(store, r)
  {
    match r {
      case PutReq(k, v) =>
        assert Accepts(store, r) ==> store[k := v][k := v] == store[k := v];
      case DelReq(k) =>
    }
  }

  /** Executing the logged request has no defined outcome. */
  predicate Breaks(r: Request) { Faults(r) || Overruns(r) }

  function ApplyAll(store: Contents, rs: seq<Request>): Contents {
    if rs == [] then store else Apply(ApplyAll(store, rs[..|rs| - 1]), rs[|rs| - 1])
  }

  // ----- the slave -----

  /** TPC_INIT, TPC_READY and TPC_WAIT. */
  datatype Mode = Init | Ready | Wait

  datatype Slave = Slave(log: seq<Record>, store: Contents, mode: Mode)

  /** What arrives at a slave. */
  datatype Message = Ask(req: Request) | Commit | Abort

  /**
   `Rejected` is the invalid-request response; `Undefined` an access to an unset or null
   pointer or past the end of the value buffer, or a store file that was opened for writing
   and not written, which every later look-up in its chain misreads.
   */
  datatype Response = VoteCommit | VoteAbort | Ack | Rejected | Undefined

  // ----- what the file system does during a handler -----

  /** tpclog_log: the record is written; its file cannot be opened; or it is opened and not completely written. */
  datatype Logging = Written | Unopened | Unwritten

  /** `dir` is what stat says about the directory, which holds both the log and the store; `store` is the update of a commit. */
  datatype Env = Env(dir: bool, log: Logging, store: Update)

  const SOUND := Env(true, Written, Made)

  function Last(log: seq<Record>): Record
    requires log != []
  {
    log[|log| - 1]
  }

  /** The log after tpclog_log, whose result nobody looks at. */
  function Logged(log: seq<Record>, r: Record, env: Env): seq<Record> {
    if !env.dir || env.log.Unopened? then log
    else if env.log.Unwritten? then log + [Torn]
    else log + [r]
  }

  /** Executing the request opens a store file for writing. */
  predicate Opens(store: Contents, r: Request) { r.PutReq? && Accepts(store, r) }

  /** A commit finds a last record that it can look at. */
  predicate Readable(s: Slave, env: Env) {
    env.dir && s.log != [] && !Last(s.log).Torn? && (Last(s.log).Req? ==> !Breaks(Last(s.log).req))
  }

  /** The last record is a request that makes a commit open a store file for writing. */
  predicate Rewrites(s: Slave) { s.log != [] && Last(s.log).Req? && Opens(s.store, Last(s.log).req) }

  /** A commit can execute the last record. */
  predicate Executable(s: Slave, env: Env) {
    Readable(s, env) && !(env.store.Damaged? && Rewrites(s))
  }

  /** The store after a commit, which does not look at the result of the update either. */
  function StoreAfter(s: Slave, env: Env): Contents
    requires s.log != []
  {
    if Last(s.log).Req? && env.store.Made? then Apply(s.store, Last(s.log).req) else s.store
  }

  /** kvserver_handle_tpc. */
  function Handle(s: Slave, m: Message, env: Env): (Slave, Response) {
    var log' := Logged(s.log, RecordOf(m), env);
    match m
    case Ask(r) =>
      if s.mode.Wait? then (s, Rejected)
      else if env.dir && Accepts(s.store, r) then (s.(log := log', mode := Wait), VoteCommit)
      else (s.(log := log', mode := Ready), VoteAbort)
    case Commit =>
      if Executable(s, env) then (Slave(log', StoreAfter(s, env), Ready), Ack)
      else (s.(log := log'), Undefined)
    case Abort => (s.(log := log', mode := Ready), Ack)
  }

  function RecordOf(m: Message): Record {
    match m
    case Ask(r) => Req(r)
    case Commit => CommitRec
    case Abort => AbortRec
  }

  /** The most recent request in the log. */
  function LastReq(log: seq<Record>): (r: Record)
    ensures r.Req? || r.Torn?
    ensures r.Req? ==> r in log
  {
    if log == [] then Torn
    else if Last(log).Req? then Last(log)
    else LastReq(log[..|log| - 1])
  }

  /** A rebuild can execute the last request of the log, whose store update ends as `u` says. */
  predicate Repeatable(log: seq<Record>, store: Contents, u: Update) {
    && LastReq(log).Req? && !Breaks(LastReq(log).req)
    && !(u.Damaged? && Opens(store, LastReq(log).req))
  }

  datatype Recovered = Lost | Back(slave: Slave)

  /**
   tpclog_init and kvserver_rebuild_state after a restart, whose kvstore_init has made sure
   of the directory; `u` is what becomes of the store update of a commit.  `Lost` stands for
   an access to an unset or null pointer or past the end of the value buffer, or a damaged
   store file: an empty log, a torn record, a commit without a request, a logged value that
   is too long, or the deletion of a key that is too long.
   */
  function Rebuild(log: seq<Record>, store: Contents, u: Update): Recovered
  {
    if log == [] || Torn in log then Lost
    else match Last(log)
      case Req(r) =>
        if Overruns(r) then Lost else Back(Slave(log, store, if Accepts(store, r) then Wait else Ready))
      case CommitRec =>
        if !Repeatable(log, store, u) then Lost
        else Back(Slave(log, if u.Made? then Apply(store, LastReq(log).req) else store, Init))
      case _ => Back(Slave(log, store, Init))
  }

  // ----- crashes inside a handler -----

  /** Where a handler is interrupted, relative to its only log record and its store update. */
  datatype Point = BeforeLog | WhileLogging | AfterLog | WhileApplying | AfterApply

  /** Whether the handler gets to its log record at all. */
  predicate Logs(s: Slave, m: Message) { !(m.Ask? && s.mode.Wait?) }

  /** The interrupted handler has created the file of its log record. */
  predicate Begun(s: Slave, m: Message, env: Env, p: Point) {
    Logs(s, m) && !p.BeforeLog? && env.dir && !env.log.Unopened?
  }

  /** The interrupted handler has written its log record. */
  predicate Recorded(s: Slave, m: Message, env: Env, p: Point) {
    Begun(s, m, env, p) && !p.WhileLogging? && env.log.Written?
  }

  /** The log that the interrupted handler leaves behind. */
  function LogAt(s: Slave, m: Message, env: Env, p: Point): seq<Record> {
    if Recorded(s, m, env, p) then s.log + [RecordOf(m)]
    else if Begun(s, m, env, p) then s.log + [Torn]
    else s.log
  }

  /** And the store. */
  function StoreAt(s: Slave, m: Message, env: Env, p: Point): Contents {
    if p.AfterApply? && m.Commit? && Executable(s, env) then StoreAfter(s, env) else s.store
  }

  /**
   By the time a commit is interrupted it has used a record that it cannot look at, or it
   leaves an empty entry file behind: it is between opening and writing the file, or has
   failed to write it.
   */
  predicate Damages(s: Slave, m: Message, env: Env, p: Point) {
    && m.Commit? && (p.WhileApplying? || p.AfterApply?)
    && (|| !Readable(s, env)
        || (Rewrites(s) && if p.WhileApplying? then !env.store.Refused? else env.store.Damaged?))
  }

  /**
   A crash in a handler and the rebuild that follows.  An empty entry file is met by the
   rebuild, or by the next commit if the commit was not logged.
   */
  function Recover(s: Slave, m: Message, env: Env, p: Point, u: Update): Recovered {
    if Damages(s, m, env, p) then Lost else Rebuild(LogAt(s, m, env, p), StoreAt(s, m, env, p), u)
  }

  /** Same store and same waiting status. */
  predicate SameAs(a: Slave, b: Slave) { a.store == b.store && (a.mode.Wait? <==> b.mode.Wait?) }

  ghost predicate RecoversAs(r: Recovered, s: Slave) { r.Back? && SameAs(r.slave, s) }

  /** Repeating the last request of the log changes nothing in the store. */
  ghost predicate Repeats(log: seq<Record>, store: Contents, u: Update) {
    Repeatable(log, store, u) && (u.Made? ==> Apply(store, LastReq(log).req) == store)
  }

  /** The log tells a store and a waiting status to a rebuild whose store update ends as `u` says. */
  ghost predicate Tells(log: seq<Record>, store: Contents, waiting: bool, u: Update) {
    && log != [] && Torn !in log
    && match Last(log)
       case Req(r) => !Overruns(r) && (waiting <==> Accepts(store, r))
       case CommitRec => !waiting && Repeats(log, store, u)
       case _ => !waiting
  }

  /** The log of a slave tells its store and its waiting status. */
  ghost predicate LogTellsState(s: Slave) { Tells(s.log, s.store, s.mode.Wait?, Made) }

  /** A restart outside a handler changes neither the store nor the waiting status exactly if the log tells them. */
  lemma RestartIsHarmless(s: Slave, u: Update)
    ensures RecoversAs(Rebuild(s.log, s.store, u), s) <==> Tells(s.log, s.store, s.mode.Wait?, u)
  {
    if s.log != [] {
      assert Last(s.log) in s.log;
    }
  }

  /**
   Whatever the slave was before, the log of a rebuilt slave tells its state exactly if the
   rebuild could update the store or had nothing to update.
   */
  lemma RebuiltTells(log: seq<Record>, store: Contents, u: Update)
    requires Rebuild(log, store, u).Back?
    ensures LogTellsState(Rebuild(log, store, u).slave) <==>
            (Last(log).CommitRec? && !u.Made? ==> Apply(store, LastReq(log).req) == store)
  {
    assert Last(log) in log;
    if Last(log).CommitRec? {
      ApplyTwice(store, LastReq(log).req);
    }
  }

  /**
   The record of the message makes a rebuild do something else than the handler did: it
   cannot hold the value, the store update failed, or a commit follows no vote and the last
   request of the log is not in the store.
   */
  ghost predicate Misleads(s: Slave, m: Message, env: Env) {
    match m
    case Ask(r) => Overruns(r)
    case Commit =>
      if s.log != [] && Last(s.log).Req? then !env.store.Made? && Apply(s.store, Last(s.log).req) != s.store
      else !Repeats(s.log, s.store, Made)
    case Abort => false
  }

  /**
   The handler could not open a log file and the log still tells its state: a vote to commit,
   to abort, a commit or an abort is what a rebuild makes of the record before it.
   */
  ghost predicate NeedsNoRecord(s: Slave, m: Message, env: Env) {
    var votes := m.Ask? && env.dir && Accepts(s.store, m.req);
    && s.log != []
    && match Last(s.log)
       case Req(r) =>
         && !Overruns(r)
         && (votes <==> Accepts(if m.Commit? && env.store.Made? then Apply(s.store, r) else s.store, r))
       case CommitRec => !votes && Repeats(s.log, s.store, Made)
       case _ => !votes
  }

  /** What becomes of the record of the message keeps the log in step with the state. */
  ghost predicate InStep(s: Slave, m: Message, env: Env) {
    if !env.dir || env.log.Unopened? then NeedsNoRecord(s, m, env)
    else env.log.Written? && !Misleads(s, m, env)
  }

  lemma LastReqSnoc(log: seq<Record>, x: Record)
    ensures LastReq(log + [x]) == if x.Req? then x else LastReq(log)
  {
    assert (log + [x])[..|log + [x]| - 1] == log;
  }

  /**
   A handler leaves a log that tells its state exactly if no record is torn and this one was
   written and does not mislead, or was not begun and is not needed.
   */
  lemma HandleTells(s: Slave, m: Message, env: Env)
    requires Logs(s, m) && !Handle(s, m, env).1.Undefined?
    ensures LogTellsState(Handle(s, m, env).0) <==> Torn !in s.log && InStep(s, m, env)
  {
    hide Apply, Breaks, Overruns, LastReq;
    var log' := Handle(s, m, env).0.log;
    if s.log != [] {
      assert Last(s.log) in s.log;
    }
    if env.dir && env.log.Written? {
      WrittenTells(s, m, env);
    } else if env.dir && env.log.Unwritten? {
      assert log'[|s.log|] == Torn;
    }
  }

  lemma WrittenTells(s: Slave, m: Message, env: Env)
    requires Logs(s, m) && !Handle(s, m, env).1.Undefined? && env.dir && env.log.Written?
    ensures LogTellsState(Handle(s, m, env).0) <==> Torn !in s.log && !Misleads(s, m, env)
  {
    hide Apply, LastReq;
    LastReqSnoc(s.log, RecordOf(m));
    assert Last(s.log + [RecordOf(m)]) == RecordOf(m);
    if m.Commit? && Last(s.log).Req? {
      ApplyTwice(s.store, Last(s.log).req);
      LastReqIsLast(s.log);
    }
  }

  lemma LastReqIsLast(log: seq<Record>)
    requires log != [] && Last(log).Req?
    ensures LastReq(log) == Last(log)
  {
  }

  // ----- what a committed request does -----

  /** The store has the effect of the request and is otherwise as before. */
  ghost predicate Done(before: Contents, after: Contents, r: Request) {
    && (r.PutReq? ==> r.key in after && after[r.key] == r.value)
    && (r.DelReq? ==> r.key !in after)
    && forall k :: k != r.key ==> (k in after <==> k in before) && (k in after ==> after[k] == before[k])
  }

  /** The request is one that the store can take: keys and values of at most 1024 characters, and something to delete. */
  predicate Fitting(store: Contents, r: Request) {
    |r.key| <= 1024 && (if r.PutReq? then |r.value| <= 1024 else r.key in store)
  }

  /** Applying a request that fits does it, and applying another changes nothing. */
  lemma ApplyDoes(store: Contents, r: Request)
    ensures if Fitting(store, r) then Done(store, Apply(store, r), r) else Apply(store, r) == store
  {
  }

  /**
   A slave votes for a request exactly if it fits.  After the vote and the commit the request
   is done, unless its value fills the buffer.
   */
  lemma VotedAndCommitted(s: Slave, r: Request)
    requires !s.mode.Wait?
    ensures var (voted, vote) := Handle(s, Ask(r), SOUND);
      var (committed, answer) := Handle(voted, Commit, SOUND);
      && vote == (if Fitting(s.store, r) then VoteCommit else VoteAbort)
      && voted.store == s.store
      && (Fitting(s.store, r) && !(r.PutReq? && |r.value| == 1024) ==> answer == Ack && Done(s.store, committed.store, r))
      && Handle(voted, Abort, SOUND).0.store == s.store
  {
    ApplyDoes(s.store, r);
    assert Last(s.log + [Req(r)]) == Req(r);
  }

  /** No request after position `i` that the store could take is about `key`. */
  ghost predicate LastOn(store: Contents, rs: seq<Request>, key: string, i: nat)
    requires i < |rs|
  {
    && rs[i].key == key && Fitting(ApplyAll(store, rs[..i]), rs[i])
    && forall j :: i < j < |rs| && rs[j].key == key ==> !Fitting(ApplyAll(store, rs[..j]), rs[j])
  }

  /** A sequence of requests leaves under a key what the last one on it that fitted says. */
  lemma {:induction false} LastCommittedCounts(store: Contents, rs: seq<Request>, key: string, i: nat)
    requires i < |rs| && LastOn(store, rs, key, i)
    ensures rs[i].PutReq? ==> key in ApplyAll(store, rs) && ApplyAll(store, rs)[key] == rs[i].value
    ensures rs[i].DelReq? ==> key !in ApplyAll(store, rs)
    decreases |rs|
  {
    hide Apply, Fitting;
    var n := |rs| - 1;
    ApplyDoes(ApplyAll(store, rs[..n]), rs[n]);
    if i < n {
      assert forall j :: 0 <= j <= n ==> rs[..n][..j] == rs[..j];
      LastCommittedCounts(store, rs[..n], key, i);
    }
  }

  /** And what was there before under a key that none of them is about. */
  lemma {:induction false} UntouchedKeyStays(store: Contents, rs: seq<Request>, key: string)
    requires forall r <- rs :: r.key != key
    ensures key in ApplyAll(store, rs) <==> key in store
    ensures key in store ==> ApplyAll(store, rs)[key] == store[key]
  {
    if rs != [] {
      var n := |rs| - 1;
      UntouchedKeyStays(store, rs[..n], key);
      ApplyDoes(ApplyAll(store, rs[..n]), rs[n]);
      assert rs[n] in rs;
    }
  }

  // ----- crash recovery -----

  /**
   What the rebuild after a crash needs.  A record that was written must not be behind a torn
   one, no store file may be damaged, the value of a request must fit the buffer, and a
   commit must find its request at the end of the log and get it into the store, or repeat
   what is stored.  Without a record, no torn one may be left, the store must be as before,
   and the log must have told the state.
   */
  ghost predicate Recoverable(s: Slave, m: Message, env: Env, p: Point, u: Update) {
    if Recorded(s, m, env, p) then
      && Torn !in s.log && !Damages(s, m, env, p)
      && match m
         case Ask(r) => !Overruns(r)
         case Commit =>
           if s.log != [] && Last(s.log).Req? then
             && !(u.Damaged? && Opens(s.store, Last(s.log).req))
             && (u.Made? || (p.AfterApply? && env.store.Made?) || Apply(s.store, Last(s.log).req) == s.store)
           else Repeats(s.log, s.store, u)
         case Abort => true
    else
      && !Begun(s, m, env, p) && !Damages(s, m, env, p)
      && StoreAt(s, m, env, p) == s.store && Tells(s.log, s.store, s.mode.Wait?, u)
  }

  /**
   Crash recovery, for every slave, a crash at every point of a handler, and every outcome of
   its file operations.  If the record of the message was written, the rebuilt slave has the
   store and the waiting status of the message having been handled completely, and if not,
   those of the message never having arrived, exactly if the crash is recoverable.
   */
  lemma CrashRecovery(s: Slave, m: Message, env: Env, p: Point, u: Update)
    requires Recorded(s, m, env, p) ==> !Handle(s, m, SOUND).1.Undefined?
    ensures var goal := if Recorded(s, m, env, p) then Handle(s, m, SOUND).0 else s;
      RecoversAs(Recover(s, m, env, p, u), goal) <==> Recoverable(s, m, env, p, u)
  {
    hide Apply, LastReq, Breaks, Overruns, Opens;
    var log := LogAt(s, m, env, p);
    if Recorded(s, m, env, p) {
      RecoverRecorded(s, m, env, p, u);
    } else if Begun(s, m, env, p) {
      assert log[|s.log|] == Torn;
    } else {
      RecoverUnrecorded(s, m, env, p, u);
    }
  }

  lemma RecoverUnrecorded(s: Slave, m: Message, env: Env, p: Point, u: Update)
    requires !Begun(s, m, env, p)
    ensures RecoversAs(Recover(s, m, env, p, u), s) <==> Recoverable(s, m, env, p, u)
  {
    hide Apply, LastReq, Opens, Breaks;
    RestartIsHarmless(s, u);
    if StoreAt(s, m, env, p) != s.store {
      assert Last(s.log).Req?;
    }
  }

  lemma RecoverRecorded(s: Slave, m: Message, env: Env, p: Point, u: Update)
    requires Recorded(s, m, env, p) && !Handle(s, m, SOUND).1.Undefined?
    ensures RecoversAs(Recover(s, m, env, p, u), Handle(s, m, SOUND).0) <==> Recoverable(s, m, env, p, u)
  {
    hide Apply, LastReq, Opens, Breaks;
    var log := LogAt(s, m, env, p);
    assert Last(log) == RecordOf(m) && (Torn in log <==> Torn in s.log);
    if m.Commit? {
      if Last(s.log).Req? {
        RecoverCommit(s, env, p, u);
      } else {
        RecoverRepeat(s, env, p, u);
      }
    }
  }

  lemma RecoverCommit(s: Slave, env: Env, p: Point, u: Update)
    requires Recorded(s, Commit, env, p) && !Handle(s, Commit, SOUND).1.Undefined? && Last(s.log).Req?
    ensures RecoversAs(Recover(s, Commit, env, p, u), Handle(s, Commit, SOUND).0) <==> Recoverable(s, Commit, env, p, u)
  {
    hide Apply, LastReq, Opens, Breaks;
    var log, r := LogAt(s, Commit, env, p), Last(s.log).req;
    LastReqSnoc(s.log, CommitRec);
    LastReqIsLast(s.log);
    assert Last(log) == CommitRec && (Torn in log <==> Torn in s.log);
    ApplyTwice(s.store, r);
    OpensAgain(s.store, r);
  }

  lemma OpensAgain(store: Contents, r: Request)
    ensures Opens(Apply(store, r), r) <==> Opens(store, r)
  {
  }

  lemma RecoverRepeat(s: Slave, env: Env, p: Point, u: Update)
    requires Recorded(s, Commit, env, p) && !Handle(s, Commit, SOUND).1.Undefined? && !Last(s.log).Req?
    ensures RecoversAs(Recover(s, Commit, env, p, u), Handle(s, Commit, SOUND).0) <==> Recoverable(s, Commit, env, p, u)
  {
    hide Apply, LastReq, Opens, Breaks;
    var log := LogAt(s, Commit, env, p);
    LastReqSnoc(s.log, CommitRec);
    assert Last(log) == CommitRec && (Torn in log <==> Torn in s.log);
  }

  // ----- runs of one slave -----

  /** What happens to a slave: it handles a message, crashes while it does and is rebuilt, or is restarted. */
  datatype Event =
    | Handles(m: Message, env: Env)
    | CrashIn(m: Message, env: Env, p: Point, u: Update)
    | Restart(u: Update)

  function AfterEvent(s: Slave, e: Event): Recovered {
    match e
    case Handles(m, env) =>
      var (s', answer) := Handle(s, m, env);
      if answer.Undefined? then Lost else Back(s')
    case CrashIn(m, env, p, u) => Recover(s, m, env, p, u)
    case Restart(u) => Rebuild(s.log, s.store, u)
  }

  function AfterEvents(s: Slave, es: seq<Event>): Recovered
    decreases |es|
  {
    if es == [] then Back(s)
    else if AfterEvent(s, es[0]).Lost? then Lost
    else AfterEvents(AfterEvent(s, es[0]).slave, es[1..])
  }

  /** The rebuild does not damage the store file of the request that the log ends with. */
  ghost predicate Spares(s: Slave, u: Update) {
    s.log != [] && Last(s.log).CommitRec? && u.Damaged? && LastReq(s.log).Req? ==> !Opens(s.store, LastReq(s.log).req)
  }

  /** A rebuild can act on the record that the crashed handler wrote. */
  ghost predicate RecordServes(s: Slave, m: Message, env: Env, p: Point, u: Update) {
    match m
    case Ask(r) => !Overruns(r)
    case Commit =>
      && Repeatable(s.log, s.store, u)
      && (u.Made? || Apply(StoreAt(s, m, env, p), LastReq(s.log).req) == StoreAt(s, m, env, p))
    case Abort => true
  }

  /** The event is defined and keeps the log in step. */
  ghost predicate Harmless(s: Slave, e: Event) {
    match e
    case Handles(m, env) => !Handle(s, m, env).1.Undefined? && (Logs(s, m) ==> InStep(s, m, env))
    case CrashIn(m, env, p, u) =>
      && !Damages(s, m, env, p)
      && (Begun(s, m, env, p) ==> Recorded(s, m, env, p))
      && if Begun(s, m, env, p) then RecordServes(s, m, env, p, u) else Spares(s, u)
    case Restart(u) => Spares(s, u)
  }

  /** One event keeps the log in step with the state exactly if it is harmless. */
  lemma EventKeepsLog(s: Slave, e: Event)
    requires LogTellsState(s)
    ensures (AfterEvent(s, e).Back? && LogTellsState(AfterEvent(s, e).slave)) <==> Harmless(s, e)
  {
    hide Apply, LastReq, Breaks, Opens, Recover;
    match e
    case Handles(m, env) =>
      if Logs(s, m) && !Handle(s, m, env).1.Undefined? {
        HandleTells(s, m, env);
      }
    case Restart(u) => RestartKeepsLog(s, s.store, u);
    case CrashIn(m, env, p, u) => CrashKeepsLog(s, m, env, p, u);
  }

  /** A rebuild from a log that told the state, for a store that may have the last request by now. */
  lemma RestartKeepsLog(s: Slave, store: Contents, u: Update)
    requires LogTellsState(s)
    requires Last(s.log).Req? || store == s.store
    ensures var back := Rebuild(s.log, store, u);
      (back.Back? && LogTellsState(back.slave)) <==> Spares(s, u)
  {
    hide Apply, LastReq, Breaks, Opens;
    assert Last(s.log) in s.log;
    if Rebuild(s.log, store, u).Back? {
      RebuiltTells(s.log, store, u);
    }
  }

  lemma CrashKeepsLog(s: Slave, m: Message, env: Env, p: Point, u: Update)
    requires LogTellsState(s)
    ensures var e := CrashIn(m, env, p, u);
      (AfterEvent(s, e).Back? && LogTellsState(AfterEvent(s, e).slave)) <==> Harmless(s, e)
  {
    hide Apply, LastReq, Breaks, Opens, Tells, Rebuild;
    if Damages(s, m, env, p) {
    } else if Recorded(s, m, env, p) {
      RecordKeepsLog(s, m, env, p, u);
    } else if Begun(s, m, env, p) {
      TornIsLost(s.log, StoreAt(s, m, env, p), u);
    } else {
      assert StoreAt(s, m, env, p) != s.store ==> Last(s.log).Req?;
      LogIsNotEmpty(s);
      RestartKeepsLog(s, StoreAt(s, m, env, p), u);
    }
  }

  lemma LogIsNotEmpty(s: Slave)
    requires LogTellsState(s)
    ensures s.log != [] && Torn !in s.log
  {
  }

  lemma TornIsLost(log: seq<Record>, store: Contents, u: Update)
    ensures Rebuild(log + [Torn], store, u).Lost?
  {
    assert (log + [Torn])[|log|] == Torn;
  }

  lemma RecordKeepsLog(s: Slave, m: Message, env: Env, p: Point, u: Update)
    requires LogTellsState(s) && Recorded(s, m, env, p)
    ensures var back := Rebuild(LogAt(s, m, env, p), StoreAt(s, m, env, p), u);
      (back.Back? && LogTellsState(back.slave)) <==> RecordServes(s, m, env, p, u)
  {
    hide Apply, LastReq, Breaks, Opens, Tells;
    var log, store := LogAt(s, m, env, p), StoreAt(s, m, env, p);
    LogIsNotEmpty(s);
    LastReqSnoc(s.log, RecordOf(m));
    assert Last(log) == RecordOf(m) && Torn !in log;
    if Rebuild(log, store, u).Back? {
      RebuiltTells(log, store, u);
    }
    if m.Commit? && Last(s.log).Req? {
      LastReqIsLast(s.log);
      OpensAgain(s.store, Last(s.log).req);
    }
  }

  /** Every event of the run is harmless when it happens. */
  ghost predicate AllHarmless(s: Slave, es: seq<Event>)
    decreases |es|
  {
    es != [] ==>
      && Harmless(s, es[0])
      && (AfterEvent(s, es[0]).Back? ==> AllHarmless(AfterEvent(s, es[0]).slave, es[1..]))
  }

  /** The log tells the state after every prefix of the run. */
  ghost predicate AlwaysTells(s: Slave, es: seq<Event>) {
    forall k :: 0 <= k <= |es| ==> AfterEvents(s, es[..k]).Back? && LogTellsState(AfterEvents(s, es[..k]).slave)
  }

  /**
   Over every run of messages, crashes and restarts, the log tells the state all the time
   exactly if every event is harmless.
   */
  lemma {:induction false} ReachableLog(s: Slave, es: seq<Event>)
    requires LogTellsState(s)
    ensures AlwaysTells(s, es) <==> AllHarmless(s, es)
    decreases |es|
  {
    hide LogTellsState, Harmless, AfterEvent;
    if es == [] {
      assert es[..0] == [];
    } else {
      EventKeepsLog(s, es[0]);
      forall k | 0 < k <= |es|
        ensures AfterEvents(s, es[..k]) == if AfterEvent(s, es[0]).Lost? then Lost
                                           else AfterEvents(AfterEvent(s, es[0]).slave, es[1..][..k - 1])
      {
        assert es[..k][0] == es[0] && es[..k][1..] == es[1..][..k - 1];
      }
      PrefixesShift(s, es);
      if Harmless(s, es[0]) {
        ReachableLog(AfterEvent(s, es[0]).slave, es[1..]);
      }
    }
  }

  /** The prefixes of a run are the empty one and those that start with its first event. */
  lemma PrefixesShift(s: Slave, es: seq<Event>)
    requires es != [] && LogTellsState(s)
    ensures AlwaysTells(s, es) <==>
            && AfterEvent(s, es[0]).Back? && LogTellsState(AfterEvent(s, es[0]).slave)
            && AlwaysTells(AfterEvent(s, es[0]).slave, es[1..])
  {
    hide LogTellsState, AfterEvent;
    forall k | 0 < k <= |es|
      ensures AfterEvents(s, es[..k]) == if AfterEvent(s, es[0]).Lost? then Lost
                                         else AfterEvents(AfterEvent(s, es[0]).slave, es[1..][..k - 1])
    {
      assert es[..k][0] == es[0] && es[..k][1..] == es[1..][..k - 1];
    }
    if AlwaysTells(s, es) {
      assert AfterEvents(s, es[..1]).Back?;
      assert es[1..][..0] == [];
      if AfterEvent(s, es[0]).Back? {
        forall k | 0 <= k <= |es[1..]|
          ensures var r := AfterEvents(AfterEvent(s, es[0]).slave, es[1..][..k]); r.Back? && LogTellsState(r.slave)
        {
          assert AfterEvents(s, es[..k + 1]).Back?;
        }
      }
    }
  }

  /**
   A fresh slave: the first request starts a log that tells the state exactly if its record
   is written and does not mislead.
   */
  lemma FirstRequest(s: Slave, r: Request, env: Env)
    requires s.log == [] && !s.mode.Wait?
    ensures LogTellsState(Handle(s, Ask(r), env).0) <==> env.dir && env.log.Written? && !Overruns(r)
  {
    HandleTells(s, Ask(r), env);
  }

  /** A slave that finds no directory votes to abort, and the log told so before and tells so after. */
  lemma InaccessibleVoteRecovers(s: Slave, r: Request, env: Env)
    requires LogTellsState(s) && !s.mode.Wait? && !env.dir
    ensures var (s', answer) := Handle(s, Ask(r), env);
      answer == VoteAbort && s'.log == s.log && LogTellsState(s')
  {
    HandleTells(s, Ask(r), env);
  }

  // ----- inputs that recovery fails for -----

  /** A repeated commit after an abort: the rebuilt slave stores a pair whose transaction was aborted. */
  lemma StrayCommitRevivesAbort()
    ensures var s := Slave([Req(PutReq("k", "v")), AbortRec], map[], Ready);
      && LogTellsState(s)
      && Handle(s, Commit, SOUND).0.store == map[]
      && Recover(s, Commit, SOUND, AfterLog, Made) == Back(Slave(s.log + [CommitRec], map["k" := "v"], Init))
  {
    var s := Slave([Req(PutReq("k", "v")), AbortRec], map[], Ready);
    assert s.log[..1] == [Req(PutReq("k", "v"))];
    assert LastReq(s.log) == LastReq(s.log[..1]) == Req(PutReq("k", "v"));
    LastReqSnoc(s.log, CommitRec);
  }

  /**
   An abort that is acknowledged without the directory: nothing is logged, the rebuilt slave
   waits again, refuses the next request, and a commit then stores the aborted pair.
   */
  lemma UnloggedAbortIsForgotten(next: Request)
    ensures var s := Slave([Req(PutReq("k", "v"))], map[], Wait);
      var (aborted, answer) := Handle(s, Abort, Env(false, Unopened, Refused));
      && LogTellsState(s) && answer == Ack && aborted == s.(mode := Ready)
      && Rebuild(aborted.log, aborted.store, Made) == Back(s)
      && Handle(s, Ask(next), SOUND) == (s, Rejected)
      && Handle(s, Commit, SOUND).0.store == map["k" := "v"]
  {
  }

  /** A vote to commit whose log file cannot be opened: the rebuilt slave does not know of it. */
  lemma UnloggedVoteIsForgotten()
    ensures var s := Slave([AbortRec], map[], Ready);
      var (voted, answer) := Handle(s, Ask(PutReq("k", "v")), Env(true, Unopened, Made));
      && LogTellsState(s) && answer == VoteCommit && voted.mode == Wait
      && Rebuild(voted.log, voted.store, Made) == Back(s.(mode := Init))
  {
  }

  /** A record that is not completely written, without any crash: the slave votes and can never be rebuilt. */
  lemma UnwrittenRecordIsFatal(u: Update)
    ensures var s := Slave([AbortRec], map[], Ready);
      var (voted, answer) := Handle(s, Ask(PutReq("k", "v")), Env(true, Unwritten, Made));
      && LogTellsState(s) && answer == VoteCommit
      && Handle(voted, Commit, SOUND).1 == Undefined
      && Rebuild(voted.log, voted.store, u) == Lost
  {
    TornIsLost([AbortRec], map[], u);
  }

  /** A crash while the entry of a committed put is written: the log is complete and the slave cannot be rebuilt. */
  lemma HalfWrittenEntryIsFatal(u: Update)
    ensures var s := Slave([Req(PutReq("k", "v"))], map[], Wait);
      && LogTellsState(s)
      && Recover(s, Commit, SOUND, WhileApplying, u) == Lost
      && RecoversAs(Recover(s, Commit, SOUND, AfterLog, Made), Handle(s, Commit, SOUND).0)
      && RecoversAs(Recover(s, Commit, SOUND, AfterApply, Made), Handle(s, Commit, SOUND).0)
  {
    var s := Slave([Req(PutReq("k", "v"))], map[], Wait);
    CrashRecovery(s, Commit, SOUND, AfterLog, Made);
    CrashRecovery(s, Commit, SOUND, AfterApply, Made);
  }

  /** The same if the entry could not be written and the crash comes only after that. */
  lemma UnwrittenEntryIsFatal(p: Point, u: Update)
    requires p.WhileApplying? || p.AfterApply?
    ensures var s := Slave([Req(PutReq("k", "v"))], map[], Wait);
      var env := Env(true, Written, Damaged);
      && LogTellsState(s) && Handle(s, Commit, env).1 == Undefined
      && Recover(s, Commit, env, p, u) == Lost
      && RecoversAs(Recover(s, Commit, env, AfterLog, Made), Handle(s, Commit, SOUND).0)
  {
    CrashRecovery(Slave([Req(PutReq("k", "v"))], map[], Wait), Commit, Env(true, Written, Damaged), AfterLog, Made);
  }

  /** A value of just the length the store accepts can neither be committed nor rebuilt. */
  lemma LongestValueBreaks()
    ensures var r := PutReq("k", seq(MAX_VALLEN, _ => 'x'));
      var (voted, answer) := Handle(Slave([AbortRec], map[], Ready), Ask(r), SOUND);
      && answer == VoteCommit
      && Handle(voted, Commit, SOUND).1 == Undefined
      && Rebuild(voted.log, voted.store, Made) == Lost
  {
  }

  /** A longer one is refused, but its record still breaks the rebuild. */
  lemma RefusedValueBreaks(v: string)
    requires |v| > MAX_VALLEN
    ensures var (voted, answer) := Handle(Slave([AbortRec], map[], Ready), Ask(PutReq("k", v)), SOUND);
      answer == VoteAbort && voted.mode == Ready && Rebuild(voted.log, voted.store, Made) == Lost
  {
  }
}
