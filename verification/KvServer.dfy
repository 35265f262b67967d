/**
 kvserver.c: a write-through cache in front of the store, and the two-phase commit handler
 on top of both.  What the cache operations keep is stated on the sets as values of the
 second-chance policy; the server works on the objects.
 */
module KvServer {
  import opened KvStore
  import opened Tpc
  import Cache
  import SC = SecondChance
  import TpcLog

  /** Every cached pair is in its own set and in the store. */
  ghost predicate Coherent(sets: seq<SC.Set>, setOf: string -> nat, contents: map<string, string>) {
    forall i, k, v :: 0 <= i < |sets| && SC.Cached(sets[i], k, v) ==>
      i == setOf(k) % |sets| && k in contents && contents[k] == v
  }

  ghost predicate SetsOk(sets: seq<SC.Set>) {
    |sets| > 0 && forall s <- sets :: SC.Ok(s)
  }

  // ----- what each cache operation keeps -----

  lemma TouchKeeps(sets: seq<SC.Set>, setOf: string -> nat, contents: map<string, string>, key: string)
    requires SetsOk(sets) && Coherent(sets, setOf, contents)
    ensures var i := setOf(key) % |sets|;
      SetsOk(sets[i := SC.Touch(sets[i], key)]) && Coherent(sets[i := SC.Touch(sets[i], key)], setOf, contents)
  {
    hide SC.Touch, SC.Cached, SC.Ok;
    var i := setOf(key) % |sets|;
    SC.OthersKeepOk(sets[i], key);
    var sets' := sets[i := SC.Touch(sets[i], key)];
    forall j, k, v | 0 <= j < |sets'| && SC.Cached(sets'[j], k, v)
      ensures j == setOf(k) % |sets'| && k in contents && contents[k] == v
    {
      if j == i { SC.TouchPairs(sets[i], key, k, v); }
      assert SC.Cached(sets[j], k, v);
    }
  }

  /** Putting a pair into the cache, together with the store. */
  lemma PutKeeps(sets: seq<SC.Set>, setOf: string -> nat, contents: map<string, string>, key: string, value: string)
    requires SetsOk(sets) && Coherent(sets, setOf, contents)
    ensures var i := setOf(key) % |sets|;
      && SetsOk(sets[i := SC.Put(sets[i], key, value)])
      && Coherent(sets[i := SC.Put(sets[i], key, value)], setOf, contents[key := value])
  {
    hide SC.Put, SC.Cached, SC.Ok;
    var i := setOf(key) % |sets|;
    SC.PutKeepsOk(sets[i], key, value);
    var sets' := sets[i := SC.Put(sets[i], key, value)];
    forall j, k, v | 0 <= j < |sets'| && SC.Cached(sets'[j], k, v)
      ensures j == setOf(k) % |sets'| && k in contents[key := value] && contents[key := value][k] == v
    {
      if j == i {
        SC.PutPairs(sets[i], key, value, k, v);
      } else {
        assert SC.Cached(sets[j], k, v);
        assert k != key;
      }
    }
  }

  /** Deleting a key from its cache set; after that the store may drop it too. */
  lemma DelKeeps(sets: seq<SC.Set>, setOf: string -> nat, contents: map<string, string>, key: string)
    requires SetsOk(sets) && Coherent(sets, setOf, contents)
    ensures var i := setOf(key) % |sets|;
      && SetsOk(sets[i := SC.Del(sets[i], key)])
      && Coherent(sets[i := SC.Del(sets[i], key)], setOf, contents)
      && Coherent(sets[i := SC.Del(sets[i], key)], setOf, contents - {key})
  {
    hide SC.Del, SC.Cached, SC.Ok;
    var i := setOf(key) % |sets|;
    SC.OthersKeepOk(sets[i], key);
    var sets' := sets[i := SC.Del(sets[i], key)];
    forall j, k, v | 0 <= j < |sets'| && SC.Cached(sets'[j], k, v)
      ensures j == setOf(k) % |sets'| && k in contents && contents[k] == v && k != key
    {
      if j == i {
        SC.DelPairs(sets[i], key, k, v);
      } else {
        assert SC.Cached(sets[j], k, v);
      }
    }
  }

  /** A hit in the set of the key is a pair of the store. */
  lemma HitIsStored(sets: seq<SC.Set>, setOf: string -> nat, contents: map<string, string>, key: string)
    requires SetsOk(sets) && Coherent(sets, setOf, contents)
    ensures var items := sets[setOf(key) % |sets|].items;
      var j := SC.Index(items, key);
      j < |items| ==> key in contents && contents[key] == items[j].value
  {
    var i := setOf(key) % |sets|;
    var items := sets[i].items;
    var j := SC.Index(items, key);
    if j < |items| {
      assert items[j] in items;
      assert SC.Cached(sets[i], key, items[j].value);
    }
  }

  // ----- the server as a plain map -----

  /**
   GETREQ, PUTREQ and DELREQ outside two-phase commit.  `opens` says whether the store file
   can be opened for writing, `errno` why it cannot be removed or renamed, or 0.
   */
  datatype Op = GetOp(key: string) | PutOp(key: string, value: string, opens: bool) | DelOp(key: string, errno: nat)

  /** The error code and, for a successful get, the value. */
  datatype Reply = Reply(err: int, value: string)

  function MapAfter(m: map<string, string>, op: Op): map<string, string> {
    match op
    case GetOp(_) => m
    case PutOp(k, v, opens) => if |k| <= MAX_KEYLEN && |v| <= MAX_VALLEN && opens then m[k := v] else m
    case DelOp(k, errno) => if errno == 0 then m - {k} else m
  }

  function MapReply(m: map<string, string>, op: Op): Reply {
    match op
    case GetOp(k) =>
      if |k| > MAX_KEYLEN then Reply(ERRKEYLEN, "")
      else if k in m then Reply(0, m[k]) else Reply(ERRNOKEY, "")
    case PutOp(k, v, opens) =>
      Reply(if |k| > MAX_KEYLEN then ERRKEYLEN else if |v| > MAX_VALLEN then ERRVALLEN
            else if opens then 0 else ERRFILACCESS, "")
    case DelOp(k, errno) => Reply(if k in m then errno else ERRNOKEY, "")
  }

  function MapRun(m: map<string, string>, ops: seq<Op>): map<string, string> {
    if ops == [] then m else MapAfter(MapRun(m, ops[..|ops| - 1]), ops[|ops| - 1])
  }

  lemma MapRunNone(m: map<string, string>)
    ensures MapRun(m, []) == m
  {
  }

  lemma MapRunSnoc(m: map<string, string>, ops: seq<Op>, i: nat)
    requires i < |ops|
    ensures MapRun(m, ops[..i + 1]) == MapAfter(MapRun(m, ops[..i]), ops[i])
  {
    assert ops[..i + 1][..i] == ops[..i];
  }

  /** The operation succeeds in changing what is stored under `key`. */
  predicate Writes(op: Op, key: string) {
    match op
    case GetOp(_) => false
    case PutOp(k, v, opens) => k == key && |k| <= MAX_KEYLEN && |v| <= MAX_VALLEN && opens
    case DelOp(k, errno) => k == key && errno == 0
  }

  /** The map holds under a key what the last successful put wrote, unless it was deleted since. */
  lemma {:induction false} LastWriteCounts(m: map<string, string>, ops: seq<Op>, key: string, i: nat)
    requires i < |ops| && Writes(ops[i], key)
    requires forall j :: i < j < |ops| ==> !Writes(ops[j], key)
    ensures ops[i].PutOp? ==> key in MapRun(m, ops) && MapRun(m, ops)[key] == ops[i].value
    ensures ops[i].DelOp? ==> key !in MapRun(m, ops)
    decreases |ops|
  {
    var n := |ops| - 1;
    if i < n {
      LastWriteCounts(m, ops[..n], key, i);
    }
  }

  class Server {
    const store: Store
    const cache: Cache.Cache
    const log: TpcLog.Log
    var mode: Mode

    ghost predicate Valid()
      reads this, store, log, cache, cache.foot
    {
      && store.Valid() && log.Valid() && cache.Valid() && {this, store, log} !! cache.foot
      && SetsOk(cache.states) && Coherent(cache.states, cache.setOf, store.contents)
    }

    /** kvserver_init on a store and a log that may already hold something. */
    constructor (store: Store, log: TpcLog.Log, setOf: string -> nat, numSets: nat, elemPerSet: nat)
      requires store.Valid() && log.Valid() && numSets > 0 && elemPerSet >= 2
      ensures Valid() && mode == Init && this.store == store && this.log == log
      ensures fresh(cache) && fresh(cache.foot)
    {
      this.store := store;
      this.log := log;
      cache := new Cache.Cache(setOf, numSets, elemPerSet);
      mode := Init;
    }

    /** kvserver_get: the value of the stored pair, from the cache if it is there. */
    method Get(key: string) returns (err: int, value: string)
      requires Valid()
      modifies cache, cache.foot
      ensures Valid() && fresh(cache.foot - old(cache.foot))
      ensures |key| > MAX_KEYLEN ==> err == ERRKEYLEN
      ensures err == 0 ==> key in store.contents && value == store.contents[key]
      ensures |key| <= MAX_KEYLEN && store.dirExists ==> err == if key in store.contents then 0 else ERRNOKEY
      ensures |key| <= MAX_KEYLEN && !store.dirExists ==>
        var items := old(cache.states)[cache.Index(key)].items;
        err == if SC.Index(items, key) < |items| then 0 else ERRFILACCESS
    {
      hide Coherent, SetsOk, Chained, Cache.Cache.Valid, SC.Touch, SC.Put;
      if |key| > MAX_KEYLEN {
        return ERRKEYLEN, "";
      }
      HitIsStored(cache.states, cache.setOf, store.contents, key);
      TouchKeeps(cache.states, cache.setOf, store.contents, key);
      err, value := cache.Get(key);
      if err < 0 {
        err, value := store.Get(key);
        if err == 0 {
          PutKeeps(cache.states, cache.setOf, store.contents, key, value);
          assert store.contents[key := value] == store.contents;
          var _ := cache.Put(key, value);
        }
      }
    }

    /** kvserver_put: a pair that the store does not take does not get into the cache. */
    method Put(key: string, value: string, u: Update) returns (err: int)
      requires Valid() && (u.Damaged? ==> store.PutCheck(key, value) < 0)
      modifies store`files, store`contents, cache, cache.foot
      ensures Valid() && fresh(cache.foot - old(cache.foot))
      ensures err == if store.PutCheck(key, value) < 0 then store.PutCheck(key, value) else if u.Made? then 0 else ERRFILACCESS
      ensures store.contents == if err == 0 then old(store.contents)[key := value] else old(store.contents)
    {
      hide Coherent, SetsOk, Chained, Cache.Cache.Valid, SC.Put;
      err := store.PutCheck(key, value);
      if err < 0 {
        return;
      }
      PutKeeps(cache.states, cache.setOf, store.contents, key, value);
      err := store.Put(key, value, u);
      if err < 0 {
        return;
      }
      err := cache.Put(key, value);
    }

    /**
     kvserver_del: the key leaves the cache even if the store cannot drop it.  A key that is
     too long makes the code use a lock that does not exist.
     */
    method Del(key: string, errno: nat) returns (err: int)
      requires Valid() && |key| <= MAX_KEYLEN
      modifies store`files, store`contents, cache, cache.foot
      ensures Valid() && fresh(cache.foot - old(cache.foot))
      ensures store.dirExists ==> err == if key in old(store.contents) then errno else ERRNOKEY
      ensures !store.dirExists ==> err == 0 || err == ERRNOKEY
      ensures store.contents == if store.dirExists && errno == 0 then old(store.contents) - {key} else old(store.contents)
    {
      hide Coherent, SetsOk, Chained, Cache.Cache.Valid, SC.Del;
      DelKeeps(cache.states, cache.setOf, store.contents, key);
      HitIsStored(cache.states, cache.setOf, store.contents, key);
      var outcome := cache.Del(key);
      var check := store.DelCheck(key);
      if check == 0 {
        outcome := store.Del(key, errno);
      } else if store.dirExists {
        assert store.contents - {key} == store.contents;
      }
      err := outcome;
    }

    /** One request of kvserver_handle_no_tpc. */
    method Serve(op: Op) returns (reply: Reply)
      requires Valid() && store.dirExists && (op.DelOp? ==> |op.key| <= MAX_KEYLEN)
      modifies store`files, store`contents, cache, cache.foot
      ensures Valid() && fresh(cache.foot - old(cache.foot)) && store.contents == MapAfter(old(store.contents), op)
      ensures reply == MapReply(old(store.contents), op)
    {
      hide Coherent, SetsOk, Chained, Cache.Cache.Valid;
      match op
      case GetOp(k) =>
        var err, value := Get(k);
        reply := Reply(err, if err == 0 then value else "");
      case PutOp(k, v, opens) =>
        var err := Put(k, v, if opens then Made else Refused);
        reply := Reply(err, "");
      case DelOp(k, errno) =>
        var err := Del(k, errno);
        reply := Reply(err, "");
    }

    /** Any sequence of requests, one at a time: cache, eviction and hash chains never show. */
    method ServeAll(ops: seq<Op>) returns (replies: seq<Reply>)
      requires Valid() && store.dirExists
      requires forall op <- ops :: op.DelOp? ==> |op.key| <= MAX_KEYLEN
      modifies store`files, store`contents, cache, cache.foot
      ensures Valid() && fresh(cache.foot - old(cache.foot)) && store.contents == MapRun(old(store.contents), ops)
      ensures |replies| == |ops|
      ensures forall i :: 0 <= i < |ops| ==> replies[i] == MapReply(MapRun(old(store.contents), ops[..i]), ops[i])
    {
      hide Coherent, SetsOk, Chained, Cache.Cache.Valid, MapAfter, MapReply, MapRun;
      replies := [];
      ghost var m := store.contents;
      MapRunNone(m);
      var i := 0;
      assert ops[..0] == [];
      while i < |ops|
        invariant 0 <= i <= |ops| && |replies| == i
        invariant Valid() && store.contents == MapRun(m, ops[..i]) && fresh(cache.foot - old(cache.foot))
        invariant forall j :: 0 <= j < i ==> replies[j] == MapReply(MapRun(m, ops[..j]), ops[j])
      {
        assert ops[i] in ops;
        MapRunSnoc(m, ops, i);
        var reply := Serve(ops[i]);
        replies := replies + [reply];
        i := i + 1;
      }
      assert ops[..i] == ops;
    }

    // ----- two-phase commit -----

    /** The slave that this server is in the protocol. */
    ghost function Slave(): Tpc.Slave
      reads this, store, log
    {
      Tpc.Slave(log.records, store.contents, mode)
    }

    /** The last record of the log, found by walking the whole log. */
    method LastRecord() returns (entry: Record)
      requires Valid() && store.dirExists && log.records != []
      modifies log`iterpos
      ensures Valid() && entry == Last(log.records)
    {
      hide Coherent, SetsOk, Chained, Cache.Cache.Valid;
      log.IterateBegin();
      entry := Torn;
      while log.HasNext(store.dirExists)
        invariant log.Valid() && log.iterpos <= |log.records|
        invariant if log.iterpos > 0 then entry == log.records[log.iterpos - 1] else entry.Torn?
        modifies log`iterpos
        decreases |log.records| - log.iterpos
      {
        entry := log.Next(store.dirExists);
      }
    }

    /** Execute a logged request: kvserver_put or kvserver_del. */
    method Execute(r: Request, u: Update)
      requires Valid() && store.dirExists && !Faults(r) && !(u.Damaged? && Opens(store.contents, r))
      modifies store`files, store`contents, cache, cache.foot
      ensures Valid() && fresh(cache.foot - old(cache.foot))
      ensures store.contents == if u.Made? then Tpc.Apply(old(store.contents), r) else old(store.contents)
      ensures u.Made? && r.PutReq? && |r.key| <= MAX_KEYLEN && |r.value| <= MAX_VALLEN ==>
        store.contents == old(store.contents)[r.key := r.value]
      ensures u.Made? && r.DelReq? ==> store.contents == old(store.contents) - {r.key}
    {
      hide Coherent, SetsOk, Chained, Cache.Cache.Valid;
      match r
      case PutReq(k, v) =>
        var _ := Put(k, v, u);
      case DelReq(k) =>
        var _ := Del(k, if u.Made? then 0 else 1);
        assert k !in old(store.contents) ==> old(store.contents) - {k} == old(store.contents);
    }

    /** kvserver_put_check and kvserver_del_check. */
    method Check(r: Request) returns (ok: bool)
      requires Valid()
      ensures ok == (store.dirExists && Accepts(store.contents, r))
      ensures ok ==> |r.key| <= MAX_KEYLEN && if r.PutReq? then |r.value| <= MAX_VALLEN else r.key in store.contents
      ensures !ok && store.dirExists && |r.key| <= MAX_KEYLEN ==>
        if r.PutReq? then |r.value| > MAX_VALLEN else r.key !in store.contents
    {
      match r
      case PutReq(k, v) =>
        ok := store.PutCheck(k, v) == 0;
      case DelReq(k) =>
        var err := store.DelCheck(k);
        ok := err == 0;
    }

    /** kvserver_handle_tpc, where its behaviour is defined; the log and the store share one directory. */
    method HandleTpc(m: Message, env: Env, fault: TpcLog.Fault) returns (response: Response)
      requires Valid() && env.dir == store.dirExists && !Handle(Slave(), m, env).1.Undefined?
      modifies this, store`files, store`contents, log, cache, cache.foot
      ensures Valid() && fresh(cache.foot - old(cache.foot))
      ensures (Slave(), response) == Handle(old(Slave()), m, env)
    {
      hide Coherent, SetsOk, Chained, Cache.Cache.Valid, Accepts, Tpc.Apply;
      match m
      case Ask(r) =>
        if mode.Wait? {
          return Rejected;
        }
        var _ := log.Append(Req(r), env, fault);
        var ok := Check(r);
        response := if ok then VoteCommit else VoteAbort;
        mode := if ok then Wait else Ready;
      case Commit =>
        var entry := LastRecord();
        var _ := log.Append(CommitRec, env, fault);
        if entry.Req? {
          Execute(entry.req, env.store);
        }
        response := Ack;
        mode := Ready;
      case Abort =>
        var _ := log.Append(AbortRec, env, fault);
        response := Ack;
        mode := Ready;
    }

    /** The last record of the log, and its last request. */
    method ScanLog() returns (entry: Record, prev: Record)
      requires log.Valid() && store.dirExists && Torn !in log.records
      modifies log`iterpos
      ensures log.Valid() && (log.records != [] ==> entry == log.records[|log.records| - 1])
      ensures log.records == [] ==> entry.Torn?
      ensures prev == LastReq(log.records)
    {
      hide LastReq;
      log.IterateBegin();
      entry, prev := Torn, Torn;
      NoRequestYet();
      assert log.records[..log.iterpos] == [];
      while log.HasNext(store.dirExists)
        invariant log.Valid() && log.iterpos <= |log.records|
        invariant if log.iterpos > 0 then entry == log.records[log.iterpos - 1] else entry.Torn?
        invariant prev == LastReq(log.records[..log.iterpos])
        modifies log`iterpos
        decreases |log.records| - log.iterpos
      {
        ghost var done := log.iterpos;
        entry := log.Next(store.dirExists);
        assert log.records[..done + 1] == log.records[..done] + [log.records[done]];
        LastReqSnoc(log.records[..done], entry);
        if !entry.CommitRec? && !entry.AbortRec? {
          assert entry in log.records;
          prev := entry;
        }
      }
      assert log.records[..log.iterpos] == log.records;
    }

    /** kvserver_rebuild_state on a restarted server, where its behaviour is defined. */
    method Rebuild(u: Update)
      requires Valid() && store.dirExists && mode == Init
      requires Tpc.Rebuild(log.records, store.contents, u).Back?
      modifies this, store`files, store`contents, log`iterpos, cache, cache.foot
      ensures Valid() && fresh(cache.foot - old(cache.foot))
      ensures Back(Slave()) == Tpc.Rebuild(old(log.records), old(store.contents), u)
    {
      hide Coherent, SetsOk, Chained, Cache.Cache.Valid, Accepts, Tpc.Apply;
      var entry, prev := ScanLog();
      match entry
      case Req(r) =>
        var ok := Check(r);
        mode := if ok then Wait else Ready;
      case CommitRec =>
        Execute(prev.req, u);
      case _ =>
    }
  }

  lemma NoRequestYet()
    ensures LastReq([]) == Torn
  {
  }
}
