/** tpclog.c: a log of numbered files 0, 1, 2, ... that is scanned again after a restart. */
module TpcLog {
  import opened KvStore
  import opened Tpc

  const ENOMEM: int := 12

  /** Why a record is not completely written: no memory for it, fewer bytes written than asked for, or none and an error. */
  datatype Fault = NoMemory | ShortWrite | FailedWrite

  /** The failed write goes unnoticed: its result -1 is compared with an unsigned size. */
  function Reported(fault: Fault): int {
    match fault
    case NoMemory => ENOMEM
    case ShortWrite => ERRFILACCESS
    case FailedWrite => 0
  }

  class Log {
    var files: map<nat, Record>
    var nextid: nat
    var iterpos: nat

    /** The records from oldest to most recent. */
    ghost var records: seq<Record>

    ghost predicate Valid()
      reads this
    {
      nextid == |records| && Holds(files, records)
    }

    /** tpclog_init: the next free number is found by looking for the files one after the other. */
    constructor (files: map<nat, Record>, ghost records: seq<Record>)
      requires Holds(files, records)
      ensures Valid() && this.records == records && this.files == files
    {
      var id: nat := 0;
      while id in files
        invariant id <= |records|
        decreases |records| - id
      {
        id := id + 1;
      }
      this.files := files;
      nextid := id;
      iterpos := 0;
      this.records := records;
    }

    /**
     tpclog_log: a number is used up once the file of the record is open, and a record that is
     not completely written is torn.  `fault` says why it is not, if so.
     */
    method Append(r: Record, env: Env, fault: Fault) returns (err: int)
      requires Valid()
      modifies this`files, this`nextid, this`records
      ensures Valid() && records == Logged(old(records), r, env)
      ensures err == if !env.dir || env.log.Unopened? then ERRFILACCESS else if env.log.Written? then 0 else Reported(fault)
    {
      if !env.dir || env.log.Unopened? {
        return ERRFILACCESS;
      }
      var written := if env.log.Written? then r else Torn;
      files := files[nextid := written];
      nextid := nextid + 1;
      records := records + [written];
      err := if env.log.Written? then 0 else Reported(fault);
    }

    /** tpclog_iterate_begin. */
    method IterateBegin()
      modifies this`iterpos
      ensures iterpos == 0
    {
      iterpos := 0;
    }

    /** tpclog_iterate_has_next, which finds no file without the directory. */
    predicate HasNext(dir: bool)
      reads this
    {
      dir && iterpos in files
    }

    /** tpclog_iterate_next; a torn record stands for the null pointer it returns. */
    method Next(dir: bool) returns (r: Record)
      requires Valid()
      modifies this`iterpos
      ensures dir && old(iterpos) < |records| ==> r == records[old(iterpos)] && iterpos == old(iterpos) + 1
      ensures !dir || old(iterpos) >= |records| ==> r.Torn? && iterpos == old(iterpos)
    {
      if !HasNext(dir) {
        return Torn;
      }
      r := files[iterpos];
      iterpos := iterpos + 1;
    }

    /** tpclog_clear_log. */
    method Clear()
      requires Valid()
      modifies this`files, this`nextid, this`records
      ensures Valid() && records == []
    {
      var count: nat := 0;
      while count in files
        invariant count <= |records|
        invariant forall i: nat :: i in files <==> count <= i < |records|
        decreases |records| - count
      {
        files := files - {count};
        count := count + 1;
      }
      nextid := 0;
      records := [];
    }
  }

  /** The files are numbered without gaps and hold the records in order. */
  ghost predicate Holds(files: map<nat, Record>, records: seq<Record>) {
    && (forall i: nat :: i in files <==> i < |records|)
    && (forall i: nat :: i < |records| ==> files[i] == records[i])
  }
}
