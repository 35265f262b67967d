/**
 Whole runs of file system calls against what the calls themselves say: how often a file was
 opened and closed, and which names were created and removed.
 */
module FileCounts {
  import opened FileRuns
  import opened FileSys
  import opened FileSystem
  import opened FreeMap
  import InodeData

  // ---------- Names ----------

  /** The directory has this name for this file. */
  ghost predicate Bound(dir: seq<Slot>, name: string, f: nat) {
    exists i :: 0 <= i < |dir| && dir[i] == Entry(name, f)
  }

  /** A create succeeds exactly if the name is new and of 1 to 14 characters, a slot is free, and so are sectors. */
  ghost predicate Creates(st: State, name: string, size: nat) {
    && 1 <= |name| <= 14 && (forall f: nat :: !Bound(st.dir, name, f))
    && (exists i :: 0 <= i < |st.dir| && st.dir[i].Free?)
    && Fits(st.used, size)
  }

  lemma CreatesExactly(st: State, name: string, size: nat)
    ensures Creates(st, name, size) <==> Fits(st.used, size) && Addable(st.dir, name)
  {
    hide Fits;
    if HasName(st.dir, name) {
      var i :| 0 <= i < |st.dir| && st.dir[i].Entry? && st.dir[i].name == name;
      assert Bound(st.dir, name, st.dir[i].sector);
    }
  }

  /** What every call does to the directory. */
  lemma NamesAfter(st: State, call: Call, n: string, g: nat)
    requires Inv(st)
    ensures Bound(After(st, call).dir, n, g) <==>
            match call
            case Create(name, size) =>
              Bound(st.dir, n, g) || (Creates(st, name, size) && n == name && g == HeaderAt(st.used))
            case Remove(name) => Bound(st.dir, n, g) && n != name
            case _ => Bound(st.dir, n, g)
  {
    hide Creates, Disjoint, Stored, OpenOk, FirstFit;
    match call
    case Create(name, size) =>
      CreatesExactly(st, name, size);
      if Creates(st, name, size) {
        BoundUpdate(st.dir, FreeSlot(st.dir), Entry(name, HeaderAt(st.used)), n, g);
      }
    case Open(name) =>
    case Close(f) =>
    case Remove(name) =>
      var i := IndexOf(st.dir, name);
      if i < |st.dir| {
        NamedIsLive(st, i);
        BoundUpdate(st.dir, i, Free, n, g);
        OneEntry(st.dir, i, n, g);
      }
  }

  lemma BoundUpdate(dir: seq<Slot>, i: nat, slot: Slot, n: string, g: nat)
    requires i < |dir|
    ensures Bound(dir[i := slot], n, g) <==>
            slot == Entry(n, g) || exists k :: 0 <= k < |dir| && k != i && dir[k] == Entry(n, g)
  {
    var dir' := dir[i := slot];
    if slot == Entry(n, g) {
      assert dir'[i] == Entry(n, g);
    }
    if k :| 0 <= k < |dir| && k != i && dir[k] == Entry(n, g) {
      assert dir'[k] == Entry(n, g);
    }
    if Bound(dir', n, g) {
      var k :| 0 <= k < |dir'| && dir'[k] == Entry(n, g);
      assert k != i ==> dir[k] == Entry(n, g);
    }
  }

  /** Names are distinct: the other entries are exactly those with another name. */
  lemma OneEntry(dir: seq<Slot>, i: nat, n: string, g: nat)
    requires DirOk(dir) && i < |dir| && dir[i].Entry?
    ensures (exists k :: 0 <= k < |dir| && k != i && dir[k] == Entry(n, g)) <==> Bound(dir, n, g) && n != dir[i].name
  {
  }

  /** A created file has its size, and its sectors were free, are its own and are marked. */
  lemma CreateGives(st: State, name: string, size: nat)
    requires Inv(st) && Creates(st, name, size)
    ensures var st', f := After(st, Create(name, size)), HeaderAt(st.used);
      && f >= 0 && f in st'.heads && st'.heads[f].length == size && !Live(st, f)
      && |st'.used| == |st.used|
      && (forall s: nat :: s < |st.used| ==> (st'.used[s] <==> st.used[s] || Owns(f, st'.heads[f], s)))
      && (forall s: nat :: Owns(f, st'.heads[f], s) ==> s < |st.used| && !st.used[s])
  {
    hide FirstFit, Live, Stored, Disjoint, OpenOk, DirOk;
    CreatesExactly(st, name, size);
    FreshIsTaken(st, size);
    var f, head := HeaderAt(st.used), Head(DataAt(st.used, size), size);
    AddKeeps(st, Marks(st, f, head), FreeSlot(st.dir), name, f, head);
  }

  // ---------- Openers ----------

  /** The openers of file `f` after a call, of which there were `c`: an open by its name adds one, a close takes one. */
  ghost function NextCount(st: State, call: Call, f: nat, c: nat): nat {
    match call
    case Open(name) => if Bound(st.dir, name, f) then c + 1 else c
    case Close(g) => if g == f && c > 0 then c - 1 else c
    case _ => c
  }

  ghost function CountAfter(st: State, calls: seq<Call>, f: nat, c: nat): nat
    requires Inv(st)
    decreases |calls|
  {
    if calls == [] then c else
      StepKeeps(st, calls[0]);
      CountAfter(After(st, calls[0]), calls[1..], f, NextCount(st, calls[0], f, c))
  }

  /** The inode of `f` is in memory exactly as long as it has openers, and counts them. */
  ghost predicate Counts(st: State, f: nat, c: nat) {
    (f in st.open <==> c > 0) && (f in st.open ==> st.open[f].cnt == c)
  }

  lemma StepCounts(st: State, call: Call, f: nat, c: nat)
    requires Inv(st) && Counts(st, f, c)
    ensures Counts(After(st, call), f, NextCount(st, call, f, c))
  {
    hide Live, Stored, Disjoint, Named, Fits, Addable, FirstFit;
    match call
    case Create(name, size) =>
    case Open(name) =>
      var i := IndexOf(st.dir, name);
      if i < |st.dir| {
        NamedIsLive(st, i);
        BoundAt(st.dir, i, f);
      }
    case Close(g) =>
    case Remove(name) =>
      var i := IndexOf(st.dir, name);
      if i < |st.dir| {
        NamedIsLive(st, i);
      }
  }

  lemma BoundAt(dir: seq<Slot>, i: nat, f: nat)
    requires DirOk(dir) && i < |dir| && dir[i].Entry?
    ensures Bound(dir, dir[i].name, f) <==> f == dir[i].sector
  {
    assert dir[i] == Entry(dir[i].name, dir[i].sector);
  }

  /** Over every run, a file is open exactly if its opens outnumber its closes, and its count is the difference. */
  lemma {:induction false} RunCounts(st: State, calls: seq<Call>, f: nat, c: nat)
    requires Inv(st) && Counts(st, f, c)
    ensures Counts(AfterAll(st, calls), f, CountAfter(st, calls, f, c))
    decreases |calls|
  {
    hide Inv, Counts, After, NextCount;
    if calls != [] {
      StepKeeps(st, calls[0]);
      StepCounts(st, calls[0], f, c);
      RunCounts(After(st, calls[0]), calls[1..], f, NextCount(st, calls[0], f, c));
    }
  }

  // ---------- When sectors are given back ----------

  ghost predicate IsSystem(f: nat) { f == FREE_MAP_SECTOR || f == ROOT_DIR_SECTOR }

  ghost predicate Nameless(st: State, f: nat) { !IsSystem(f) && forall n: string :: !Bound(st.dir, n, f) }

  lemma NamelessExactly(st: State, f: nat)
    ensures Nameless(st, f) <==> !IsSystem(f) && !Named(st.dir, f)
  {
    if Named(st.dir, f) {
      var i :| 0 <= i < |st.dir| && st.dir[i] == Entry(EntryName(st.dir[i]), f);
      assert Bound(st.dir, EntryName(st.dir[i]), f);
    }
    if n: string :| Bound(st.dir, n, f) {
      var i :| 0 <= i < |st.dir| && st.dir[i] == Entry(n, f);
      assert st.dir[i] == Entry(EntryName(st.dir[i]), f);
    }
  }

  /**
   After any run, a close gives sectors back exactly if it is the last one of a file that has
   no name any more, and then all sectors of that file and no other.
   */
  lemma LastCloseReleases(st: State, calls: seq<Call>, f: nat, c: nat)
    requires Inv(st) && Counts(st, f, c)
    ensures var st1, k := AfterAll(st, calls), CountAfter(st, calls, f, c);
      && Inv(st1) && (k > 0 ==> f in st1.heads)
      && After(st1, Close(f)).used ==
         if k == 1 && Nameless(st1, f) then Released(st1.used, f, st1.heads[f]) else st1.used
  {
    hide Live, Stored, Disjoint, DirOk, After;
    RunKeeps(st, calls);
    RunCounts(st, calls, f, c);
    CloseByCount(AfterAll(st, calls), f, CountAfter(st, calls, f, c));
  }

  lemma CloseByCount(st: State, f: nat, c: nat)
    requires Inv(st) && Counts(st, f, c)
    ensures c > 0 ==> f in st.heads
    ensures After(st, Close(f)).used == if c == 1 && Nameless(st, f) then Released(st.used, f, st.heads[f]) else st.used
  {
    hide Live, Stored, Disjoint, DirOk, Named;
    NamelessExactly(st, f);
  }

  /** And a remove exactly if the file has a name and no openers. */
  lemma RemoveByCount(st: State, name: string, f: nat, c: nat)
    requires Inv(st) && Counts(st, f, c) && Bound(st.dir, name, f)
    ensures f in st.heads
    ensures After(st, Remove(name)).used == if c == 0 then Released(st.used, f, st.heads[f]) else st.used
  {
    hide Live, Stored, Disjoint;
    var i :| 0 <= i < |st.dir| && st.dir[i] == Entry(name, f);
    assert HasName(st.dir, name);
    BoundAt(st.dir, IndexOf(st.dir, name), f);
    RemoveReleases(st, name);
  }

  /** The file has a name or openers before and after every call of the run. */
  ghost predicate KeptThrough(st: State, calls: seq<Call>, f: nat, c: nat)
    requires Inv(st)
    decreases |calls|
  {
    (!Nameless(st, f) || c > 0) &&
    (calls == [] ||
     (StepKeeps(st, calls[0]); KeptThrough(After(st, calls[0]), calls[1..], f, NextCount(st, calls[0], f, c))))
  }

  /** As long as that is so the file keeps its sectors, marked and unshared, whatever else is created and removed. */
  lemma {:induction false} CountedFileKept(st: State, calls: seq<Call>, f: nat, c: nat)
    requires Inv(st) && Counts(st, f, c) && KeptThrough(st, calls, f, c)
    ensures var st' := AfterAll(st, calls);
      Inv(st') && Stored(st', f) && f in st.heads && st'.heads[f] == st.heads[f]
  {
    HeldByCount(st, calls, f, c);
    HeldFileKept(st, calls, f);
  }

  lemma {:induction false} HeldByCount(st: State, calls: seq<Call>, f: nat, c: nat)
    requires Inv(st) && Counts(st, f, c) && KeptThrough(st, calls, f, c)
    ensures HeldThrough(st, calls, f)
    decreases |calls|
  {
    hide Inv, After, NextCount, Nameless;
    LiveByCount(st, f, c);
    if calls != [] {
      StepKeeps(st, calls[0]);
      StepCounts(st, calls[0], f, c);
      HeldByCount(After(st, calls[0]), calls[1..], f, NextCount(st, calls[0], f, c));
    }
  }

  lemma LiveByCount(st: State, f: nat, c: nat)
    requires Counts(st, f, c)
    ensures Live(st, f) <==> !Nameless(st, f) || c > 0
  {
    NamelessExactly(st, f);
  }

  lemma RemovedIsNameless(st: State, name: string, f: nat)
    requires Inv(st) && Bound(st.dir, name, f)
    ensures Nameless(After(st, Remove(name)), f)
  {
    hide After, Live, Stored, Disjoint, OpenOk;
    var i :| 0 <= i < |st.dir| && st.dir[i] == Entry(name, f);
    forall n: string ensures !Bound(After(st, Remove(name)).dir, n, f) {
      NamesAfter(st, Remove(name), n, f);
    }
  }

  lemma AfterFour(st: State, calls: seq<Call>)
    requires Inv(st) && |calls| == 4
    ensures Inv(After(st, calls[0])) && Inv(After(After(st, calls[0]), calls[1]))
    ensures Inv(After(After(After(st, calls[0]), calls[1]), calls[2]))
    ensures AfterAll(st, calls) == After(After(After(After(st, calls[0]), calls[1]), calls[2]), calls[3])
  {
    hide Inv, After;
    StepKeeps(st, calls[0]);
    var s1, c1 := After(st, calls[0]), calls[1..];
    StepKeeps(s1, calls[1]);
    var s2, c2 := After(s1, c1[0]), c1[1..];
    StepKeeps(s2, calls[2]);
    var s3, c3 := After(s2, c2[0]), c2[1..];
    StepKeeps(s3, calls[3]);
    assert c3[1..] == [];
    assert AfterAll(s3, c3) == After(s3, calls[3]);
    assert AfterAll(s2, c2) == AfterAll(s3, c3);
    assert AfterAll(s1, c1) == AfterAll(s2, c2);
  }

  /** Opened twice and closed once, a removed file still has its sectors; the second close gives them back. */
  lemma TwoOpeners(st: State, name: string, f: nat)
    requires Inv(st) && Counts(st, f, 0) && Bound(st.dir, name, f)
    ensures var calls := [Open(name), Open(name), Close(f), Remove(name)];
      var st' := AfterAll(st, calls);
      && Counts(st', f, 1) && Inv(st') && f in st'.heads
      && After(st', Close(f)).used == Released(st'.used, f, st'.heads[f])
  {
    hide Inv, After, Counts, Nameless, Released;
    var calls := [Open(name), Open(name), Close(f), Remove(name)];
    StepKeeps(st, calls[0]);
    NamesAfter(st, calls[0], name, f);
    var s1 := After(st, calls[0]);
    StepKeeps(s1, calls[1]);
    NamesAfter(s1, calls[1], name, f);
    var s2 := After(s1, calls[1]);
    StepKeeps(s2, calls[2]);
    NamesAfter(s2, calls[2], name, f);
    var s3 := After(s2, calls[2]);
    StepKeeps(s3, calls[3]);
    var s4 := After(s3, calls[3]);
    AfterFour(st, calls);
    StepCounts(st, calls[0], f, 0);
    StepCounts(s1, calls[1], f, 1);
    StepCounts(s2, calls[2], f, 2);
    StepCounts(s3, calls[3], f, 1);
    RemovedIsNameless(s3, name, f);
    CloseByCount(s4, f, 1);
  }
}
