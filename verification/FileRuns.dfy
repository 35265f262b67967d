/** Whole runs of file system calls. */
module FileRuns {
  import opened FileSys
  import opened FileSystem
  import opened FreeMap

  datatype Call = Create(name: string, size: nat) | Open(name: string) | Close(file: nat) | Remove(name: string)

  /** What one call does.  A close of a file that nobody has open is no call. */
  ghost function After(st: State, call: Call): State
    requires Inv(st)
  {
    match call
    case Create(name, size) => AfterCreate(st, name, size)
    case Open(name) => AfterOpen(st, name)
    case Close(f) => if f in st.open then Closed(st, f) else st
    case Remove(name) => AfterRemove(st, name)
  }

  ghost function AfterOpen(st: State, name: string): State
    requires Inv(st)
  {
    var i := IndexOf(st.dir, name);
    if i == |st.dir| then st else
      NamedIsLive(st, i);
      Reopened(st, st.dir[i].sector)
  }

  /** A create that found room but not a place in the directory, for a file with data. */
  ghost predicate Leaks(st: State, call: Call) {
    call.Create? && Fits(st.used, call.size) && !Addable(st.dir, call.name) && call.size > 0
  }

  lemma StepKeeps(st: State, call: Call)
    requires Inv(st)
    ensures Inv(After(st, call))
    ensures Tight(st) ==> (Tight(After(st, call)) <==> !Leaks(st, call))
  {
    hide Live, Named, Stored, Disjoint, OpenOk, DirOk, Tight, Fits, Addable, Closed, AfterCreate, AfterRemove, IndexOf;
    match call
    case Create(name, size) => CreateKeeps(st, name, size);
    case Open(name) => OpenNameKeeps(st, name);
    case Close(f) =>
      if f in st.open {
        CloseKeeps(st, f);
        if Tight(st) {
          CloseTight(st, f);
        }
      }
    case Remove(name) => RemoveKeeps(st, name);
  }

  lemma OpenNameKeeps(st: State, name: string)
    requires Inv(st)
    ensures Inv(AfterOpen(st, name))
    ensures forall g :: Live(AfterOpen(st, name), g) == Live(st, g)
    ensures Tight(st) ==> Tight(AfterOpen(st, name))
  {
    hide Live, Named, Stored, Disjoint, OpenOk, DirOk, Tight, IndexOf;
    var i := IndexOf(st.dir, name);
    if i < |st.dir| {
      NamedIsLive(st, i);
      OpenKeeps(st, st.dir[i].sector);
      if Tight(st) {
        SameClaims(st, AfterOpen(st, name));
      }
    }
  }

  // ---------- A lost sector stays lost ----------

  ghost predicate Lost(st: State, s: nat) {
    s < |st.used| && st.used[s] && !Claimed(st, s)
  }

  lemma TightIsNoneLost(st: State)
    ensures Tight(st) <==> forall s :: !Lost(st, s)
  {
    hide Claimed;
    if forall s :: !Lost(st, s) {
      forall s | 0 <= s < |st.used| && st.used[s] ensures Claimed(st, s) {
        assert !Lost(st, s);
      }
    }
  }

  lemma StepKeepsLost(st: State, call: Call, s: nat)
    requires Inv(st) && Lost(st, s)
    ensures Lost(After(st, call), s)
  {
    hide Inv, Lost, Fits, Addable, Closed, AfterCreate, AfterRemove, AfterOpen;
    match call
    case Create(name, size) => CreateKeepsLost(st, name, size, s);
    case Open(name) =>
      OpenNameKeeps(st, name);
      OpenFields(st, name);
      SameUsed(st, AfterOpen(st, name), s);
    case Close(f) =>
      if f in st.open {
        CloseKeepsLost(st, f, s);
      }
    case Remove(name) => RemoveKeepsLost(st, name, s);
  }

  lemma OpenFields(st: State, name: string)
    requires Inv(st)
    ensures AfterOpen(st, name).used == st.used && AfterOpen(st, name).heads == st.heads
  {
  }

  lemma FewerClaims(st: State, st': State, s: nat)
    requires Lost(st, s) && st'.heads == st.heads && s < |st'.used| && st'.used[s]
    requires forall g :: Live(st', g) ==> Live(st, g)
    ensures Lost(st', s)
  {
    hide Live;
  }

  lemma SameUsed(st: State, st': State, s: nat)
    requires Lost(st, s) && st'.heads == st.heads && st'.used == st.used
    requires forall g :: Live(st', g) ==> Live(st, g)
    ensures Lost(st', s)
  {
    FewerClaims(st, st', s);
  }

  lemma CloseKeepsLost(st: State, f: nat, s: nat)
    requires Inv(st) && f in st.open && Lost(st, s)
    ensures Lost(Closed(st, f), s)
  {
    hide Disjoint, DirOk, Named;
    var st' := Closed(st, f);
    assert Live(st, f) && f in st.heads && st.open[f].data == st.heads[f];
    assert !Owns(f, st.heads[f], s);
    forall g: nat ensures Live(st', g) ==> Live(st, g) {
      CloseLive(st, f, g);
    }
    FewerClaims(st, st', s);
  }

  lemma RemoveKeepsLost(st: State, name: string, s: nat)
    requires Inv(st) && Lost(st, s)
    ensures Lost(AfterRemove(st, name), s)
  {
    hide Inv, Lost, Closed, Live, IndexOf;
    var i := IndexOf(st.dir, name);
    if i < |st.dir| {
      var f := st.dir[i].sector;
      NamedIsLive(st, i);
      OpenKeeps(st, f);
      var held := Reopened(st, f);
      SameUsed(st, held, s);
      UnlinkKeeps(held, i);
      forall g: nat ensures Live(Unlinked(held, i), g) ==> Live(held, g) {
        UnlinkLive(held, i, g);
      }
      SameUsed(held, Unlinked(held, i), s);
      CloseKeepsLost(Unlinked(held, i), f, s);
    }
  }

  lemma CreateLive(st: State, name: string, size: nat, g: nat)
    requires Inv(st)
    ensures Live(AfterCreate(st, name, size), g) <==>
            Live(st, g) || (Fits(st.used, size) && Addable(st.dir, name) && g == HeaderAt(st.used))
  {
    hide Live, Named, Stored, Disjoint, OpenOk, DirOk, FirstFit;
    if Fits(st.used, size) {
      var f, head := HeaderAt(st.used), Head(DataAt(st.used, size), size);
      if Addable(st.dir, name) {
        AddLive(st, Marks(st, f, head), FreeSlot(st.dir), name, f, head, g);
      } else {
        LeakLive(st, f, head, g);
      }
    }
  }

  lemma CreateKeepsLost(st: State, name: string, size: nat, s: nat)
    requires Inv(st) && Lost(st, s)
    ensures Lost(AfterCreate(st, name, size), s)
  {
    hide Live, Named, Stored, Disjoint, OpenOk, DirOk, FirstFit, Addable;
    var st' := AfterCreate(st, name, size);
    if Fits(st.used, size) {
      var f, head := HeaderAt(st.used), Head(DataAt(st.used, size), size);
      FreshIsTaken(st, size);
      forall g ensures Live(st', g) ==> Live(st, g) || g == f {
        CreateLive(st, name, size, g);
      }
    }
  }

  // ---------- Runs ----------

  ghost function AfterAll(st: State, calls: seq<Call>): State
    requires Inv(st)
    decreases |calls|
  {
    if calls == [] then st else
      StepKeeps(st, calls[0]);
      AfterAll(After(st, calls[0]), calls[1..])
  }

  ghost predicate SomeLeak(st: State, calls: seq<Call>)
    requires Inv(st)
    decreases |calls|
  {
    calls != [] &&
    (StepKeeps(st, calls[0]); Leaks(st, calls[0]) || SomeLeak(After(st, calls[0]), calls[1..]))
  }

  /**
   Every run keeps the invariant.  A run that starts with no sector lost ends so if and only
   if no create in it failed for its name after finding room for its data.
   */
  lemma {:induction false} RunKeeps(st: State, calls: seq<Call>)
    requires Inv(st)
    ensures Inv(AfterAll(st, calls))
    ensures Tight(st) ==> (Tight(AfterAll(st, calls)) <==> !SomeLeak(st, calls))
    decreases |calls|
  {
    hide Inv, Tight, After, Leaks;
    if calls != [] {
      StepKeeps(st, calls[0]);
      var st' := After(st, calls[0]);
      RunKeeps(st', calls[1..]);
      if !Tight(st') {
        TightIsNoneLost(st');
        var s :| Lost(st', s);
        RunKeepsLost(st', calls[1..], s);
        TightIsNoneLost(AfterAll(st', calls[1..]));
      }
    }
  }

  lemma {:induction false} RunKeepsLost(st: State, calls: seq<Call>, s: nat)
    requires Inv(st) && Lost(st, s)
    ensures Lost(AfterAll(st, calls), s)
    decreases |calls|
  {
    hide Inv, Lost, After;
    if calls != [] {
      StepKeeps(st, calls[0]);
      StepKeepsLost(st, calls[0], s);
      RunKeepsLost(After(st, calls[0]), calls[1..], s);
    }
  }

  // ---------- A file that is held keeps its place ----------

  /** File `f` is named or open before and after every call of the run. */
  ghost predicate HeldThrough(st: State, calls: seq<Call>, f: nat)
    requires Inv(st)
    decreases |calls|
  {
    Live(st, f) &&
    (calls == [] || (StepKeeps(st, calls[0]); HeldThrough(After(st, calls[0]), calls[1..], f)))
  }

  lemma StepKeepsHead(st: State, call: Call, f: nat)
    requires Inv(st) && Live(st, f)
    ensures f in st.heads && f in After(st, call).heads && After(st, call).heads[f] == st.heads[f]
  {
    hide Live, Named, Disjoint, OpenOk, DirOk, Fits, Addable, IndexOf, FirstFit;
    assert Stored(st, f);
    if call.Create? {
      CreateKeepsLive(st, call.name, call.size, f);
    }
  }

  /** Whatever else is created and removed, the file keeps its sectors, marked and unshared. */
  lemma {:induction false} HeldFileKept(st: State, calls: seq<Call>, f: nat)
    requires Inv(st) && HeldThrough(st, calls, f)
    ensures var st' := AfterAll(st, calls);
      && Inv(st') && Live(st', f) && Stored(st', f)
      && f in st.heads && st'.heads[f] == st.heads[f]
    decreases |calls|
  {
    hide Live, Named, Disjoint, OpenOk, DirOk, After;
    assert Stored(st, f);
    if calls != [] {
      StepKeeps(st, calls[0]);
      StepKeepsHead(st, calls[0], f);
      HeldFileKept(After(st, calls[0]), calls[1..], f);
    }
  }

  /** The promise that fails: a create with an empty name loses the sector it took for data. */
  lemma EmptyNameLeaks(st: State)
    requires Inv(st) && Tight(st) && Fits(st.used, 1)
    ensures !Tight(After(st, Create("", 1)))
  {
    hide Inv, Tight, Fits, After;
    StepKeeps(st, Create("", 1));
    assert Leaks(st, Create("", 1));
  }

  // ---------- The calls, in place ----------

  method Serve(fs: FileSystem, calls: seq<Call>)
    requires Inv(fs.Now())
    modifies fs
    ensures fs.Now() == AfterAll(old(fs.Now()), calls)
    ensures Inv(fs.Now())
  {
    hide Inv, Closed, AfterCreate, AfterRemove;
    ghost var st := fs.Now();
    var i := 0;
    assert calls[0..] == calls;
    while i < |calls|
      invariant 0 <= i <= |calls|
      invariant Inv(fs.Now()) && AfterAll(fs.Now(), calls[i..]) == AfterAll(st, calls)
    {
      ghost var was := fs.Now();
      assert calls[i..][0] == calls[i] && calls[i..][1..] == calls[i + 1..];
      match calls[i] {
        case Create(name, size) =>
          var _ := fs.Create(name, size);
        case Open(name) =>
          var _, _ := fs.Open(name);
        case Close(f) =>
          if f in fs.open {
            fs.InodeClose(f);
          }
        case Remove(name) =>
          var _ := fs.Remove(name);
      }
      assert fs.Now() == After(was, calls[i]);
      i := i + 1;
    }
  }
}
