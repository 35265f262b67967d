/**
 filesys.c, directory.c, inode.c and free-map.c: who owns which sector.  Files are created,
 opened, closed and removed over a free map.  The invariant says that the sectors of the
 files that are named or open do not meet and are marked as used, so a removed file keeps
 its sectors until its last close and gives each of them back exactly once.
 */
module FileSys {
  import opened FreeMap
  import InodeData

  const FREE_MAP_SECTOR: nat := 0
  const ROOT_DIR_SECTOR: nat := 1
  const NAME_MAX: nat := 14
  const ROOT_ENTRIES: nat := 16
  const DIR_ENTRY_SIZE: nat := 20

  /** An inode on disk: where its data starts and how many bytes it has. */
  datatype Head = Head(start: nat, length: nat)

  datatype Slot = Free | Entry(name: string, sector: nat)

  /** An inode in memory. */
  datatype Opened = Opened(cnt: nat, removed: bool, data: Head)

  /**
   The free map, the inode last written to each header sector, the root directory and the
   open inodes by sector.
   */
  datatype State = State(used: seq<bool>, heads: map<nat, Head>, dir: seq<Slot>, open: map<nat, Opened>)

  // ---------- Who owns what ----------

  predicate Named(dir: seq<Slot>, f: nat) {
    exists i :: 0 <= i < |dir| && dir[i] == Entry(EntryName(dir[i]), f)
  }

  function EntryName(slot: Slot): string { if slot.Entry? then slot.name else "" }

  /** A file that a caller can still reach: a system file, a named one or an open one. */
  predicate Live(st: State, f: nat) {
    f == FREE_MAP_SECTOR || f == ROOT_DIR_SECTOR || Named(st.dir, f) || f in st.open
  }

  /** Sector `s` holds file `f`'s inode or some of its data. */
  predicate Owns(f: nat, head: Head, s: nat) {
    s == f || InRun(s, head.start, InodeData.SectorsFor(head.length))
  }

  /** What holds of one live file. */
  ghost predicate Stored(st: State, f: nat) {
    && f in st.heads
    && !InRun(f, st.heads[f].start, InodeData.SectorsFor(st.heads[f].length))
    && f < |st.used| && st.used[f]
    && RunIs(st.used, st.heads[f].start, InodeData.SectorsFor(st.heads[f].length), true)
  }

  ghost predicate Disjoint(st: State) {
    forall f, g, s | Live(st, f) && Live(st, g) && f in st.heads && g in st.heads ::
      Owns(f, st.heads[f], s) && Owns(g, st.heads[g], s) ==> f == g
  }

  ghost predicate DirOk(dir: seq<Slot>) {
    && (forall i :: 0 <= i < |dir| && dir[i].Entry? ==>
         dir[i].sector != FREE_MAP_SECTOR && dir[i].sector != ROOT_DIR_SECTOR)
    && (forall i, j :: 0 <= i < j < |dir| && dir[i].Entry? && dir[j].Entry? ==>
         dir[i].name != dir[j].name && dir[i].sector != dir[j].sector)
  }

  ghost predicate OpenOk(st: State) {
    forall f | f in st.open ::
      && st.open[f].cnt > 0 && f in st.heads && st.open[f].data == st.heads[f]
      && (st.open[f].removed <==>
          f != FREE_MAP_SECTOR && f != ROOT_DIR_SECTOR && !Named(st.dir, f))
  }

  ghost predicate Inv(st: State) {
    (forall f | Live(st, f) :: Stored(st, f)) && Disjoint(st) && DirOk(st.dir) && OpenOk(st)
  }

  /** No sector is lost: each used one belongs to a live file. */
  ghost predicate Tight(st: State) {
    forall s | 0 <= s < |st.used| && st.used[s] :: Claimed(st, s)
  }

  ghost predicate Claimed(st: State, s: nat) {
    exists f :: Live(st, f) && f in st.heads && Owns(f, st.heads[f], s)
  }

  // ---------- The steps, on states ----------

  /** inode_open of file `f`. */
  function Reopened(st: State, f: nat): State
    requires f in st.heads
  {
    st.(open := st.open[f := if f in st.open then st.open[f].(cnt := st.open[f].cnt + 1)
                             else Opened(1, false, st.heads[f])])
  }

  /** inode_close of file `f`. */
  function Closed(st: State, f: nat): State
    requires f in st.open && st.open[f].cnt > 0
  {
    var inode := st.open[f];
    if inode.cnt > 1 then st.(open := st.open[f := inode.(cnt := inode.cnt - 1)])
    else if !inode.removed then st.(open := st.open - {f})
    else st.(open := st.open - {f}, used := Released(st.used, f, inode.data))
  }

  /** The free map without the sectors of one file. */
  function Released(used: seq<bool>, f: nat, head: Head): (r: seq<bool>)
    ensures |r| == |used|
    ensures forall s :: 0 <= s < |used| ==> r[s] == (used[s] && !Owns(f, head, s))
  {
    Marked(Marked(used, f, 1, false), head.start, InodeData.SectorsFor(head.length), false)
  }

  /** dir_remove's erased entry and inode_remove, with the file open. */
  function Unlinked(st: State, i: nat): State
    requires i < |st.dir| && st.dir[i].Entry? && st.dir[i].sector in st.open
  {
    var f := st.dir[i].sector;
    st.(dir := st.dir[i := Free], open := st.open[f := st.open[f].(removed := true)])
  }

  /** A new file whose sectors were marked as used, in slot `i`. */
  function Added(st: State, used: seq<bool>, i: nat, name: string, f: nat, head: Head): State
    requires i < |st.dir|
  {
    State(used, st.heads[f := head], st.dir[i := Entry(name, f)], st.open)
  }

  // ---------- Each step keeps the invariant ----------

  lemma OpenKeeps(st: State, f: nat)
    requires Inv(st) && Live(st, f)
    ensures f in st.heads && Inv(Reopened(st, f))
    ensures forall g :: Live(Reopened(st, f), g) == Live(st, g)
    ensures f !in st.open ==> !Reopened(st, f).open[f].removed
  {
    assert Stored(st, f);
    var st' := Reopened(st, f);
    forall g ensures Live(st', g) == Live(st, g) {
    }
    forall g | Live(st', g) ensures Stored(st', g) {
      assert Stored(st, g);
    }
    assert Disjoint(st') by {
      forall a, b, s | Live(st', a) && Live(st', b) && a in st'.heads && b in st'.heads
        && Owns(a, st'.heads[a], s) && Owns(b, st'.heads[b], s)
        ensures a == b
      {
        assert Live(st, a) && Live(st, b);
      }
    }
  }

  /** A close gives a file up only when it was the last one and the file was removed. */
  lemma CloseLive(st: State, f: nat, g: nat)
    requires Inv(st) && f in st.open
    ensures Live(Closed(st, f), g) <==>
            Live(st, g) && !(g == f && st.open[f].cnt == 1 && st.open[f].removed)
  {
  }

  lemma CloseKeeps(st: State, f: nat)
    requires Inv(st) && f in st.open
    ensures Inv(Closed(st, f))
  {
    var st' := Closed(st, f);
    forall g ensures Live(st', g) ==> Live(st, g) {
      CloseLive(st, f, g);
    }
    forall g | Live(st', g) ensures Stored(st', g) {
      CloseStored(st, f, g);
    }
    DisjointFewer(st, st');
  }

  /** The released sectors belong to no other live file. */
  lemma CloseStored(st: State, f: nat, g: nat)
    requires Inv(st) && f in st.open && Live(Closed(st, f), g)
    ensures Stored(Closed(st, f), g)
  {
    var st' := Closed(st, f);
    CloseLive(st, f, g);
    assert Stored(st, g);
    var head := st.heads[g];
    if st'.used != st.used {
      assert g != f && Stored(st, f);
      forall s: nat | Owns(g, head, s) ensures s < |st.used| && st'.used[s] {
        assert st.used[s];
        assert !Owns(f, st.heads[f], s);
      }
      assert Owns(g, head, g);
      forall s | head.start <= s < head.start + InodeData.SectorsFor(head.length) ensures st'.used[s] {
        assert Owns(g, head, s);
      }
    }
  }

  /** Losing live files keeps the rest apart. */
  lemma DisjointFewer(st: State, st': State)
    requires Disjoint(st) && st'.heads == st.heads
    requires forall g :: Live(st', g) ==> Live(st, g)
    ensures Disjoint(st')
  {
  }

  lemma CloseTight(st: State, f: nat)
    requires Inv(st) && f in st.open && Tight(st)
    ensures Tight(Closed(st, f))
  {
    var st' := Closed(st, f);
    forall s | 0 <= s < |st'.used| && st'.used[s] ensures Claimed(st', s) {
      assert Claimed(st, s);
      var g :| Live(st, g) && g in st.heads && Owns(g, st.heads[g], s);
      CloseLive(st, f, g);
      assert Live(st', g);
    }
  }

  /** The file is still live after it lost its name: it is open. */
  lemma UnlinkLive(st: State, i: nat, g: nat)
    requires Inv(st) && i < |st.dir| && st.dir[i].Entry? && st.dir[i].sector in st.open
    ensures Live(Unlinked(st, i), g) <==> Live(st, g)
    ensures Named(Unlinked(st, i).dir, g) <==> Named(st.dir, g) && g != st.dir[i].sector
  {
    var st' := Unlinked(st, i);
    if Named(st.dir, g) && g != st.dir[i].sector {
      var k :| 0 <= k < |st.dir| && st.dir[k] == Entry(EntryName(st.dir[k]), g);
      assert st'.dir[k] == Entry(EntryName(st'.dir[k]), g);
    }
    if Named(st'.dir, g) {
      var k :| 0 <= k < |st'.dir| && st'.dir[k] == Entry(EntryName(st'.dir[k]), g);
      assert st.dir[k] == Entry(EntryName(st.dir[k]), g);
    }
    assert st.dir[i] == Entry(EntryName(st.dir[i]), st.dir[i].sector);
  }

  lemma UnlinkKeeps(st: State, i: nat)
    requires Inv(st) && i < |st.dir| && st.dir[i].Entry? && st.dir[i].sector in st.open
    ensures Inv(Unlinked(st, i))
    ensures Tight(st) ==> Tight(Unlinked(st, i))
  {
    hide Live, Named, Stored, Disjoint, OpenOk, DirOk, Tight;
    var st' := Unlinked(st, i);
    forall g: nat ensures Live(st', g) <==> Live(st, g) {
      UnlinkLive(st, i, g);
    }
    forall g | Live(st', g) ensures Stored(st', g) {
      assert Stored(st, g);
      StoredSame(st, st', g);
    }
    DisjointFewer(st, st');
    UnlinkOpen(st, i);
    UnlinkDir(st.dir, i);
    if Tight(st) {
      SameClaims(st, st');
    }
  }

  lemma UnlinkDir(dir: seq<Slot>, i: nat)
    requires DirOk(dir) && i < |dir|
    ensures DirOk(dir[i := Free])
  {
  }

  lemma UnlinkOpen(st: State, i: nat)
    requires Inv(st) && i < |st.dir| && st.dir[i].Entry? && st.dir[i].sector in st.open
    ensures OpenOk(Unlinked(st, i))
  {
    hide Live, Named, Stored, Disjoint;
    var st' := Unlinked(st, i);
    forall g | g in st'.open
      ensures Named(st'.dir, g) <==> Named(st.dir, g) && g != st.dir[i].sector
    {
      UnlinkLive(st, i, g);
    }
  }

  lemma StoredSame(st: State, st': State, g: nat)
    requires Stored(st, g) && st'.heads == st.heads && st'.used == st.used
    ensures Stored(st', g)
  {
  }

  lemma SameClaims(st: State, st': State)
    requires Tight(st) && st'.heads == st.heads && st'.used == st.used
    requires forall g :: Live(st', g) <==> Live(st, g)
    ensures Tight(st')
  {
    forall s | 0 <= s < |st'.used| && st'.used[s] ensures Claimed(st', s) {
      assert Claimed(st, s);
      var g :| Live(st, g) && g in st.heads && Owns(g, st.heads[g], s);
      assert Live(st', g);
    }
  }

  /** `after` marks the sectors of a new file, all of which were free. */
  ghost predicate Taken(before: seq<bool>, after: seq<bool>, f: nat, head: Head) {
    var cnt := InodeData.SectorsFor(head.length);
    && f < |before| && !before[f] && !InRun(f, head.start, cnt)
    && RunIs(before, head.start, cnt, false)
    && |after| == |before|
    && forall s :: 0 <= s < |before| ==> after[s] == (before[s] || Owns(f, head, s))
  }

  ghost predicate CanAdd(dir: seq<Slot>, i: nat, name: string) {
    i < |dir| && dir[i].Free? && forall k :: 0 <= k < |dir| && dir[k].Entry? ==> dir[k].name != name
  }

  lemma AddLive(st: State, used: seq<bool>, i: nat, name: string, f: nat, head: Head, g: nat)
    requires i < |st.dir| && st.dir[i].Free?
    ensures Named(Added(st, used, i, name, f, head).dir, g) <==> Named(st.dir, g) || g == f
    ensures Live(Added(st, used, i, name, f, head), g) <==> Live(st, g) || g == f
  {
    var st' := Added(st, used, i, name, f, head);
    assert st'.dir[i] == Entry(EntryName(st'.dir[i]), f);
    if Named(st.dir, g) {
      var k :| 0 <= k < |st.dir| && st.dir[k] == Entry(EntryName(st.dir[k]), g);
      assert st'.dir[k] == Entry(EntryName(st'.dir[k]), g);
    }
    if Named(st'.dir, g) {
      var k :| 0 <= k < |st'.dir| && st'.dir[k] == Entry(EntryName(st'.dir[k]), g);
      assert k != i ==> st.dir[k] == Entry(EntryName(st.dir[k]), g);
    }
  }

  /** A sector that is not marked belongs to no live file. */
  lemma FreeIsUnowned(st: State, g: nat, s: nat)
    requires Inv(st) && Live(st, g) && s < |st.used| && !st.used[s]
    ensures g in st.heads && !Owns(g, st.heads[g], s)
  {
    assert Stored(st, g);
  }

  /** Files from before a new one was placed on free sectors are still stored. */
  lemma OldStored(st: State, st': State, f: nat, head: Head, g: nat)
    requires Inv(st) && Live(st, g) && Taken(st.used, Marks(st, f, head), f, head)
    requires st'.heads == st.heads[f := head]
    requires |st'.used| == |st.used| && forall s :: 0 <= s < |st.used| && st.used[s] ==> st'.used[s]
    ensures g != f && Stored(st', g)
  {
    assert Stored(st, g);
    FreeIsUnowned(st, g, f);
  }

  function Marks(st: State, f: nat, head: Head): (r: seq<bool>)
    ensures |r| == |st.used|
    ensures forall s :: 0 <= s < |r| ==> r[s] == (st.used[s] || Owns(f, head, s))
  {
    seq(|st.used|, s requires 0 <= s < |st.used| => st.used[s] || Owns(f, head, s))
  }

  lemma AddDisjoint(st: State, st': State, f: nat, head: Head)
    requires Inv(st) && Taken(st.used, st'.used, f, head) && st'.heads == st.heads[f := head]
    requires forall g :: Live(st', g) <==> Live(st, g) || g == f
    ensures Disjoint(st')
  {
    hide Live, Stored, OpenOk, DirOk;
    forall a, b, s | Live(st', a) && Live(st', b) && a in st'.heads && b in st'.heads
      && Owns(a, st'.heads[a], s) && Owns(b, st'.heads[b], s)
      ensures a == b
    {
      if a == f && b != f {
        NewIsApart(st, st'.used, f, head, b, s);
      } else if b == f && a != f {
        NewIsApart(st, st'.used, f, head, a, s);
      }
    }
  }

  lemma NewIsApart(st: State, used: seq<bool>, f: nat, head: Head, g: nat, s: nat)
    requires Inv(st) && Live(st, g) && Taken(st.used, used, f, head) && Owns(f, head, s)
    ensures g in st.heads && !Owns(g, st.heads[g], s)
  {
    FreeIsUnowned(st, g, s);
  }

  lemma AddOpen(st: State, used: seq<bool>, i: nat, name: string, f: nat, head: Head)
    requires Inv(st) && CanAdd(st.dir, i, name) && Taken(st.used, used, f, head)
    ensures OpenOk(Added(st, used, i, name, f, head))
  {
    hide Named, Stored, Disjoint, DirOk;
    var st' := Added(st, used, i, name, f, head);
    forall g | g in st'.open
      ensures g != f && (Named(st'.dir, g) <==> Named(st.dir, g))
    {
      AddLive(st, used, i, name, f, head, g);
      FreeIsUnowned(st, g, f);
    }
  }

  lemma AddDir(st: State, used: seq<bool>, i: nat, name: string, f: nat, head: Head)
    requires Inv(st) && CanAdd(st.dir, i, name) && Taken(st.used, used, f, head)
    ensures DirOk(Added(st, used, i, name, f, head).dir)
  {
    forall k | 0 <= k < |st.dir| && st.dir[k].Entry? ensures st.dir[k].sector != f {
      assert st.dir[k] == Entry(EntryName(st.dir[k]), st.dir[k].sector);
      FreeIsUnowned(st, st.dir[k].sector, f);
    }
    FreeIsUnowned(st, FREE_MAP_SECTOR, f);
    FreeIsUnowned(st, ROOT_DIR_SECTOR, f);
  }

  lemma AddKeeps(st: State, used: seq<bool>, i: nat, name: string, f: nat, head: Head)
    requires Inv(st) && CanAdd(st.dir, i, name) && Taken(st.used, used, f, head)
    ensures Inv(Added(st, used, i, name, f, head)) && !Live(st, f)
  {
    hide Live, Named, Disjoint, OpenOk, DirOk;
    var st' := Added(st, used, i, name, f, head);
    forall g: nat ensures Live(st', g) <==> Live(st, g) || g == f {
      AddLive(st, used, i, name, f, head, g);
    }
    forall g | Live(st', g) ensures Stored(st', g) {
      if Live(st, g) {
        OldStored(st, st', f, head, g);
      }
    }
    if Live(st, f) {
      FreeIsUnowned(st, f, f);
    }
    AddDisjoint(st, st', f, head);
    AddOpen(st, used, i, name, f, head);
    AddDir(st, used, i, name, f, head);
  }

  lemma AddTight(st: State, used: seq<bool>, i: nat, name: string, f: nat, head: Head)
    requires Inv(st) && CanAdd(st.dir, i, name) && Taken(st.used, used, f, head) && Tight(st)
    ensures Tight(Added(st, used, i, name, f, head))
  {
    hide Live, Named, Stored, Disjoint, OpenOk, DirOk;
    var st' := Added(st, used, i, name, f, head);
    AddLive(st, used, i, name, f, head, f);
    forall s | 0 <= s < |st'.used| && st'.used[s] ensures Claimed(st', s) {
      if st.used[s] {
        assert Claimed(st, s);
        var g :| Live(st, g) && g in st.heads && Owns(g, st.heads[g], s);
        AddLive(st, used, i, name, f, head, g);
        FreeIsUnowned(st, g, f);
        assert Live(st', g) && g in st'.heads && Owns(g, st'.heads[g], s);
      } else {
        assert Live(st', f) && f in st'.heads && Owns(f, st'.heads[f], s);
      }
    }
  }

  // ---------- filesys_create when dir_add fails ----------

  /** The header sector was given back; the data sectors were not. */
  function Leaked(st: State, f: nat, head: Head): State {
    State(Marked(st.used, head.start, InodeData.SectorsFor(head.length), true), st.heads[f := head], st.dir, st.open)
  }

  lemma LeakKeeps(st: State, f: nat, head: Head)
    requires Inv(st) && Taken(st.used, Marks(st, f, head), f, head)
    ensures Inv(Leaked(st, f, head)) && !Live(st, f)
  {
    hide Named;
    var st' := Leaked(st, f, head);
    if Live(st, f) {
      FreeIsUnowned(st, f, f);
    }
    forall g | Live(st', g) ensures Stored(st', g) && g != f {
      assert Live(st, g);
      OldStored(st, st', f, head, g);
    }
    assert Disjoint(st') by {
      forall a, b, s | Live(st', a) && Live(st', b) && a in st'.heads && b in st'.heads
        && Owns(a, st'.heads[a], s) && Owns(b, st'.heads[b], s)
        ensures a == b
      {
        assert Live(st, a) && Live(st, b);
      }
    }
  }

  /** The sectors are lost exactly when the file has data. */
  lemma LeakLosesData(st: State, f: nat, head: Head)
    requires Inv(st) && Taken(st.used, Marks(st, f, head), f, head)
    ensures Tight(st) ==> (Tight(Leaked(st, f, head)) <==> head.length == 0)
  {
    if head.length > 0 {
      DataLost(st, f, head);
    } else if Tight(st) {
      NothingLost(st, f, head);
    }
  }

  lemma DataLost(st: State, f: nat, head: Head)
    requires Inv(st) && Taken(st.used, Marks(st, f, head), f, head) && head.length > 0
    ensures !Tight(Leaked(st, f, head))
  {
    hide Live, Named, Stored, Disjoint, OpenOk, DirOk;
    LeakKeeps(st, f, head);
    var st', s := Leaked(st, f, head), head.start;
    assert InodeData.SectorsFor(head.length) > 0;
    assert !st.used[s] && st'.used[s];
    if Claimed(st', s) {
      var g :| Live(st', g) && g in st'.heads && Owns(g, st'.heads[g], s);
      LeakLive(st, f, head, g);
      FreeIsUnowned(st, g, s);
    }
  }

  lemma LeakLive(st: State, f: nat, head: Head, g: nat)
    ensures Live(Leaked(st, f, head), g) <==> Live(st, g)
  {
  }

  lemma NothingLost(st: State, f: nat, head: Head)
    requires Inv(st) && Taken(st.used, Marks(st, f, head), f, head) && head.length == 0 && Tight(st)
    ensures Tight(Leaked(st, f, head))
  {
    hide Live, Named, Stored, Disjoint, OpenOk, DirOk;
    LeakKeeps(st, f, head);
    var st' := Leaked(st, f, head);
    forall s | 0 <= s < |st'.used| && st'.used[s] ensures Claimed(st', s) {
      assert st.used[s] && Claimed(st, s);
      var g :| Live(st, g) && g in st.heads && Owns(g, st.heads[g], s);
      LeakLive(st, f, head, g);
      assert Live(st', g) && g in st'.heads && Owns(g, st'.heads[g], s);
    }
  }

  // ---------- What a create does ----------

  ghost predicate NameOk(name: string) { 0 < |name| <= NAME_MAX }

  ghost predicate HasName(dir: seq<Slot>, name: string) {
    exists i :: 0 <= i < |dir| && dir[i].Entry? && dir[i].name == name
  }

  /** The first free slot, or the number of slots. */
  ghost function FreeSlot(dir: seq<Slot>): (i: nat)
    ensures i <= |dir| && (i < |dir| ==> dir[i].Free?)
    ensures forall k :: 0 <= k < i ==> dir[k].Entry?
  {
    if dir == [] || dir[0].Free? then 0 else 1 + FreeSlot(dir[1..])
  }

  /** dir_add would succeed. */
  ghost predicate Addable(dir: seq<Slot>, name: string) {
    NameOk(name) && !HasName(dir, name) && FreeSlot(dir) < |dir|
  }

  /** The sector free_map_allocate picks for the inode, and those it then picks for the data. */
  ghost function HeaderAt(used: seq<bool>): int { FirstFit(used, 1, 0) }

  ghost function DataAt(used: seq<bool>, size: nat): int
    requires HeaderAt(used) >= 0
  {
    FirstFit(Marked(used, HeaderAt(used), 1, true), InodeData.SectorsFor(size), 0)
  }

  ghost predicate Fits(used: seq<bool>, size: nat) {
    HeaderAt(used) >= 0 && DataAt(used, size) >= 0
  }

  /** The state after filesys_create: the file added, its data sectors lost, or nothing. */
  ghost function AfterCreate(st: State, name: string, size: nat): State {
    if !Fits(st.used, size) then st
    else
      var f, head := HeaderAt(st.used), Head(DataAt(st.used, size), size);
      if Addable(st.dir, name) then Added(st, Marks(st, f, head), FreeSlot(st.dir), name, f, head)
      else Leaked(st, f, head)
  }

  /** filesys_create keeps the invariant, and loses sectors just when it fails for its name. */
  lemma CreateKeeps(st: State, name: string, size: nat)
    requires Inv(st)
    ensures Inv(AfterCreate(st, name, size))
    ensures forall g :: Live(st, g) ==> var st' := AfterCreate(st, name, size);
      Live(st', g) && g in st.heads && g in st'.heads && st'.heads[g] == st.heads[g]
    ensures Tight(st) ==>
      (Tight(AfterCreate(st, name, size)) <==> !(Fits(st.used, size) && !Addable(st.dir, name) && size > 0))
  {
    hide Live, Named, Stored, Disjoint, OpenOk, DirOk, Tight, FirstFit, Claimed;
    if Fits(st.used, size) {
      var f, head := HeaderAt(st.used), Head(DataAt(st.used, size), size);
      FreshIsTaken(st, size);
      if Addable(st.dir, name) {
        var i := FreeSlot(st.dir);
        assert CanAdd(st.dir, i, name);
        AddKeeps(st, Marks(st, f, head), i, name, f, head);
        if Tight(st) {
          AddTight(st, Marks(st, f, head), i, name, f, head);
        }
      } else {
        LeakKeeps(st, f, head);
        LeakLosesData(st, f, head);
      }
    }
    forall g | Live(st, g) ensures var st' := AfterCreate(st, name, size);
      Live(st', g) && g in st.heads && g in st'.heads && st'.heads[g] == st.heads[g]
    {
      CreateKeepsLive(st, name, size, g);
    }
  }

  lemma FreshIsTaken(st: State, size: nat)
    requires Fits(st.used, size)
    ensures var f, head := HeaderAt(st.used), Head(DataAt(st.used, size), size);
      Taken(st.used, Marks(st, f, head), f, head)
  {
    hide FirstFit;
    var f, head := HeaderAt(st.used), Head(DataAt(st.used, size), size);
    var marked := Marked(st.used, f, 1, true);
    assert RunIs(marked, head.start, InodeData.SectorsFor(size), false);
    assert marked[f];
  }

  lemma CreateKeepsLive(st: State, name: string, size: nat, g: nat)
    requires Inv(st) && Live(st, g)
    ensures var st' := AfterCreate(st, name, size);
      Live(st', g) && g in st.heads && g in st'.heads && st'.heads[g] == st.heads[g]
  {
    hide Named, Disjoint, OpenOk, DirOk, FirstFit;
    assert Stored(st, g);
    if Fits(st.used, size) {
      FreshIsTaken(st, size);
      var f, head := HeaderAt(st.used), Head(DataAt(st.used, size), size);
      FreeIsUnowned(st, g, f);
      if Addable(st.dir, name) {
        AddLive(st, Marks(st, f, head), FreeSlot(st.dir), name, f, head, g);
      }
    }
  }
}
