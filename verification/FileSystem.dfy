/** The file system's calls, on the state they update in place. */
module FileSystem {
  import opened FileSys
  import opened FreeMap
  import InodeData

  /** lookup finds the entry with a given name. */
  ghost function IndexOf(dir: seq<Slot>, name: string): (i: nat)
    ensures i <= |dir| && (i < |dir| ==> dir[i].Entry? && dir[i].name == name)
    ensures forall k :: 0 <= k < i ==> !(dir[k].Entry? && dir[k].name == name)
    ensures i < |dir| <==> HasName(dir, name)
  {
    if dir == [] then 0
    else if dir[0].Entry? && dir[0].name == name then 0
    else
      var i := 1 + IndexOf(dir[1..], name);
      assert i < |dir| ==> dir[i].Entry? && dir[i].name == name;
      i
  }

  /** bitmap_file_size, with 32-bit elements. */
  function MapSize(sectors: nat): nat { 4 * ((sectors + 31) / 32) }

  /** The state after filesys_remove. */
  ghost function AfterRemove(st: State, name: string): State
    requires Inv(st)
  {
    var i := IndexOf(st.dir, name);
    if i == |st.dir| then st
    else
      var f := st.dir[i].sector;
      NamedIsLive(st, i);
      Closed(Unlinked(Reopened(st, f), i), f)
  }

  lemma NamedIsLive(st: State, i: nat)
    requires Inv(st) && i < |st.dir| && st.dir[i].Entry?
    ensures var f := st.dir[i].sector; Named(st.dir, f) && Live(st, f) && Stored(st, f)
  {
    assert st.dir[i] == Entry(EntryName(st.dir[i]), st.dir[i].sector);
    assert Named(st.dir, st.dir[i].sector);
    assert Live(st, st.dir[i].sector);
  }

  lemma RemoveKeeps(st: State, name: string)
    requires Inv(st)
    ensures Inv(AfterRemove(st, name))
    ensures Tight(st) ==> Tight(AfterRemove(st, name))
  {
    hide Live, Named, Stored, Disjoint, OpenOk, DirOk, Tight, Closed;
    var i := IndexOf(st.dir, name);
    if i < |st.dir| {
      var f := st.dir[i].sector;
      NamedIsLive(st, i);
      OpenKeeps(st, f);
      var held := Reopened(st, f);
      UnlinkKeeps(held, i);
      CloseKeeps(Unlinked(held, i), f);
      if Tight(st) {
        SameClaims(st, held);
        CloseTight(Unlinked(held, i), f);
      }
    }
  }

  /**
   A removed file loses its name.  Its sectors are free at once when nobody has it open;
   otherwise the free map stays and the file is marked for its last close.
   */
  lemma RemoveReleases(st: State, name: string)
    requires Inv(st) && HasName(st.dir, name)
    ensures var st', f := AfterRemove(st, name), st.dir[IndexOf(st.dir, name)].sector;
      && !HasName(st'.dir, name) && st'.heads == st.heads && f in st.heads
      && (f !in st.open ==> st'.used == Released(st.used, f, st.heads[f]) && st'.open == st.open && !Live(st', f))
      && (f in st.open ==> st'.used == st.used && st'.open == st.open[f := st.open[f].(removed := true)])
  {
    var i := IndexOf(st.dir, name);
    NamedIsLive(st, i);
    var f, st' := st.dir[i].sector, AfterRemove(st, name);
    assert st'.dir == st.dir[i := Free];
    if f !in st.open {
      assert st'.open == st.open;
      OpenKeeps(st, f);
      UnlinkLive(Reopened(st, f), i, f);
    }
  }

  class FileSystem {
    var used: seq<bool>
    var heads: map<nat, Head>
    var dir: seq<Slot>
    var open: map<nat, Opened>

    function Now(): State
      reads this
    {
      State(used, heads, dir, open)
    }

    /** free_map_init, do_format and free_map_open on a device with room for the two system files. */
    constructor Format(sectors: nat)
      requires sectors >= 3 + InodeData.SectorsFor(MapSize(sectors))
      ensures Inv(Now()) && Tight(Now())
      ensures dir == seq(ROOT_ENTRIES, _ => Free) && open.Keys == {FREE_MAP_SECTOR}
    {
      used := seq(sectors, _ => false);
      heads := map[];
      dir := seq(ROOT_ENTRIES, _ => Free);
      open := map[];
      new;
      hide Inv, Tight, FirstFit, InodeData.SectorsFor;
      SetMultiple(FREE_MAP_SECTOR, 1, true);
      SetMultiple(ROOT_DIR_SECTOR, 1, true);
      ghost var u := used;
      assert RunIs(u, 2, InodeData.SectorsFor(MapSize(sectors)), false);
      var ok := InodeCreate(FREE_MAP_SECTOR, MapSize(sectors));
      RoomForDir(sectors, u, heads[FREE_MAP_SECTOR]);
      ok := InodeCreate(ROOT_DIR_SECTOR, ROOT_ENTRIES * DIR_ENTRY_SIZE);
      open := map[FREE_MAP_SECTOR := Opened(1, false, heads[FREE_MAP_SECTOR])];
      FormattedOk(Now(), u);
    }

    /** bitmap_set_multiple on the free map. */
    method SetMultiple(start: nat, cnt: nat, value: bool)
      requires start + cnt <= |used|
      modifies `used
      ensures used == Marked(old(used), start, cnt, value)
    {
      var i := 0;
      while i < cnt
        invariant 0 <= i <= cnt
        invariant |used| == |old(used)|
        invariant forall s :: 0 <= s < |used| ==> used[s] == if start <= s < start + i then value else old(used)[s]
      {
        used := used[start + i := value];
        i := i + 1;
      }
    }

    /** free_map_allocate. */
    method Allocate(cnt: nat) returns (sector: int)
      modifies `used
      ensures sector == FirstFit(old(used), cnt, 0)
      ensures used == if sector < 0 then old(used) else Marked(old(used), sector, cnt, true)
    {
      sector := Scan(used, cnt);
      if sector >= 0 {
        SetMultiple(sector, cnt, true);
      }
    }

    /** free_map_release, whose assertion is the precondition. */
    method Release(start: nat, cnt: nat)
      requires RunIs(used, start, cnt, true)
      modifies `used
      ensures used == Marked(old(used), start, cnt, false)
    {
      SetMultiple(start, cnt, false);
    }

    /** inode_create. */
    method InodeCreate(sector: nat, length: nat) returns (ok: bool)
      modifies `used, `heads
      ensures var cnt := InodeData.SectorsFor(length);
        var start := FirstFit(old(used), cnt, 0);
        && (ok <==> start >= 0)
        && used == (if ok then Marked(old(used), start, cnt, true) else old(used))
        && heads == (if ok then old(heads)[sector := Head(start, length)] else old(heads))
    {
      var start := Allocate(InodeData.SectorsFor(length));
      ok := start >= 0;
      if ok {
        heads := heads[sector := Head(start, length)];
      }
    }

    /** inode_open. */
    method InodeOpen(f: nat)
      requires Inv(Now()) && Live(Now(), f)
      modifies `open
      ensures f in old(heads) && Now() == Reopened(old(Now()), f)
      ensures Inv(Now()) && (old(Tight(Now())) ==> Tight(Now()))
    {
      hide Live, Named, Stored, Disjoint, DirOk, Tight, OpenOk;
      OpenKeeps(Now(), f);
      if f in open {
        open := open[f := open[f].(cnt := open[f].cnt + 1)];
      } else {
        open := open[f := Opened(1, false, heads[f])];
      }
      assert Now() == Reopened(old(Now()), f);
      if old(Tight(Now())) {
        SameClaims(old(Now()), Now());
      }
    }

    /** inode_close.  Both releases meet their assertion. */
    method InodeClose(f: nat)
      requires Inv(Now()) && f in open
      modifies `open, `used
      ensures Now() == Closed(old(Now()), f)
      ensures Inv(Now()) && (old(Tight(Now())) ==> Tight(Now()))
    {
      hide Disjoint, DirOk, Tight, Owns, Named;
      CloseKeeps(Now(), f);
      if old(Tight(Now())) {
        CloseTight(Now(), f);
      }
      assert Live(Now(), f) && Stored(Now(), f);
      var inode := open[f];
      if inode.cnt > 1 {
        open := open[f := inode.(cnt := inode.cnt - 1)];
      } else {
        open := open - {f};
        if inode.removed {
          Release(f, 1);
          Release(inode.data.start, InodeData.SectorsFor(inode.data.length));
        }
      }
    }

    /** lookup. */
    method Lookup(name: string) returns (i: nat)
      ensures i == IndexOf(dir, name)
    {
      i := 0;
      while i < |dir|
        invariant i <= |dir|
        invariant forall k :: 0 <= k < i ==> !(dir[k].Entry? && dir[k].name == name)
      {
        if dir[i].Entry? && dir[i].name == name {
          return;
        }
        i := i + 1;
      }
    }

    /** dir_add. */
    method DirAdd(name: string, sector: nat) returns (ok: bool)
      modifies `dir
      ensures ok <==> Addable(old(dir), name)
      ensures dir == if ok then old(dir)[FreeSlot(old(dir)) := Entry(name, sector)] else old(dir)
    {
      if |name| == 0 || |name| > NAME_MAX {
        return false;
      }
      var at := Lookup(name);
      if at < |dir| {
        return false;
      }
      var i := 0;
      while i < |dir| && dir[i].Entry?
        invariant i <= |dir|
        invariant forall k :: 0 <= k < i ==> dir[k].Entry?
      {
        i := i + 1;
      }
      assert i == FreeSlot(dir);
      ok := i < |dir|;
      if ok {
        dir := dir[i := Entry(name, sector)];
      }
    }

    /** filesys_create. */
    method Create(name: string, size: nat) returns (ok: bool)
      requires Inv(Now())
      modifies this
      ensures ok <==> Fits(old(used), size) && Addable(old(dir), name)
      ensures Now() == AfterCreate(old(Now()), name, size)
      ensures Inv(Now())
      ensures old(Tight(Now())) ==>
        (Tight(Now()) <==> !(Fits(old(used), size) && !Addable(old(dir), name) && size > 0))
    {
      hide Live, Named, Stored, Disjoint, OpenOk, DirOk, Tight, FirstFit, Addable, HasName;
      CreateKeeps(Now(), name, size);
      ghost var st := Now();
      var sector := Allocate(1);
      if sector < 0 {
        return false;
      }
      ok := InodeCreate(sector, size);
      ghost var head := Head(if Fits(st.used, size) then DataAt(st.used, size) else 0, size);
      if ok {
        FreshIsTaken(st, size);
        MarksTwice(st, sector, head);
        ok := DirAdd(name, sector);
      } else {
        MarksUndone(st, sector);
      }
      if !ok {
        Release(sector, 1);
      }
    }

    /** filesys_open.  `f` is the sector of the file that is now open once more, if it exists. */
    method Open(name: string) returns (ok: bool, f: nat)
      requires Inv(Now())
      modifies `open
      ensures ok <==> HasName(dir, name)
      ensures !ok ==> Now() == old(Now())
      ensures ok ==> IndexOf(dir, name) < |dir| && f == dir[IndexOf(dir, name)].sector
      ensures ok ==> f in heads && Now() == Reopened(old(Now()), f) && !open[f].removed
      ensures Inv(Now()) && (old(Tight(Now())) ==> Tight(Now()))
    {
      hide Live, Stored, Disjoint, DirOk, Tight, HasName, IndexOf;
      var i := Lookup(name);
      ok, f := i < |dir|, 0;
      if ok {
        f := dir[i].sector;
        NamedIsLive(Now(), i);
        InodeOpen(f);
      }
    }

    /** filesys_remove. */
    method Remove(name: string) returns (ok: bool)
      requires Inv(Now())
      modifies this
      ensures ok <==> HasName(old(dir), name)
      ensures Now() == AfterRemove(old(Now()), name)
      ensures Inv(Now()) && (old(Tight(Now())) ==> Tight(Now()))
    {
      hide Live, Named, Stored, Disjoint, OpenOk, DirOk, Tight, HasName, IndexOf, Closed;
      ghost var st := Now();
      RemoveKeeps(st, name);
      var i := Lookup(name);
      ok := i < |dir|;
      if ok {
        var f := dir[i].sector;
        NamedIsLive(st, i);
        InodeOpen(f);
        UnlinkKeeps(Now(), i);
        dir := dir[i := Free];
        open := open[f := open[f].(removed := true)];
        assert Now() == Unlinked(Reopened(st, f), i);
        InodeClose(f);
      }
    }
  }

  /** Marking the inode's sector and then its data is marking the file's sectors. */
  lemma MarksTwice(st: State, f: nat, head: Head)
    requires Taken(st.used, Marks(st, f, head), f, head)
    ensures var marked := Marked(Marked(st.used, f, 1, true), head.start, InodeData.SectorsFor(head.length), true);
      && marked == Marks(st, f, head)
      && RunIs(marked, f, 1, true)
      && Marked(marked, f, 1, false) == Leaked(st, f, head).used
  {
  }

  lemma MarksUndone(st: State, f: nat)
    requires RunIs(st.used, f, 1, false)
    ensures RunIs(Marked(st.used, f, 1, true), f, 1, true)
    ensures Marked(Marked(st.used, f, 1, true), f, 1, false) == st.used
  {
  }

  /** The lowest run of the free map's data starts right after the two headers. */
  lemma RoomForDir(sectors: nat, u: seq<bool>, head: Head)
    requires sectors >= 3 + InodeData.SectorsFor(MapSize(sectors)) && |u| == sectors
    requires forall s :: 0 <= s < |u| ==> u[s] == (s < 2)
    requires head.start == FirstFit(u, InodeData.SectorsFor(MapSize(sectors)), 0)
    ensures var cnt := InodeData.SectorsFor(MapSize(sectors));
      FirstFit(Marked(u, head.start, cnt, true), InodeData.SectorsFor(ROOT_ENTRIES * DIR_ENTRY_SIZE), 0) >= 0
  {
    hide FirstFit;
    var cnt := InodeData.SectorsFor(MapSize(sectors));
    assert RunIs(u, 2, cnt, false);
    assert RunIs(Marked(u, head.start, cnt, true), 2 + cnt, 1, false);
  }

  lemma FormattedOk(st: State, u: seq<bool>)
    requires forall s :: 0 <= s < |u| ==> u[s] == (s < 2)
    requires |u| >= 2 && st.heads.Keys == {FREE_MAP_SECTOR, ROOT_DIR_SECTOR}
    requires var h0, h1 := st.heads[FREE_MAP_SECTOR], st.heads[ROOT_DIR_SECTOR];
      var n0, n1 := InodeData.SectorsFor(h0.length), InodeData.SectorsFor(h1.length);
      && RunIs(u, h0.start, n0, false)
      && RunIs(Marked(u, h0.start, n0, true), h1.start, n1, false)
      && n0 > 0 && n1 > 0
      && st.used == Marked(Marked(u, h0.start, n0, true), h1.start, n1, true)
    requires st.dir == seq(ROOT_ENTRIES, _ => Free)
    requires st.open == map[FREE_MAP_SECTOR := Opened(1, false, st.heads[FREE_MAP_SECTOR])]
    ensures Inv(st) && Tight(st)
  {
    hide InodeData.SectorsFor;
    var h0, h1 := st.heads[FREE_MAP_SECTOR], st.heads[ROOT_DIR_SECTOR];
    forall f ensures Live(st, f) <==> f == FREE_MAP_SECTOR || f == ROOT_DIR_SECTOR {
    }
    assert Live(st, FREE_MAP_SECTOR) && Live(st, ROOT_DIR_SECTOR);
    assert u[0] && u[1];
    forall s | 0 <= s < |st.used| && st.used[s] ensures Claimed(st, s) {
      assert Owns(FREE_MAP_SECTOR, h0, s) || Owns(ROOT_DIR_SECTOR, h1, s);
    }
  }
}
