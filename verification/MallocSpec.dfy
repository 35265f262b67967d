/**
 malloc.c: pages cut into blocks.  An arena is a page whose header is followed by blocks of
 one size, or several pages that hold one big block.  Addresses are numbers; the blocks that
 callers hold are tracked beside the state the code keeps.
 */
module MallocSpec {
  import opened Products

  const PGSIZE: nat := 4096
  const HEADER: nat := 12
  const DESC_CNT: nat := 7
  const SIZE_LIMIT: nat := 0x1_0000_0000

  /** The block sizes malloc_init sets up. */
  function BlockSize(d: nat): (r: nat)
    requires d < DESC_CNT
    ensures 16 <= r <= 1024
  {
    if d == 0 then 16 else if d == 1 then 32 else if d == 2 then 64 else if d == 3 then 128
    else if d == 4 then 256 else if d == 5 then 512 else 1024
  }

  function PerArena(d: nat): (r: nat)
    requires d < DESC_CNT
    ensures 3 <= r <= 255
  {
    (PGSIZE - HEADER) / BlockSize(d)
  }

  lemma BlockFits(d: nat, i: nat)
    requires d < DESC_CNT && i < PerArena(d)
    ensures 0 <= i * BlockSize(d) && HEADER + i * BlockSize(d) + BlockSize(d) <= PGSIZE
  {
  }

  /** arena_to_block. */
  function BlockAt(page: nat, d: nat, i: nat): (r: nat)
    requires d < DESC_CNT && i < PerArena(d)
    ensures r / PGSIZE == page
    ensures PGSIZE * page + HEADER <= r && r + BlockSize(d) <= PGSIZE * (page + 1)
  {
    BlockFits(d, i);
    PGSIZE * page + HEADER + i * BlockSize(d)
  }

  /** Blocks of one arena do not overlap. */
  lemma BlocksApart(page: nat, d: nat, i: nat, j: nat)
    requires d < DESC_CNT && i < j < PerArena(d)
    ensures BlockAt(page, d, i) + BlockSize(d) <= BlockAt(page, d, j)
  {
    var k := j - i - 1;
    assert j * BlockSize(d) == (i + 1 + k) * BlockSize(d);
    Distribute(i, 1 + k, BlockSize(d));
    Distribute(1, k, BlockSize(d));
  }

  datatype Arena = Small(desc: nat, freeCnt: nat) | Big(pages: nat)

  /** The arenas by page number, the free list of each descriptor, and the blocks callers hold with the sizes they asked for. */
  datatype Heap = Heap(arenas: map<nat, Arena>, lists: seq<seq<nat>>, live: map<nat, nat>)

  function Pages(a: Arena): nat { if a.Small? then 1 else a.pages }

  /** The blocks of an arena that are on a free list. */
  ghost function FreeIdx(list: seq<nat>, page: nat, d: nat): (r: set<nat>)
    requires d < DESC_CNT
    ensures forall i :: i in r <==> 0 <= i < PerArena(d) && BlockAt(page, d, i) in list
  {
    set i | 0 <= i < PerArena(d) && BlockAt(page, d, i) in list
  }

  ghost predicate IsBlock(a: nat, page: nat, d: nat)
    requires d < DESC_CNT
  {
    exists i :: 0 <= i < PerArena(d) && a == BlockAt(page, d, i)
  }

  ghost predicate NoDup(list: seq<nat>) {
    forall i, j :: 0 <= i < j < |list| ==> list[i] != list[j]
  }

  ghost predicate ArenasOk(arenas: map<nat, Arena>) {
    && (forall p | p in arenas :: p > 0 && Pages(arenas[p]) > 0 && (arenas[p].Small? ==> arenas[p].desc < DESC_CNT))
    && (forall p, q | p in arenas && q in arenas && p < q :: p + Pages(arenas[p]) <= q)
  }

  /** A block of an arena that belongs to descriptor `d`. */
  ghost predicate Homed(arenas: map<nat, Arena>, d: nat, a: nat)
    requires d < DESC_CNT
  {
    var p := a / PGSIZE;
    p in arenas && arenas[p].Small? && arenas[p].desc == d && IsBlock(a, p, d)
  }

  ghost predicate ListOk(arenas: map<nat, Arena>, d: nat, list: seq<nat>)
    requires d < DESC_CNT
  {
    NoDup(list) && forall a | a in list :: Homed(arenas, d, a)
  }

  ghost predicate ListsOk(h: Heap) {
    |h.lists| == DESC_CNT && forall d :: 0 <= d < DESC_CNT ==> ListOk(h.arenas, d, h.lists[d])
  }

  predicate IsSmall(h: Heap, p: nat) {
    |h.lists| == DESC_CNT && p in h.arenas && h.arenas[p].Small? && h.arenas[p].desc < DESC_CNT
  }

  /** free_cnt counts the arena's blocks on the free list. */
  ghost predicate Counted(h: Heap, p: nat) {
    IsSmall(h, p) ==>
      h.arenas[p].freeCnt == |FreeIdx(h.lists[h.arenas[p].desc], p, h.arenas[p].desc)|
  }

  /** Not every block of the arena is free. */
  predicate InUse(arena: Arena) {
    arena.Small? && arena.desc < DESC_CNT ==> arena.freeCnt < PerArena(arena.desc)
  }

  /** Each block of the arena is free or held, not both. */
  ghost predicate Split(h: Heap, p: nat) {
    && (IsSmall(h, p) ==> var d := h.arenas[p].desc;
         forall i :: 0 <= i < PerArena(d) ==> (BlockAt(p, d, i) in h.lists[d] <==> BlockAt(p, d, i) !in h.live))
    && (p in h.arenas && h.arenas[p].Big? ==> PGSIZE * p + HEADER in h.live)
  }

  function Capacity(arenas: map<nat, Arena>, a: nat): (r: int)
    requires a / PGSIZE in arenas
    requires arenas[a / PGSIZE].Small? ==> arenas[a / PGSIZE].desc < DESC_CNT
  {
    var arena := arenas[a / PGSIZE];
    if arena.Small? then BlockSize(arena.desc) else PGSIZE * arena.pages - HEADER
  }

  /** A held block is where an arena puts one. */
  ghost predicate LiveOk(h: Heap, a: nat) {
    var p := a / PGSIZE;
    && p in h.arenas
    && (h.arenas[p].Small? ==> h.arenas[p].desc < DESC_CNT && IsBlock(a, p, h.arenas[p].desc))
    && (h.arenas[p].Big? ==> a == PGSIZE * p + HEADER)
  }

  /** The invariant, but for arena `but`, which may be entirely free. */
  ghost predicate InvBut(h: Heap, but: nat) {
    && ArenasOk(h.arenas) && ListsOk(h)
    && (forall p | p in h.arenas :: Counted(h, p))
    && (forall p | p in h.arenas :: Split(h, p))
    && (forall p | p in h.arenas && p != but :: InUse(h.arenas[p]))
    && (forall a | a in h.live :: LiveOk(h, a))
  }

  ghost predicate Inv(h: Heap) {
    InvBut(h, 0) && forall p | p in h.arenas :: InUse(h.arenas[p])
  }

  /** The pages of each arena. */
  function Extents(arenas: map<nat, Arena>): map<nat, nat> { map p | p in arenas :: Pages(arenas[p]) }

  // ---------- What the invariant gives the callers ----------

  /** The addresses of an arena's blocks are exactly those that pass the alignment check of block_to_arena and fit. */
  lemma BlockIsAligned(a: nat, page: nat, d: nat)
    requires d < DESC_CNT
    ensures IsBlock(a, page, d) <==>
            && a / PGSIZE == page && a % PGSIZE >= HEADER
            && (a % PGSIZE - HEADER) % BlockSize(d) == 0
            && a % PGSIZE + BlockSize(d) <= PGSIZE
  {
    hide PerArena;
    var bs := BlockSize(d);
    if IsBlock(a, page, d) {
      hide BlockSize;
      var i :| 0 <= i < PerArena(d) && a == BlockAt(page, d, i);
      assert a % PGSIZE - HEADER == i * bs;
      MultipleOf(i, d);
    }
    if a / PGSIZE == page && a % PGSIZE >= HEADER && (a % PGSIZE - HEADER) % bs == 0 && a % PGSIZE + bs <= PGSIZE {
      var i := (a % PGSIZE - HEADER) / bs;
      FitsInArena(d, a % PGSIZE - HEADER);
      assert a == BlockAt(page, d, i);
    }
  }

  lemma FitsInArena(d: nat, offset: nat)
    requires d < DESC_CNT && offset % BlockSize(d) == 0 && HEADER + offset + BlockSize(d) <= PGSIZE
    ensures offset / BlockSize(d) < PerArena(d) && offset / BlockSize(d) * BlockSize(d) == offset
  {
  }

  lemma MultipleOf(i: nat, d: nat)
    requires d < DESC_CNT
    ensures i * BlockSize(d) % BlockSize(d) == 0
  {
  }

  /** So the assertions of block_to_arena hold of every held block. */
  lemma ChecksHold(h: Heap, a: nat)
    requires Inv(h) && a in h.live
    ensures var p := a / PGSIZE;
      && p > 0 && p in h.arenas
      && (h.arenas[p].Small? ==>
            h.arenas[p].desc < DESC_CNT && a % PGSIZE >= HEADER && (a % PGSIZE - HEADER) % BlockSize(h.arenas[p].desc) == 0)
      && (h.arenas[p].Big? ==> a % PGSIZE == HEADER)
  {
    hide Counted, Split, ListsOk, InUse, PerArena, BlockSize, BlockAt, IsBlock;
    assert LiveOk(h, a);
    var p := a / PGSIZE;
    if h.arenas[p].Small? {
      BlockIsAligned(a, p, h.arenas[p].desc);
    }
  }

  /** The bytes of two held blocks do not overlap. */
  lemma LiveApart(h: Heap, a: nat, b: nat)
    requires Inv(h) && a in h.live && b in h.live && a < b
    ensures LiveOk(h, a) && a + Capacity(h.arenas, a) <= b
  {
    hide Counted, Split, ListsOk, InUse, PerArena, BlockSize, BlockAt, IsBlock;
    assert LiveOk(h, a) && LiveOk(h, b);
    var p, q := a / PGSIZE, b / PGSIZE;
    InArena(h, a);
    InArena(h, b);
    if p == q && h.arenas[p].Small? {
      SameArena(a, b, p, h.arenas[p].desc);
    }
  }

  lemma SameArena(a: nat, b: nat, p: nat, d: nat)
    requires d < DESC_CNT && IsBlock(a, p, d) && IsBlock(b, p, d) && a < b
    ensures a + BlockSize(d) <= b
  {
    hide PerArena, BlockSize, BlockAt;
    var i :| 0 <= i < PerArena(d) && a == BlockAt(p, d, i);
    var j :| 0 <= j < PerArena(d) && b == BlockAt(p, d, j);
    if i < j {
      BlocksApart(p, d, i, j);
    } else if j < i {
      BlocksApart(p, d, j, i);
    }
  }

  /** A held block lies inside its arena, after the header. */
  lemma InArena(h: Heap, a: nat)
    requires Inv(h) && a in h.live
    ensures LiveOk(h, a)
    ensures var p := a / PGSIZE;
      PGSIZE * p + HEADER <= a && a + Capacity(h.arenas, a) <= PGSIZE * (p + Pages(h.arenas[p]))
  {
    assert LiveOk(h, a);
    var p := a / PGSIZE;
    if h.arenas[p].Small? {
      var i :| 0 <= i < PerArena(h.arenas[p].desc) && a == BlockAt(p, h.arenas[p].desc, i);
    }
  }

  /** No held block touches an arena's header. */
  lemma HeaderApart(h: Heap, a: nat, p: nat)
    requires Inv(h) && a in h.live && p in h.arenas
    ensures LiveOk(h, a)
    ensures a + Capacity(h.arenas, a) <= PGSIZE * p || PGSIZE * p + HEADER <= a
  {
    InArena(h, a);
  }

  /** An arena keeps its pages exactly as long as a block in it is held. */
  lemma ArenaIsNeeded(h: Heap, p: nat)
    requires Inv(h) && p in h.arenas
    ensures exists a :: a in h.live && a / PGSIZE == p
  {
    assert Counted(h, p) && Split(h, p);
    match h.arenas[p]
    case Small(d, cnt) =>
      var idx := FreeIdx(h.lists[d], p, d);
      var i := Missing(idx, PerArena(d));
      assert BlockAt(p, d, i) in h.live && BlockAt(p, d, i) / PGSIZE == p;
    case Big(_) =>
      assert (PGSIZE * p + HEADER) / PGSIZE == p;
  }

  /** A set of fewer than `n` numbers leaves out one below `n`. */
  lemma {:induction false} Missing(s: set<nat>, n: nat) returns (i: nat)
    requires |s| < n
    ensures i < n && i !in s
  {
    if n - 1 !in s {
      i := n - 1;
    } else {
      i := Missing(s - {n - 1}, n - 1);
    }
  }

  /** A set of numbers below `n` that has `n` of them has them all. */
  lemma AllThere(s: set<nat>, n: nat, i: nat)
    requires |s| >= n && (forall k | k in s :: k < n) && i < n
    ensures i in s
  {
    if i !in s {
      TooMany(s + {i}, n);
    }
  }

  lemma {:induction false} TooMany(s: set<nat>, n: nat)
    requires forall k | k in s :: k < n
    ensures |s| <= n
  {
    if n > 0 {
      TooMany(s - {n - 1}, n - 1);
      if n - 1 in s {
        assert s == (s - {n - 1}) + {n - 1};
      } else {
        assert s - {n - 1} == s;
      }
    } else {
      assert s == {};
    }
  }

  // ---------- The steps ----------

  /** What palloc promises: `cnt` pages from `page` on that no arena has. */
  ghost predicate PagesFree(arenas: map<nat, Arena>, page: nat, cnt: nat) {
    page > 0 && cnt > 0 && page !in arenas &&
    forall p | p in arenas :: p + Pages(arenas[p]) <= page || page + cnt <= p
  }

  /** A big block. */
  function BigTaken(h: Heap, page: nat, cnt: nat, size: nat): Heap {
    h.(arenas := h.arenas[page := Big(cnt)], live := h.live[PGSIZE * page + HEADER := size])
  }

  /** The blocks of a new arena, in order. */
  function Blocks(page: nat, d: nat, n: nat): (r: seq<nat>)
    requires d < DESC_CNT && n <= PerArena(d)
    ensures |r| == n && forall i :: 0 <= i < n ==> r[i] == BlockAt(page, d, i)
  {
    if n == 0 then [] else Blocks(page, d, n - 1) + [BlockAt(page, d, n - 1)]
  }

  /** A new arena, all of it free. */
  function Carved(h: Heap, page: nat, d: nat): Heap
    requires |h.lists| == DESC_CNT && d < DESC_CNT
  {
    h.(arenas := h.arenas[page := Small(d, PerArena(d))], lists := h.lists[d := Blocks(page, d, PerArena(d))])
  }

  /** The first block of the free list handed out. */
  function Popped(h: Heap, d: nat, size: nat): Heap
    requires d < |h.lists| && h.lists[d] != []
  {
    var a := h.lists[d][0];
    Heap(Adjusted(h.arenas, a / PGSIZE, -1), h.lists[d := h.lists[d][1..]], h.live[a := size])
  }

  /** free_cnt of one arena changed by `delta`. */
  function Adjusted(arenas: map<nat, Arena>, p: nat, delta: int): map<nat, Arena> {
    if p in arenas && arenas[p].Small? && arenas[p].freeCnt + delta >= 0
    then arenas[p := arenas[p].(freeCnt := arenas[p].freeCnt + delta)] else arenas
  }

  /** A block back at the front of its free list. */
  function Pushed(h: Heap, a: nat, d: nat): Heap
    requires d < |h.lists|
  {
    Heap(Adjusted(h.arenas, a / PGSIZE, 1), h.lists[d := [a] + h.lists[d]], h.live - {a})
  }

  /** An arena's page given back, and `list` what is left of the free list. */
  function Dropped(h: Heap, page: nat, d: nat, list: seq<nat>): Heap
    requires d < |h.lists|
  {
    h.(arenas := h.arenas - {page}, lists := h.lists[d := list])
  }

  /** A big block's pages given back. */
  function BigFreed(h: Heap, a: nat): Heap {
    h.(arenas := h.arenas - {a / PGSIZE}, live := h.live - {a})
  }

  // ---------- Each step keeps the invariant ----------

  lemma CountedSame(h: Heap, h': Heap, p: nat)
    requires ListsOk(h) && ListsOk(h') && ArenasOk(h.arenas) && p in h.arenas && p in h'.arenas
    requires h'.arenas[p] == h.arenas[p] && Counted(h, p)
    requires h.arenas[p].Small? ==>
      forall a | a / PGSIZE == p :: a in h'.lists[h.arenas[p].desc] <==> a in h.lists[h.arenas[p].desc]
    ensures Counted(h', p)
  {
    hide PerArena, BlockSize, BlockAt;
    if h.arenas[p].Small? {
      var d := h.arenas[p].desc;
      assert FreeIdx(h'.lists[d], p, d) == FreeIdx(h.lists[d], p, d);
    }
  }

  lemma SplitSame(h: Heap, h': Heap, p: nat)
    requires ListsOk(h) && ListsOk(h') && ArenasOk(h.arenas) && p in h.arenas && p in h'.arenas
    requires h'.arenas[p] == h.arenas[p] && Split(h, p)
    requires h.arenas[p].Small? ==>
      forall a | a / PGSIZE == p :: a in h'.lists[h.arenas[p].desc] <==> a in h.lists[h.arenas[p].desc]
    requires forall a | a / PGSIZE == p :: a in h'.live <==> a in h.live
    ensures Split(h', p)
  {
    hide PerArena, BlockSize, BlockAt;
    if h.arenas[p].Big? {
      assert (PGSIZE * p + HEADER) / PGSIZE == p;
    }
  }

  /** A step that leaves arena `p` and the blocks in it alone keeps what holds of them. */
  lemma ArenaSame(h: Heap, h': Heap, but: nat, p: nat)
    requires InvBut(h, but) && ListsOk(h') && p in h.arenas && p in h'.arenas
    requires h'.arenas[p] == h.arenas[p]
    requires h.arenas[p].Small? ==>
      forall a | a / PGSIZE == p :: a in h'.lists[h.arenas[p].desc] <==> a in h.lists[h.arenas[p].desc]
    requires forall a | a / PGSIZE == p :: a in h'.live <==> a in h.live
    ensures Counted(h', p) && Split(h', p)
  {
    hide Counted, Split, ListsOk, LiveOk;
    CountedSame(h, h', p);
    SplitSame(h, h', p);
  }

  lemma ListSame(arenas: map<nat, Arena>, arenas': map<nat, Arena>, d: nat, list: seq<nat>)
    requires d < DESC_CNT && ListOk(arenas, d, list)
    requires forall p | p in arenas && arenas[p].Small? :: p in arenas' && arenas'[p].Small? && arenas'[p].desc == arenas[p].desc
    ensures ListOk(arenas', d, list)
  {
    hide NoDup, IsBlock;
  }

  lemma BigKeeps(h: Heap, page: nat, cnt: nat, size: nat)
    requires Inv(h) && PagesFree(h.arenas, page, cnt)
    ensures Inv(BigTaken(h, page, cnt, size))
    ensures PGSIZE * page + HEADER !in h.live
  {
    hide Counted, Split, ListOk, IsBlock, ArenasOk;
    var h', a := BigTaken(h, page, cnt, size), PGSIZE * page + HEADER;
    assert a / PGSIZE == page;
    NotLive(h, page, a);
    forall d | 0 <= d < DESC_CNT ensures ListOk(h'.arenas, d, h'.lists[d]) {
      ListSame(h.arenas, h'.arenas, d, h.lists[d]);
    }
    forall p | p in h'.arenas ensures Counted(h', p) && Split(h', p) && InUse(h'.arenas[p]) {
      if p == page {
        BigOk(h', p);
      } else {
        ArenaSame(h, h', 0, p);
      }
    }
    forall b | b in h'.live ensures LiveOk(h', b) {
      if b != a {
        LiveSame(h, h', b);
      }
    }
    ArenaAdded(h.arenas, page, Big(cnt));
  }

  lemma ArenaAdded(arenas: map<nat, Arena>, page: nat, arena: Arena)
    requires ArenasOk(arenas) && PagesFree(arenas, page, Pages(arena))
    requires arena.Small? ==> arena.desc < DESC_CNT
    ensures ArenasOk(arenas[page := arena])
  {
  }

  lemma LiveSame(h: Heap, h': Heap, b: nat)
    requires LiveOk(h, b)
    requires var p := b / PGSIZE;
      && p in h'.arenas && (h'.arenas[p].Small? <==> h.arenas[p].Small?)
      && (h.arenas[p].Small? ==> h'.arenas[p].desc == h.arenas[p].desc)
    ensures LiveOk(h', b)
  {
  }

  lemma NotLive(h: Heap, page: nat, a: nat)
    requires Inv(h) && page !in h.arenas && a / PGSIZE == page
    ensures a !in h.live
  {
  }

  lemma BigOk(h: Heap, p: nat)
    requires ListsOk(h) && p in h.arenas && h.arenas[p].Big? && PGSIZE * p + HEADER in h.live
    ensures Counted(h, p) && Split(h, p)
  {
  }

  lemma BigFreeKeeps(h: Heap, a: nat)
    requires Inv(h) && a in h.live && a / PGSIZE in h.arenas && h.arenas[a / PGSIZE].Big?
    ensures Inv(BigFreed(h, a))
  {
    hide Counted, Split, ListOk, IsBlock;
    var h', page := BigFreed(h, a), a / PGSIZE;
    assert LiveOk(h, a);
    forall d | 0 <= d < DESC_CNT ensures ListOk(h'.arenas, d, h'.lists[d]) {
      ListSame(h.arenas, h'.arenas, d, h.lists[d]);
    }
    forall p | p in h'.arenas ensures Counted(h', p) && Split(h', p) && InUse(h'.arenas[p]) {
      ArenaSame(h, h', 0, p);
    }
    forall b | b in h'.live ensures LiveOk(h', b) {
      assert LiveOk(h, b);
    }
  }

  // ---------- Small blocks ----------

  lemma SameBlock(p: nat, d: nat, i: nat, j: nat)
    requires d < DESC_CNT && i < PerArena(d) && j < PerArena(d) && BlockAt(p, d, i) == BlockAt(p, d, j)
    ensures i == j
  {
    hide PerArena, BlockSize, BlockAt;
    if i < j {
      BlocksApart(p, d, i, j);
    } else if j < i {
      BlocksApart(p, d, j, i);
    }
  }

  lemma BlocksOk(arenas: map<nat, Arena>, page: nat, d: nat)
    requires d < DESC_CNT && page in arenas && arenas[page] == Small(d, PerArena(d))
    ensures ListOk(arenas, d, Blocks(page, d, PerArena(d)))
    ensures |FreeIdx(Blocks(page, d, PerArena(d)), page, d)| == PerArena(d)
  {
    hide PerArena, BlockSize, BlockAt, Blocks;
    var list := Blocks(page, d, PerArena(d));
    forall i, j | 0 <= i < j < |list| ensures list[i] != list[j] {
      BlocksApart(page, d, i, j);
    }
    forall a | a in list ensures Homed(arenas, d, a) {
      var i :| 0 <= i < |list| && list[i] == a;
    }
    var idx := FreeIdx(list, page, d);
    TooMany(idx, PerArena(d));
    if |idx| < PerArena(d) {
      var i := Missing(idx, PerArena(d));
      assert false;
    }
  }

  lemma CarveKeeps(h: Heap, page: nat, d: nat)
    requires Inv(h) && d < DESC_CNT && h.lists[d] == [] && PagesFree(h.arenas, page, 1)
    ensures InvBut(Carved(h, page, d), page)
  {
    hide Counted, Split, ListOk, IsBlock, PerArena, BlockSize, BlockAt, Blocks;
    var h' := Carved(h, page, d);
    BlocksOk(h'.arenas, page, d);
    forall e | 0 <= e < DESC_CNT ensures ListOk(h'.arenas, e, h'.lists[e]) {
      if e != d {
        ListSame(h.arenas, h'.arenas, e, h.lists[e]);
      }
    }
    forall p | p in h'.arenas ensures Counted(h', p) && Split(h', p) {
      if p == page {
        CarvedArena(h, page, d);
      } else {
        ArenaSame(h, h', 0, p);
      }
    }
    forall b | b in h'.live ensures LiveOk(h', b) {
      assert LiveOk(h, b);
    }
  }

  lemma CarvedArena(h: Heap, page: nat, d: nat)
    requires Inv(h) && d < DESC_CNT && page !in h.arenas
    ensures Counted(Carved(h, page, d), page) && Split(Carved(h, page, d), page)
  {
    hide PerArena, BlockSize, BlockAt, Blocks, ListOk;
    var h' := Carved(h, page, d);
    BlocksOk(h'.arenas, page, d);
    forall i | 0 <= i < PerArena(d)
      ensures BlockAt(page, d, i) in h'.lists[d] && BlockAt(page, d, i) !in h'.live
    {
      assert Blocks(page, d, PerArena(d))[i] == BlockAt(page, d, i);
      NotLive(h, page, BlockAt(page, d, i));
    }
  }

  /** One block more or less on a free list is one index more or less. */
  lemma IdxOfTail(list: seq<nat>, p: nat, d: nat, i: nat)
    requires d < DESC_CNT && i < PerArena(d) && NoDup(list) && list != [] && list[0] == BlockAt(p, d, i)
    ensures FreeIdx(list, p, d) == FreeIdx(list[1..], p, d) + {i} && i !in FreeIdx(list[1..], p, d)
  {
    hide PerArena, BlockSize, BlockAt;
    var tail := list[1..];
    assert forall a :: a in list <==> a == list[0] || a in tail;
    assert list[0] !in tail;
    forall k | 0 <= k < PerArena(d) && BlockAt(p, d, k) == BlockAt(p, d, i) ensures k == i {
      SameBlock(p, d, k, i);
    }
  }

  /** Where a pop, or read backwards a push, moves block `i` of arena `q`: `more` has it free, `less` has it held. */
  ghost predicate Moves(more: Heap, less: Heap, q: nat, d: nat, i: nat) {
    && d < DESC_CNT && i < PerArena(d) && |more.lists| == DESC_CNT && more.lists[d] != []
    && q in more.arenas && more.arenas[q].Small? && more.arenas[q].desc == d && more.arenas[q].freeCnt > 0
    && more.lists[d][0] == BlockAt(q, d, i) && BlockAt(q, d, i) !in more.live
    && less.lists == more.lists[d := more.lists[d][1..]]
    && less.arenas == more.arenas[q := Small(d, more.arenas[q].freeCnt - 1)]
    && less.live.Keys == more.live.Keys + {BlockAt(q, d, i)}
  }

  lemma MovesCount(more: Heap, less: Heap, q: nat, d: nat, i: nat)
    requires Moves(more, less, q, d, i) && NoDup(more.lists[d])
    ensures Counted(more, q) <==> Counted(less, q)
  {
    hide PerArena, BlockSize, BlockAt, FreeIdx;
    IdxOfTail(more.lists[d], q, d, i);
  }

  lemma MovesSplit(more: Heap, less: Heap, q: nat, d: nat, i: nat)
    requires Moves(more, less, q, d, i) && NoDup(more.lists[d])
    ensures Split(more, q) <==> Split(less, q)
  {
    hide PerArena, BlockSize, BlockAt, FreeIdx;
    var list, tail := more.lists[d], less.lists[d];
    assert forall a :: a in list <==> a == list[0] || a in tail;
    assert list[0] !in tail;
    forall k | 0 <= k < PerArena(d)
      ensures (BlockAt(q, d, k) in list <==> BlockAt(q, d, k) !in more.live) <==>
              (BlockAt(q, d, k) in tail <==> BlockAt(q, d, k) !in less.live)
    {
    }
  }

  lemma MovesLists(more: Heap, less: Heap, q: nat, d: nat, i: nat)
    requires Moves(more, less, q, d, i)
    ensures ListsOk(more) ==> ListsOk(less)
    ensures ListsOk(less) && more.lists[d][0] !in less.lists[d] ==> ListsOk(more)
  {
    hide PerArena, BlockSize, BlockAt;
    if ListsOk(more) {
      forall e | 0 <= e < DESC_CNT ensures ListOk(less.arenas, e, less.lists[e]) {
        ListSame(more.arenas, less.arenas, e, more.lists[e]);
        ListTail(less.arenas, e, more.lists[e]);
      }
    }
    if ListsOk(less) && more.lists[d][0] !in less.lists[d] {
      forall e | 0 <= e < DESC_CNT ensures ListOk(more.arenas, e, more.lists[e]) {
        ListSame(less.arenas, more.arenas, e, less.lists[e]);
        if e == d {
          assert Homed(more.arenas, d, BlockAt(q, d, i));
          assert more.lists[d] == [BlockAt(q, d, i)] + less.lists[d];
          ListCons(more.arenas, d, BlockAt(q, d, i), less.lists[d]);
        }
      }
    }
  }

  lemma ListTail(arenas: map<nat, Arena>, d: nat, list: seq<nat>)
    requires d < DESC_CNT && ListOk(arenas, d, list)
    ensures list != [] ==> ListOk(arenas, d, list[1..])
  {
    hide Homed;
  }

  lemma ListCons(arenas: map<nat, Arena>, d: nat, a: nat, list: seq<nat>)
    requires d < DESC_CNT && ListOk(arenas, d, list) && Homed(arenas, d, a) && a !in list
    ensures ListOk(arenas, d, [a] + list)
  {
    hide Homed;
  }

  /** The rest of the invariant is the same on both sides of a move. */
  lemma MovesOthers(h: Heap, h': Heap, but: nat, q: nat, d: nat, a: nat, p: nat)
    requires InvBut(h, but) && ListsOk(h') && a / PGSIZE == q && p != q && p in h.arenas
    requires p in h'.arenas && h'.arenas[p] == h.arenas[p] && d < DESC_CNT
    requires forall e :: 0 <= e < DESC_CNT && e != d ==> h'.lists[e] == h.lists[e]
    requires forall b | b != a :: (b in h'.lists[d] <==> b in h.lists[d]) && (b in h'.live <==> b in h.live)
    ensures Counted(h', p) && Split(h', p)
  {
    hide Counted, Split, ListOk, LiveOk;
    ArenaSame(h, h', but, p);
  }

  /** The first block of a free list, the arena it is in, and that the arena counts it. */
  lemma Head(h: Heap, but: nat, d: nat) returns (q: nat, i: nat)
    requires InvBut(h, but) && d < DESC_CNT && h.lists[d] != []
    ensures i < PerArena(d) && h.lists[d][0] == BlockAt(q, d, i) && h.lists[d][0] / PGSIZE == q
    ensures q in h.arenas && h.arenas[q].Small? && h.arenas[q].desc == d
    ensures 0 < h.arenas[q].freeCnt <= PerArena(d) && BlockAt(q, d, i) !in h.live
  {
    hide PerArena, BlockSize, BlockAt, LiveOk;
    var a := h.lists[d][0];
    assert ListOk(h.arenas, d, h.lists[d]) && Homed(h.arenas, d, a);
    q := a / PGSIZE;
    i :| 0 <= i < PerArena(d) && a == BlockAt(q, d, i);
    assert Counted(h, q) && Split(h, q);
    var idx := FreeIdx(h.lists[d], q, d);
    assert i in idx;
    TooMany(idx, PerArena(d));
  }

  lemma PopKeeps(h: Heap, d: nat, size: nat)
    requires d < DESC_CNT && |h.lists| == DESC_CNT && h.lists[d] != [] && InvBut(h, h.lists[d][0] / PGSIZE)
    ensures Inv(Popped(h, d, size)) && h.lists[d][0] !in h.live
    ensures var q := h.lists[d][0] / PGSIZE;
      q in h.arenas && h.arenas[q].Small? && h.arenas[q].desc == d && h.arenas[q].freeCnt > 0
  {
    hide PerArena, BlockSize, BlockAt, Counted, Split, ListOk, IsBlock;
    var h', a := Popped(h, d, size), h.lists[d][0];
    var q, i := Head(h, a / PGSIZE, d);
    assert Moves(h, h', q, d, i);
    assert ListOk(h.arenas, d, h.lists[d]);
    ListIsNoDup(h.arenas, d, h.lists[d]);
    MovesLists(h, h', q, d, i);
    MovesCount(h, h', q, d, i);
    MovesSplit(h, h', q, d, i);
    assert forall b :: b in h.lists[d] <==> b == a || b in h'.lists[d];
    forall p | p in h'.arenas && p != q ensures Counted(h', p) && Split(h', p) && InUse(h'.arenas[p]) {
      MovesOthers(h, h', q, q, d, a, p);
    }
    forall b | b in h'.live ensures LiveOk(h', b) {
      if b == a {
        NowLive(h', q, d, i);
      } else {
        LiveSame(h, h', b);
      }
    }
    AdjustedOk(h.arenas, q, h'.arenas[q].freeCnt);
  }

  lemma ListIsNoDup(arenas: map<nat, Arena>, d: nat, list: seq<nat>)
    requires d < DESC_CNT && ListOk(arenas, d, list)
    ensures NoDup(list)
  {
  }

  lemma NowLive(h: Heap, q: nat, d: nat, i: nat)
    requires d < DESC_CNT && i < PerArena(d) && q in h.arenas && h.arenas[q].Small? && h.arenas[q].desc == d
    ensures LiveOk(h, BlockAt(q, d, i))
  {
  }

  lemma AdjustedOk(arenas: map<nat, Arena>, q: nat, cnt: nat)
    requires ArenasOk(arenas) && q in arenas && arenas[q].Small?
    ensures ArenasOk(arenas[q := Small(arenas[q].desc, cnt)])
  {
  }

  lemma PushKeeps(h: Heap, a: nat, d: nat)
    requires Inv(h) && a in h.live && d < DESC_CNT
    requires a / PGSIZE in h.arenas && h.arenas[a / PGSIZE].Small? && h.arenas[a / PGSIZE].desc == d
    ensures InvBut(Pushed(h, a, d), a / PGSIZE)
  {
    hide PerArena, BlockSize, BlockAt, Counted, Split, ListOk;
    var h', q := Pushed(h, a, d), a / PGSIZE;
    assert LiveOk(h, a);
    var i :| 0 <= i < PerArena(d) && a == BlockAt(q, d, i);
    NotFree(h, q, d, i);
    assert h'.lists[d][1..] == h.lists[d];
    assert Moves(h', h, q, d, i);
    MovesLists(h', h, q, d, i);
    ListIsNoDup(h'.arenas, d, h'.lists[d]);
    MovesCount(h', h, q, d, i);
    MovesSplit(h', h, q, d, i);
    assert forall b :: b in h'.lists[d] <==> b == a || b in h.lists[d];
    forall p | p in h'.arenas && p != q ensures Counted(h', p) && Split(h', p) && InUse(h'.arenas[p]) {
      MovesOthers(h, h', 0, q, d, a, p);
    }
    forall b | b in h'.live ensures LiveOk(h', b) {
      LiveSame(h, h', b);
    }
    AdjustedOk(h.arenas, q, h'.arenas[q].freeCnt);
  }

  lemma NotFree(h: Heap, q: nat, d: nat, i: nat)
    requires Inv(h) && IsSmall(h, q) && h.arenas[q].desc == d && i < PerArena(d) && BlockAt(q, d, i) in h.live
    ensures BlockAt(q, d, i) !in h.lists[d]
  {
    hide PerArena, BlockSize, BlockAt, ListOk, LiveOk, Counted;
    assert Split(h, q);
  }

  /** No block of an arena is held once its count is full. */
  lemma FullIsFree(h: Heap, but: nat, p: nat, a: nat)
    requires InvBut(h, but) && IsSmall(h, p) && h.arenas[p].freeCnt >= PerArena(h.arenas[p].desc) && a / PGSIZE == p
    ensures a !in h.live
  {
    hide PerArena, BlockSize, BlockAt, ListOk;
    if a in h.live {
      var d := h.arenas[p].desc;
      assert LiveOk(h, a) && Counted(h, p) && Split(h, p);
      var i :| 0 <= i < PerArena(d) && a == BlockAt(p, d, i);
      AllThere(FreeIdx(h.lists[d], p, d), PerArena(d), i);
    }
  }

  lemma DropKeeps(h: Heap, p: nat, d: nat, list: seq<nat>)
    requires InvBut(h, p) && IsSmall(h, p) && h.arenas[p].desc == d && h.arenas[p].freeCnt >= PerArena(d)
    requires NoDup(list) && forall a :: a in list <==> a in h.lists[d] && a / PGSIZE != p
    ensures Inv(Dropped(h, p, d, list))
    ensures forall a | a in h.live :: a / PGSIZE != p
  {
    hide PerArena, BlockSize, BlockAt, Counted, Split, LiveOk;
    var h' := Dropped(h, p, d, list);
    forall a | a in h.live ensures a / PGSIZE != p {
      if a / PGSIZE == p {
        FullIsFree(h, p, p, a);
      }
    }
    forall e | 0 <= e < DESC_CNT ensures ListOk(h'.arenas, e, h'.lists[e]) {
      assert ListOk(h.arenas, e, h.lists[e]);
      ListWithout(h.arenas, p, e, h.lists[e], h'.lists[e]);
    }
    forall q | q in h'.arenas ensures Counted(h', q) && Split(h', q) && InUse(h'.arenas[q]) {
      ArenaSame(h, h', p, q);
    }
    forall b | b in h'.live ensures LiveOk(h', b) {
      DropLive(h, p, h', b);
    }
  }

  lemma DropLive(h: Heap, p: nat, h': Heap, b: nat)
    requires InvBut(h, p) && b in h.live && b / PGSIZE != p && h'.arenas == h.arenas - {p}
    ensures LiveOk(h', b)
  {
    hide PerArena, BlockSize, BlockAt, Counted, Split, IsBlock;
    assert LiveOk(h, b);
  }

  lemma ListWithout(arenas: map<nat, Arena>, p: nat, d: nat, list: seq<nat>, list': seq<nat>)
    requires d < DESC_CNT && ListOk(arenas, d, list) && NoDup(list') && p in arenas && arenas[p].Small?
    requires forall a | a in list' :: a in list && (arenas[p].desc == d ==> a / PGSIZE != p)
    ensures ListOk(arenas - {p}, d, list')
  {
    hide NoDup, IsBlock;
    forall a | a in list' ensures Homed(arenas - {p}, d, a) {
      assert Homed(arenas, d, a);
    }
  }

  // ---------- What a step leaves alone ----------

  /** Every block held before keeps its size. */
  ghost predicate Kept(h: Heap, h': Heap) {
    forall a | a in h.live && a in h'.live :: LiveOk(h, a) && LiveOk(h', a) && Capacity(h'.arenas, a) == Capacity(h.arenas, a)
  }

  /** It does when both states are sound and the arenas that stay keep their kind. */
  lemma KindsKept(h: Heap, h': Heap)
    requires Inv(h) && Inv(h')
    requires forall p | p in h.arenas && p in h'.arenas ::
      && (h'.arenas[p].Small? <==> h.arenas[p].Small?)
      && (h.arenas[p].Small? ==> h'.arenas[p].desc == h.arenas[p].desc)
      && (h.arenas[p].Big? ==> h'.arenas[p].pages == h.arenas[p].pages)
    ensures Kept(h, h')
  {
    hide PerArena, BlockSize, BlockAt, Counted, Split, IsBlock;
  }

  lemma InvGives(h: Heap, but: nat)
    requires Inv(h)
    ensures |h.lists| == DESC_CNT && InvBut(h, but)
  {
  }
}
