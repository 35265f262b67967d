/**
 The block allocator on the page allocator of palloc.c, and whole runs of malloc and free:
 pages come from a first-fit search of the pool's bitmap and go back to it.
 */
module MallocRuns {
  import opened FreeMap
  import opened Malloc
  import opened MallocSpec

  // ---------- The pool ----------

  ghost predicate Covered(ext: map<nat, nat>, q: int) {
    exists p :: p in ext && p <= q < p + ext[p]
  }

  /**
   The arenas with their extents lie in the pool, in pages that nobody else has, and a page
   is marked exactly if an arena or somebody else has it.
   */
  ghost predicate PoolOk(ext: map<nat, nat>, base: nat, used: seq<bool>, others: seq<bool>) {
    && base > 0 && |used| == |others|
    && (forall p | p in ext :: base <= p && RunIs(others, p - base, ext[p], false))
    && (forall i :: 0 <= i < |used| ==> (used[i] <==> others[i] || Covered(ext, base + i)))
  }

  /** Extents do not meet. */
  ghost predicate Disjoint(ext: map<nat, nat>) {
    forall p, q | p in ext && q in ext && p < q :: p + ext[p] <= q
  }

  lemma ArenasAreDisjoint(h: Heap)
    requires Inv(h)
    ensures Disjoint(Extents(h.arenas)) && forall p | p in h.arenas :: Pages(h.arenas[p]) > 0
  {
    hide Counted, Split, ListsOk, LiveOk, InUse;
  }

  /** Clear bits are pages that no arena has. */
  lemma ClearIsFree(arenas: map<nat, Arena>, base: nat, used: seq<bool>, others: seq<bool>, start: nat, cnt: nat)
    requires PoolOk(Extents(arenas), base, used, others) && cnt > 0 && RunIs(used, start, cnt, false)
    requires forall p | p in arenas :: Pages(arenas[p]) > 0
    ensures PagesFree(arenas, base + start, cnt)
  {
    forall p | p in arenas ensures p + Pages(arenas[p]) <= base + start || base + start + cnt <= p {
      assert p in Extents(arenas);
      if !(p + Pages(arenas[p]) <= base + start || base + start + cnt <= p) {
        CoveredIsMarked(Extents(arenas), base, used, others, p, if p < base + start then start else p - base);
      }
    }
  }

  lemma CoveredIsMarked(ext: map<nat, nat>, base: nat, used: seq<bool>, others: seq<bool>, p: nat, i: nat)
    requires PoolOk(ext, base, used, others) && i < |used| && p in ext && p <= base + i < p + ext[p]
    ensures used[i]
  {
    assert Covered(ext, base + i);
  }

  /** palloc_get_multiple for a new arena. */
  lemma PagesTaken(ext: map<nat, nat>, base: nat, used: seq<bool>, others: seq<bool>, start: nat, cnt: nat)
    requires PoolOk(ext, base, used, others) && RunIs(used, start, cnt, false) && base + start !in ext
    ensures PoolOk(ext[base + start := cnt], base, Marked(used, start, cnt, true), others)
  {
    var ext', used' := ext[base + start := cnt], Marked(used, start, cnt, true);
    forall i | 0 <= i < |used'| ensures used'[i] <==> others[i] || Covered(ext', base + i) {
      if InRun(i, start, cnt) {
        assert base + start in ext' && base + start <= base + i < base + start + ext'[base + start];
      } else {
        CoveredBut(ext, ext', base + start, base + i);
      }
    }
  }

  /** palloc_free_multiple for an arena that goes. */
  lemma PagesGiven(ext: map<nat, nat>, base: nat, used: seq<bool>, others: seq<bool>, page: nat)
    requires PoolOk(ext, base, used, others) && Disjoint(ext) && page in ext
    ensures PoolOk(ext - {page}, base, Marked(used, page - base, ext[page], false), others)
  {
    var ext', used' := ext - {page}, Marked(used, page - base, ext[page], false);
    forall i | 0 <= i < |used'| ensures used'[i] <==> others[i] || Covered(ext', base + i) {
      if InRun(i, page - base, ext[page]) {
        assert !others[i];
        if Covered(ext', base + i) {
          var p :| p in ext' && p <= base + i < p + ext'[p];
          assert false;
        }
      } else {
        CoveredBut(ext', ext, page, base + i);
      }
    }
  }

  /** An extent that does not reach `q` makes no difference to it. */
  lemma CoveredBut(ext: map<nat, nat>, ext': map<nat, nat>, page: nat, q: int)
    requires page !in ext && page in ext' && ext'.Keys == ext.Keys + {page}
    requires forall p | p in ext :: ext'[p] == ext[p]
    requires !(page <= q < page + ext'[page])
    ensures Covered(ext', q) <==> Covered(ext, q)
  {
    if Covered(ext, q) {
      var p :| p in ext && p <= q < p + ext[p];
      assert p in ext' && p <= q < p + ext'[p];
    }
    if Covered(ext', q) {
      var p :| p in ext' && p <= q < p + ext'[p];
      assert p in ext && p <= q < p + ext[p];
    }
  }

  // ---------- The two allocators together ----------

  class Memory {
    const heap: Allocator
    const base: nat
    var used: seq<bool>

    /** The pages of the pool that the rest of the kernel has. */
    ghost const others: seq<bool>

    ghost predicate Valid()
      reads this, heap
    {
      Inv(heap.Now()) && PoolOk(Extents(heap.arenas), base, used, others)
    }

    constructor (base: nat, used: seq<bool>)
      requires base > 0
      ensures Valid() && heap.live == map[] && this.used == used == others
    {
      var h := new Allocator();
      heap := h;
      this.base := base;
      this.used := used;
      others := used;
      new;
      NoArenas(heap.Now());
    }

    /** palloc_get_multiple on the kernel pool: the first page of the lowest free run, or 0. */
    method GetPages(cnt: nat) returns (page: nat)
      requires Valid()
      modifies this`used
      ensures page == 0 <==> cnt == 0 || old(FirstFit(used, cnt, 0)) < 0
      ensures page == 0 ==> used == old(used)
      ensures page > 0 ==> page == base + old(FirstFit(used, cnt, 0))
      ensures page > 0 ==> used == Marked(old(used), page - base, cnt, true) && RunIs(old(used), page - base, cnt, false)
    {
      hide Inv;
      if cnt == 0 {
        return 0;
      }
      var idx := Scan(used, cnt);
      if idx < 0 {
        return 0;
      }
      used := Marked(used, idx, cnt, true);
      page := base + idx;
    }

    /** The pages malloc is about to ask for. */
    method Needed(size: nat) returns (cnt: nat)
      requires |heap.lists| == DESC_CNT
      ensures cnt == if size == 0 then 0 else Asked(heap.lists, size)
    {
      if size == 0 {
        return 0;
      }
      var d := heap.Find(size);
      cnt := if d == DESC_CNT then PageCnt(size) else if heap.lists[d] == [] then 1 else 0;
    }

    /** malloc with the pages it gets; it fails exactly if there are not enough, or for a size of 0 or close to 4 GB. */
    method Alloc(size: nat) returns (r: nat)
      requires Valid() && size < SIZE_LIMIT
      modifies this`used, heap
      ensures Valid() && |old(heap.lists)| == DESC_CNT
      ensures r == 0 <==>
        var cnt := old(Asked(heap.lists, size));
        size == 0 || (size > 1024 && cnt == 0) || (cnt > 0 && old(FirstFit(used, cnt, 0)) < 0)
      ensures r == 0 ==> used == old(used) && heap.Now() == old(heap.Now())
      ensures r != 0 ==> r !in old(heap.live) && heap.live == old(heap.live)[r := size]
      ensures r != 0 ==> LiveOk(heap.Now(), r)
      ensures r != 0 ==> (size <= Capacity(heap.arenas, r) <==> size <= 1024 || size + HEADER <= SIZE_LIMIT)
      ensures Kept(old(heap.Now()), heap.Now())
    {
      hide Inv, PoolOk, PagesFree, LiveOk, Kept, Capacity, PageCnt;
      ghost var h, was := heap.Now(), used;
      InvGives(h, 0);
      var cnt := Needed(size);
      var got := GetPages(cnt);
      if got > 0 {
        PagesServe(h, base, was, others, got, cnt);
      }
      r := heap.Malloc(size, got);
    }

    /** free, whose arena goes back to the pool with its last block. */
    method Release(p: nat)
      requires Valid() && (p == 0 || p in heap.live)
      modifies this`used, heap
      ensures Valid() && heap.live == old(heap.live) - {p}
      ensures Kept(old(heap.Now()), heap.Now())
    {
      hide Inv, PoolOk, LiveOk, Kept;
      ghost var h := heap.Now();
      ArenasAreDisjoint(h);
      var page := p / PGSIZE;
      var cnt := if page in heap.arenas then Pages(heap.arenas[page]) else 0;
      heap.Free(p);
      if page !in heap.arenas && cnt > 0 {
        PagesGiven(Extents(h.arenas), base, used, others, page);
        InPool(Extents(h.arenas), base, used, others, page);
        assert RunIs(used, page - base, cnt, true);
        used := Marked(used, page - base, cnt, false);
      } else {
        NoSuchArena(h.arenas, page);
      }
    }

    /** One call: `held` grows by what it gets. */
    method Do(c: Call, held: seq<nat>) returns (held': seq<nat>)
      requires Valid() && Tracks(held, heap.live) && (c.Get? ==> c.size < SIZE_LIMIT)
      modifies this`used, heap
      ensures Valid() && Tracks(held', heap.live) && Kept(old(heap.Now()), heap.Now())
      ensures |held'| == |held| + 1 && (held'[|held|] != 0 ==> Serves(heap.Now(), c, held'[|held|]))
      ensures forall k :: 0 <= k < |held| && held'[k] != 0 ==>
        held'[k] == held[k] && held[k] in old(heap.live) && held[k] in heap.live && heap.live[held[k]] == old(heap.live)[held[k]]
    {
      hide Inv, PoolOk, LiveOk, Kept, Capacity, PageCnt, Serves;
      ghost var h := heap.Now();
      ZeroNotLive(h);
      match c
      case Get(size) =>
        var r := Alloc(size);
        held' := held + [r];
        if r != 0 {
          ServesNow(heap.Now(), c, r);
          TracksOneMore(held, h.live, r, size);
        } else {
          TracksNone(held, h.live);
        }
      case Drop(k) =>
        var p := if k < |held| then held[k] else 0;
        Release(p);
        TracksNone(held, h.live);
        if k < |held| {
          TracksOneLess(held, h.live, k);
          TracksNone(held[k := 0], heap.live);
          held' := held[k := 0] + [0];
        } else {
          assert h.live - {0} == h.live;
          held' := held + [0];
        }
    }

    /**
     Any run of calls.  `held[k]` is the block that call `k` got and that has not been given
     back, or 0.  At the end, and so at any time, the held blocks are apart from each other
     and from every arena header and as large as asked for, unless the size is close to 4 GB;
     and if all were given back, so was every page.
     */
    method Run(calls: seq<Call>) returns (held: seq<nat>)
      requires Valid() && heap.live == map[]
      requires forall c <- calls :: c.Get? ==> c.size < SIZE_LIMIT
      modifies this`used, heap
      ensures Valid() && |held| == |calls|
      ensures forall k :: 0 <= k < |held| && held[k] != 0 ==> Serves(heap.Now(), calls[k], held[k])
      ensures forall j, k :: 0 <= j < k < |held| && held[j] != 0 && held[k] != 0 ==> Apart(heap.Now(), held[j], held[k])
      ensures (forall k :: 0 <= k < |held| ==> held[k] == 0) ==> heap.arenas == map[] && used == others
    {
      hide Inv, PoolOk, LiveOk, Kept, Capacity, PageCnt, Serves, Apart;
      held := [];
      var i := 0;
      while i < |calls|
        invariant 0 <= i <= |calls| && |held| == i && Valid()
        invariant Tracks(held, heap.live)
        invariant forall k :: 0 <= k < i && held[k] != 0 ==> Serves(heap.Now(), calls[k], held[k])
      {
        assert calls[i] in calls;
        ghost var h := heap.Now();
        held := Do(calls[i], held);
        forall k | 0 <= k < i && held[k] != 0 ensures Serves(heap.Now(), calls[k], held[k]) {
          ServesStill(h, heap.Now(), calls[k], held[k]);
        }
        i := i + 1;
      }
      forall j, k | 0 <= j < k < |held| && held[j] != 0 && held[k] != 0 ensures Apart(heap.Now(), held[j], held[k]) {
        HeldApart(heap.Now(), held[j], held[k]);
      }
      if forall k :: 0 <= k < |held| ==> held[k] == 0 {
        assert heap.live == map[];
        NoArenas(heap.Now());
        AllReturned(base, used, others);
      }
    }
  }

  /** No arena, no page: the pool is as the rest of the kernel has it. */
  lemma AllReturned(base: nat, used: seq<bool>, others: seq<bool>)
    requires PoolOk(map[], base, used, others)
    ensures used == others
  {
    forall i | 0 <= i < |used| ensures used[i] == others[i] {
      assert !Covered(map[], base + i);
    }
  }

  lemma TracksOneMore(held: seq<nat>, live: map<nat, nat>, r: nat, size: nat)
    requires Tracks(held, live) && r != 0 && r !in live
    ensures Tracks(held + [r], live[r := size])
  {
    forall a | a in live[r := size] ensures a in held + [r] && a != 0 {
      if a == r {
        assert (held + [r])[|held|] == r;
      }
    }
  }

  lemma TracksNone(held: seq<nat>, live: map<nat, nat>)
    requires Tracks(held, live)
    ensures Tracks(held + [0], live)
  {
  }

  lemma TracksOneLess(held: seq<nat>, live: map<nat, nat>, k: nat)
    requires Tracks(held, live) && k < |held|
    ensures Tracks(held[k := 0], live - {held[k]})
  {
    forall a | a in live - {held[k]} ensures a in held[k := 0] && a != 0 {
      var j :| 0 <= j < |held| && held[j] == a;
      assert held[k := 0][j] == a;
    }
  }

  /** malloc, or free of the block that call `k` got. */
  datatype Call = Get(size: nat) | Drop(k: nat)

  /** The held blocks are those that callers hold, each once. */
  ghost predicate Tracks(held: seq<nat>, live: map<nat, nat>) {
    && (forall k :: 0 <= k < |held| && held[k] != 0 ==> held[k] in live)
    && (forall a | a in live :: a in held && a != 0)
    && (forall j, k :: 0 <= j < k < |held| && held[j] != 0 ==> held[j] != held[k])
  }

  /** The block is what the call asked for. */
  ghost predicate Serves(h: Heap, c: Call, a: nat) {
    && c.Get? && a in h.live && h.live[a] == c.size && LiveOk(h, a)
    && (c.size <= Capacity(h.arenas, a) <==> c.size <= 1024 || c.size + HEADER <= SIZE_LIMIT)
    && forall p | p in h.arenas :: a + Capacity(h.arenas, a) <= PGSIZE * p || PGSIZE * p + HEADER <= a
  }

  ghost predicate Apart(h: Heap, a: nat, b: nat) {
    && LiveOk(h, a) && LiveOk(h, b)
    && (a + Capacity(h.arenas, a) <= b || b + Capacity(h.arenas, b) <= a)
  }

  lemma HeldApart(h: Heap, a: nat, b: nat)
    requires Inv(h) && a in h.live && b in h.live && a != b
    ensures Apart(h, a, b)
  {
    hide Inv;
    if a < b {
      LiveApart(h, a, b);
    } else {
      LiveApart(h, b, a);
    }
    LiveIsOk(h, a);
    LiveIsOk(h, b);
  }

  lemma ServesNow(h: Heap, c: Call, a: nat)
    requires Inv(h) && c.Get? && a in h.live && h.live[a] == c.size && LiveOk(h, a)
    requires c.size <= Capacity(h.arenas, a) <==> c.size <= 1024 || c.size + HEADER <= SIZE_LIMIT
    ensures Serves(h, c, a)
  {
    hide Inv;
    forall p | p in h.arenas ensures a + Capacity(h.arenas, a) <= PGSIZE * p || PGSIZE * p + HEADER <= a {
      HeaderApart(h, a, p);
    }
  }

  lemma ServesStill(h: Heap, h': Heap, c: Call, a: nat)
    requires Inv(h') && Kept(h, h') && Serves(h, c, a) && a in h'.live && h'.live[a] == h.live[a]
    ensures Serves(h', c, a)
  {
    hide Inv;
    ServesNow(h', c, a);
  }

  lemma NoArenas(h: Heap)
    requires Inv(h) && h.live == map[]
    ensures h.arenas == map[]
  {
    hide Inv;
    if exists p :: p in h.arenas {
      var p :| p in h.arenas;
      ArenaIsNeeded(h, p);
      assert false;
    }
  }

  /** The lowest free run will do for a new arena. */
  lemma PagesServe(h: Heap, base: nat, used: seq<bool>, others: seq<bool>, page: nat, cnt: nat)
    requires Inv(h) && PoolOk(Extents(h.arenas), base, used, others)
    requires base <= page && cnt > 0 && RunIs(used, page - base, cnt, false)
    ensures PagesFree(h.arenas, page, cnt)
    ensures PoolOk(Extents(h.arenas)[page := cnt], base, Marked(used, page - base, cnt, true), others)
  {
    hide Inv, PoolOk, PagesFree;
    ArenasAreDisjoint(h);
    ClearIsFree(h.arenas, base, used, others, page - base, cnt);
    FreeIsNoArena(h.arenas, page, cnt);
    PagesTaken(Extents(h.arenas), base, used, others, page - base, cnt);
  }

  lemma FreeIsNoArena(arenas: map<nat, Arena>, page: nat, cnt: nat)
    requires PagesFree(arenas, page, cnt)
    ensures page !in Extents(arenas)
  {
  }

  lemma NoSuchArena(arenas: map<nat, Arena>, page: nat)
    ensures page !in arenas ==> Extents(arenas) - {page} == Extents(arenas)
  {
  }

  /** The pages of an arena are marked. */
  lemma InPool(ext: map<nat, nat>, base: nat, used: seq<bool>, others: seq<bool>, page: nat)
    requires PoolOk(ext, base, used, others) && page in ext
    ensures base <= page && RunIs(used, page - base, ext[page], true)
  {
    forall i | page - base <= i < page - base + ext[page] ensures used[i] {
      CoveredIsMarked(ext, base, used, others, page, i);
    }
  }
}
