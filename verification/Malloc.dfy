/** malloc and free, on the arenas and free lists they update in place. */
module Malloc {
  import opened MallocSpec

  /** The page count malloc computes for a big block, in 32-bit arithmetic. */
  function PageCnt(size: nat): nat {
    ((size + HEADER) % SIZE_LIMIT + (PGSIZE - 1)) % SIZE_LIMIT / PGSIZE
  }

  /**
   A big block's pages hold the header and the request, or the count is zero and no block is
   given out, exactly when adding the header to the request does not wrap around to a
   positive number.
   */
  lemma PageCntHolds(size: nat)
    requires size < SIZE_LIMIT
    ensures (PageCnt(size) == 0 || PGSIZE * PageCnt(size) >= size + HEADER) <==> size + HEADER <= SIZE_LIMIT
  {
  }

  /** The request sizes in that gap: a block of one page for nearly 4 GB. */
  lemma WrappedRequest()
    ensures PageCnt(0xFFFF_FFFF) == 1
  {
  }

  /** The pages a call asks palloc for. */
  ghost function Asked(lists: seq<seq<nat>>, size: nat): nat
    requires |lists| == DESC_CNT
  {
    var d := DescFor(size);
    if d == DESC_CNT then PageCnt(size) else if lists[d] == [] then 1 else 0
  }

  /** The smallest descriptor whose blocks hold `size` bytes. */
  ghost function DescFor(size: nat): (d: nat)
    ensures d <= DESC_CNT && (d < DESC_CNT ==> size <= BlockSize(d))
    ensures forall e :: 0 <= e < d ==> BlockSize(e) < size
  {
    if size <= 16 then 0 else if size <= 32 then 1 else if size <= 64 then 2 else if size <= 128 then 3
    else if size <= 256 then 4 else if size <= 512 then 5 else if size <= 1024 then 6 else 7
  }

  /** malloc_init: the block sizes double from 16 while they are less than half a page. */
  method Init() returns (sizes: seq<nat>)
    ensures |sizes| == DESC_CNT && forall d :: 0 <= d < DESC_CNT ==> sizes[d] == BlockSize(d)
  {
    sizes := [];
    var size := 16;
    while size < PGSIZE / 2
      invariant |sizes| <= DESC_CNT && forall d :: 0 <= d < |sizes| ==> sizes[d] == BlockSize(d)
      invariant size == if |sizes| < DESC_CNT then BlockSize(|sizes|) else PGSIZE / 2
      decreases DESC_CNT - |sizes|
    {
      sizes := sizes + [size];
      size := size * 2;
    }
  }

  /** A list without one element. */
  function Removed(list: seq<nat>, a: nat): (r: seq<nat>)
    ensures NoDup(list) ==> NoDup(r) && forall b :: b in r <==> b in list && b != a
    ensures forall b | b in r :: b in list
  {
    if list == [] then []
    else if list[0] == a then
      assert list == [list[0]] + list[1..];
      list[1..]
    else
      var r := Removed(list[1..], a);
      assert list == [list[0]] + list[1..];
      assert NoDup(list) ==> NoDup(list[1..]) && list[0] !in list[1..];
      [list[0]] + r
  }

  class Allocator {
    var arenas: map<nat, Arena>
    var lists: seq<seq<nat>>
    ghost var live: map<nat, nat>

    ghost function Now(): Heap
      reads this
    {
      Heap(arenas, lists, live)
    }

    constructor ()
      ensures Inv(Now()) && live == map[]
    {
      arenas, lists, live := map[], seq(DESC_CNT, _ => []), map[];
    }

    /** Finding the descriptor. */
    method Find(size: nat) returns (d: nat)
      ensures d == DescFor(size)
    {
      d := 0;
      while d < DESC_CNT
        invariant d <= DESC_CNT
        invariant forall e :: 0 <= e < d ==> BlockSize(e) < size
      {
        if BlockSize(d) >= size {
          break;
        }
        d := d + 1;
      }
    }

    /** A new arena for descriptor `d` on page `page`, its blocks appended to the free list. */
    method Carve(page: nat, d: nat)
      requires |lists| == DESC_CNT && d < DESC_CNT && lists[d] == []
      modifies this
      ensures Now() == Carved(old(Now()), page, d)
    {
      hide BlockSize, PerArena, BlockAt;
      ghost var h := Now();
      assert h.lists[d := Blocks(page, d, 0)] == h.lists;
      arenas := arenas[page := Small(d, PerArena(d))];
      var i := 0;
      while i < PerArena(d)
        invariant 0 <= i <= PerArena(d)
        invariant |lists| == |h.lists| && lists == h.lists[d := Blocks(page, d, i)]
        invariant arenas == h.arenas[page := Small(d, PerArena(d))] && live == h.live
      {
        lists := lists[d := lists[d] + [BlockAt(page, d, i)]];
        i := i + 1;
      }
    }

    /**
     malloc.  `got` is the first of the pages palloc returns if it is asked for any, or 0.
     The result is 0 for the null pointer.
     */
    method Malloc(size: nat, got: nat) returns (r: nat)
      requires Inv(Now()) && size < SIZE_LIMIT
      requires got > 0 && Asked(lists, size) > 0 ==> PagesFree(arenas, got, Asked(lists, size))
      modifies this
      ensures Inv(Now())
      ensures r == 0 <==> size == 0 || (got == 0 && old(Asked(lists, size)) > 0) || (size > 1024 && PageCnt(size) == 0)
      ensures r == 0 ==> Now() == old(Now())
      ensures r != 0 ==> r !in old(live) && live == old(live)[r := size] && LiveOk(Now(), r)
      ensures r != 0 ==> (size <= Capacity(arenas, r) <==> size <= 1024 || size + HEADER <= SIZE_LIMIT)
      ensures r != 0 && old(Asked(lists, size)) == 0 ==> r == old(lists[DescFor(size)][0])
      ensures var asked := old(Asked(lists, size));
        Extents(arenas) == if r != 0 && asked > 0 then old(Extents(arenas))[got := asked] else old(Extents(arenas))
      ensures Kept(old(Now()), Now())
    {
      hide InvBut, LiveOk, BlockSize, PerArena, BlockAt, PagesFree, PageCnt, Kept, Inv;
      ghost var h := Now();
      InvGives(h, 0);
      KindsKept(h, h);
      if size == 0 {
        return 0;
      }
      var d := Find(size);
      if d == DESC_CNT {
        var cnt := PageCnt(size);
        if got == 0 || cnt == 0 {
          return 0;
        }
        r := TakeBig(got, cnt, size);
        PageCntHolds(size);
        return;
      }
      if lists[d] == [] && got == 0 {
        return 0;
      }
      r := TakeSmall(d, size, got);
    }

    /** The pages for one big block. */
    method TakeBig(page: nat, cnt: nat, size: nat) returns (r: nat)
      requires Inv(Now()) && PagesFree(arenas, page, cnt)
      modifies this
      ensures Inv(Now()) && r > 0 && r !in old(live) && live == old(live)[r := size] && LiveOk(Now(), r)
      ensures Capacity(arenas, r) == PGSIZE * cnt - HEADER
      ensures Extents(arenas) == old(Extents(arenas))[page := cnt]
      ensures Kept(old(Now()), Now())
    {
      hide InvBut, LiveOk, Kept;
      ghost var h := Now();
      BigKeeps(h, page, cnt, size);
      arenas := arenas[page := Big(cnt)];
      r := PGSIZE * page + HEADER;
      live := live[r := size];
      assert r / PGSIZE == page;
      KindsKept(h, Now());
      LiveIsOk(Now(), r);
    }

    /** A block from the free list, with a new arena first if the list is empty. */
    method TakeSmall(d: nat, size: nat, got: nat) returns (r: nat)
      requires Inv(Now()) && d < DESC_CNT && |lists| == DESC_CNT
      requires lists[d] == [] ==> PagesFree(arenas, got, 1)
      modifies this
      ensures Inv(Now()) && r > 0 && r !in old(live) && live == old(live)[r := size] && LiveOk(Now(), r)
      ensures Capacity(arenas, r) == BlockSize(d)
      ensures old(lists[d]) != [] ==> r == old(lists[d][0])
      ensures Extents(arenas) == if old(lists[d]) == [] then old(Extents(arenas))[got := 1] else old(Extents(arenas))
      ensures Kept(old(Now()), Now())
    {
      hide Inv, InvBut, LiveOk, Kept, BlockSize, PerArena, BlockAt;
      ghost var h := Now();
      if lists[d] == [] {
        CarveKeeps(h, got, d);
        Carve(got, d);
        assert lists[d][0] == BlockAt(got, d, 0);
      } else {
        InvGives(h, lists[d][0] / PGSIZE);
      }
      r := lists[d][0];
      var q := r / PGSIZE;
      PopKeeps(Now(), d, size);
      lists := lists[d := lists[d][1..]];
      arenas := arenas[q := arenas[q].(freeCnt := arenas[q].freeCnt - 1)];
      live := live[r := size];
      KindsKept(h, Now());
      LiveIsOk(Now(), r);
      ZeroNotLive(Now());
    }

    /**
     free.  `p` is null or a block the caller holds.  Its arena goes exactly when no block in
     it is held any more, and no other arena goes.
     */
    method Free(p: nat)
      requires Inv(Now()) && (p == 0 || p in live)
      modifies this
      ensures Inv(Now()) && live == old(live) - {p}
      ensures forall q | q in old(arenas) :: q in arenas <==> exists a :: a in live && a / PGSIZE == q
      ensures Extents(arenas) == if p / PGSIZE in arenas then old(Extents(arenas)) else old(Extents(arenas)) - {p / PGSIZE}
      ensures Kept(old(Now()), Now())
    {
      hide Inv, InvBut, LiveOk, Kept, BlockSize, PerArena, BlockAt;
      ghost var h := Now();
      ZeroNotLive(h);
      if p != 0 {
        LiveIsOk(h, p);
        var page := p / PGSIZE;
        if arenas[page].Small? {
          FreeSmall(p, arenas[page].desc);
        } else {
          BigFreeKeeps(h, p);
          arenas := arenas - {page};
          live := live - {p};
          KindsKept(h, Now());
        }
      } else {
        KindsKept(h, h);
      }
      forall q | q in h.arenas ensures q in arenas <==> exists a :: a in live && a / PGSIZE == q {
        NeededExactly(Now(), q);
      }
    }

    /** A block back on its list, and the whole arena off it once all its blocks are. */
    method FreeSmall(a: nat, d: nat)
      requires Inv(Now()) && a in live && d < DESC_CNT
      requires a / PGSIZE in arenas && arenas[a / PGSIZE].Small? && arenas[a / PGSIZE].desc == d
      modifies this
      ensures Inv(Now()) && live == old(live) - {a} && arenas.Keys <= old(arenas).Keys
      ensures a / PGSIZE in arenas ==> lists == old(lists)[d := [a] + old(lists[d])]
      ensures Extents(arenas) == if a / PGSIZE in arenas then old(Extents(arenas)) else old(Extents(arenas)) - {a / PGSIZE}
      ensures Kept(old(Now()), Now())
    {
      hide Inv, InvBut, LiveOk, Kept, BlockSize, PerArena, BlockAt;
      ghost var h := Now();
      InvGives(h, 0);
      var page := a / PGSIZE;
      PushKeeps(h, a, d);
      lists := lists[d := [a] + lists[d]];
      live := live - {a};
      var cnt := arenas[page].freeCnt + 1;
      arenas := arenas[page := arenas[page].(freeCnt := cnt)];
      assert Now() == Pushed(h, a, d);
      if cnt >= PerArena(d) {
        ghost var pushed := Now();
        InvList(pushed, page, d);
        var list := Unlink(lists[d], page, d);
        lists := lists[d := list];
        arenas := arenas - {page};
        DropKeeps(pushed, page, d, list);
      } else {
        InvFrom(Now(), page);
      }
      KindsKept(h, Now());
    }

    /** The loop that takes an arena's blocks off the free list. */
    method Unlink(start: seq<nat>, page: nat, d: nat) returns (list: seq<nat>)
      requires d < DESC_CNT && ListOk(arenas, d, start)
      ensures NoDup(list) && forall a :: a in list <==> a in start && a / PGSIZE != page
    {
      hide BlockSize, PerArena, BlockAt, IsBlock;
      list := start;
      var i := 0;
      while i < PerArena(d)
        invariant 0 <= i <= PerArena(d) && NoDup(list)
        invariant forall a :: a in list <==> a in start && forall k :: 0 <= k < i ==> a != BlockAt(page, d, k)
      {
        list := Removed(list, BlockAt(page, d, i));
        i := i + 1;
      }
      forall a | a in start ensures a in list <==> a / PGSIZE != page {
        OnPage(arenas, d, start, a, page);
      }
    }
  }

  lemma OnPage(arenas: map<nat, Arena>, d: nat, list: seq<nat>, a: nat, page: nat)
    requires d < DESC_CNT && ListOk(arenas, d, list) && a in list
    ensures a / PGSIZE == page <==> exists k :: 0 <= k < PerArena(d) && a == BlockAt(page, d, k)
  {
    hide BlockSize, PerArena, BlockAt;
    assert Homed(arenas, d, a);
  }

  lemma LiveIsOk(h: Heap, a: nat)
    requires Inv(h) && a in h.live
    ensures LiveOk(h, a)
  {
  }

  lemma InvList(h: Heap, but: nat, d: nat)
    requires InvBut(h, but) && d < DESC_CNT
    ensures ListOk(h.arenas, d, h.lists[d])
  {
  }

  lemma ZeroNotLive(h: Heap)
    requires Inv(h)
    ensures 0 !in h.live
  {
    if 0 in h.live {
      InArena(h, 0);
    }
  }

  lemma InvFrom(h: Heap, but: nat)
    requires InvBut(h, but) && (but in h.arenas ==> InUse(h.arenas[but]))
    ensures Inv(h)
  {
  }

  lemma NeededExactly(h: Heap, q: nat)
    requires Inv(h)
    ensures q in h.arenas <== exists a :: a in h.live && a / PGSIZE == q
    ensures q in h.arenas ==> exists a :: a in h.live && a / PGSIZE == q
  {
    hide Counted, Split, ListsOk, ArenasOk;
    if q in h.arenas {
      ArenaIsNeeded(h, q);
    }
  }
}
