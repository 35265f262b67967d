/**
 synch.c: check_to_donate, the walk that passes a raised priority along the threads that
 wait for each other's locks.
 */
module Donate {

  class Lock {
    var holder: Thread?
  }

  class Thread {
    var priority: int
    var waitLock: Lock?
  }

  /** `next` is the wait graph of the threads: who holds the lock that a thread waits for. */
  ghost predicate IsGraph(all: set<Thread>, next: map<Thread, Thread>)
    reads all`waitLock, (set t | t in all && t.waitLock != null :: t.waitLock)`holder
  {
    && (forall t | t in next :: t in all && next[t] in all)
    && (forall t | t in all ::
         t in next <==> t.waitLock != null && t.waitLock.holder != null)
    && (forall t | t in next :: t.waitLock != null && t.waitLock.holder == next[t])
  }

  /** No holder is below its waiter. */
  ghost predicate Donated(all: set<Thread>, next: map<Thread, Thread>)
    requires forall t | t in next :: t in all && next[t] in all
    reads all`priority
  {
    forall t | t in next :: next[t].priority >= t.priority
  }

  /** The thread `k` holders down the chain from `t`, if the chain is that long. */
  ghost predicate Reaches(next: map<Thread, Thread>, from: Thread, to: Thread, k: nat) {
    if k == 0 then from == to else from in next && Reaches(next, next[from], to, k - 1)
  }

  ghost predicate Connected(next: map<Thread, Thread>, from: Thread, to: Thread) {
    exists k: nat :: Reaches(next, from, to, k)
  }

  lemma {:induction false} OneMore(next: map<Thread, Thread>, from: Thread, to: Thread, k: nat)
    requires Reaches(next, from, to, k) && to in next
    ensures Reaches(next, from, next[to], k + 1)
  {
    if k == 0 {
      assert Reaches(next, next[from], next[to], 0);
    } else {
      OneMore(next, next[from], to, k - 1);
    }
  }

  /** Priorities never fall along a chain. */
  lemma {:induction false} ChainRises(all: set<Thread>, next: map<Thread, Thread>, from: Thread, to: Thread, k: nat)
    requires (forall t | t in next :: t in all && next[t] in all) && Donated(all, next)
    requires Reaches(next, from, to, k)
    ensures to.priority >= from.priority
  {
    if k > 0 {
      ChainRises(all, next, next[from], to, k - 1);
    }
  }

  function Max(a: int, b: int): int { if a >= b then a else b }

  /** The threads a donation of `p` can still raise. */
  ghost function Lower(all: set<Thread>, p: int): set<Thread>
    reads all`priority
  {
    set t | t in all && t.priority < p
  }

  /**
   check_to_donate.  If only the holder `start` waits for may be below its waiter, then
   afterwards no holder is, and exactly the threads down the chain have been raised to
   `start`'s priority.  The chain may be a cycle, and the counter, which is never advanced,
   is not what ends the walk.
   */
  method CheckToDonate(start: Thread, ghost all: set<Thread>, ghost next: map<Thread, Thread>)
    requires IsGraph(all, next) && start in all
    requires forall t | t in next && t != start :: next[t].priority >= t.priority
    modifies all`priority
    ensures Donated(all, next)
    ensures forall t | t in all ::
      t.priority == if Connected(next, start, t) then Max(old(t.priority), start.priority) else old(t.priority)
    ensures start.priority == old(start.priority)
  {
    ghost var p := start.priority;
    var curr, l := start, start.waitLock;
    assert Reaches(next, start, start, 0);
    ghost var k := 0;
    var counter := 0;
    while l != null && counter < 8
      invariant counter == 0
      invariant curr in all && l == curr.waitLock && curr.priority == p && start.priority == p
      invariant Reaches(next, start, curr, k)
      invariant forall t | t in next && t != curr :: next[t].priority >= t.priority
      invariant forall t | t in all ::
        t.priority == old(t.priority) || (old(t.priority) < p && t.priority == p && Connected(next, start, t))
      decreases Lower(all, p)
    {
      if l.holder == null {
        break;
      }
      if l.holder.priority >= curr.priority {
        break;
      }
      assert curr in next && next[curr] == l.holder;
      ghost var before := Lower(all, p);
      l.holder.priority := curr.priority;
      assert l.holder in before && l.holder !in Lower(all, p);
      OneMore(next, start, curr, k);
      k := k + 1;
      curr := l.holder;
      l := curr.waitLock;
    }
    assert Donated(all, next);
    forall t | t in all && Connected(next, start, t) ensures t.priority >= p {
      var j: nat :| Reaches(next, start, t, j);
      ChainRises(all, next, start, t, j);
    }
  }
}
