/**
 The tables of linkhash.c as sequences: open addressing with tombstones, and the linked
 list of live entries in insertion order.  Links are slot numbers, -1 for null.
 */
module LinkHashSpec {

  import opened Options

  /** LH_EMPTY, LH_FREED, or a key. */
  datatype Slot<K> = Empty | Freed | Live(key: K)

  datatype Entry<K, V> = Entry(k: Slot<K>, v: Option<V>, next: int, prev: int)

  // ----- the circular probe -----

  /** The slot `i` steps after slot `h` of a table of `size` slots. */
  function At(h: nat, i: nat, size: nat): (n: nat)
    requires h < size && i < size
    ensures n < size
  {
    if h + i < size then h + i else h + i - size
  }

  /** How many steps lead from slot `h` to slot `p`. */
  function Steps(h: nat, p: nat, size: nat): (i: nat)
    requires h < size && p < size
    ensures i < size && At(h, i, size) == p
  {
    if h <= p then p - h else p - h + size
  }

  /** No slot on the way from the home of a live key to the key is empty. */
  ghost predicate Reachable<K, V>(t: seq<Entry<K, V>>, hash: K -> nat) {
    forall p, i :: 0 <= p < |t| && t[p].k.Live? && 0 <= i < Steps(hash(t[p].k.key) % |t|, p, |t|) ==>
      !t[At(hash(t[p].k.key) % |t|, i, |t|)].k.Empty?
  }

  ghost predicate Unique<K, V>(t: seq<Entry<K, V>>) {
    forall p, q :: 0 <= p < |t| && 0 <= q < |t| && t[p].k.Live? && t[p].k == t[q].k ==> p == q
  }

  // ----- the linked list -----

  ghost predicate Ordered<K, V>(t: seq<Entry<K, V>>, order: seq<nat>) {
    && (forall i :: 0 <= i < |order| ==> order[i] < |t|)
    && (forall i, j :: 0 <= i < j < |order| ==> order[i] != order[j])
    && (forall n: nat :: n < |t| ==> (t[n].k.Live? <==> n in order))
    && (forall n: nat :: n < |t| && t[n].k.Live? ==> t[n].v.Some?)
  }

  /** The i-th entry of the list, or null past either end. */
  ghost function Nth(order: seq<nat>, i: int): int {
    if 0 <= i < |order| then order[i] else -1
  }

  /** The links of the i-th entry of the list. */
  ghost predicate LinkOk<K, V>(t: seq<Entry<K, V>>, order: seq<nat>, i: int) {
    && 0 <= i < |order| && order[i] < |t|
    && t[order[i]].next == Nth(order, i + 1) && t[order[i]].prev == Nth(order, i - 1)
  }

  ghost predicate Linked<K, V>(t: seq<Entry<K, V>>, order: seq<nat>, head: int, tail: int) {
    && head == Nth(order, 0) && tail == Nth(order, |order| - 1)
    && forall i :: 0 <= i < |order| ==> LinkOk(t, order, i)
  }

  ghost predicate Ok<K, V>(t: seq<Entry<K, V>>, hash: K -> nat, order: seq<nat>, head: int, tail: int) {
    |t| > 0 && Reachable(t, hash) && Unique(t) && Ordered(t, order) && Linked(t, order, head, tail)
  }

  /** The live pairs in list order: what the table means. */
  ghost function Pairs<K, V>(t: seq<Entry<K, V>>, order: seq<nat>): (r: seq<(K, V)>)
    requires Ordered(t, order)
    ensures |r| == |order|
    ensures forall i {:trigger r[i]} {:trigger order[i]} :: 0 <= i < |order| ==>
      r[i] == (t[order[i]].k.key, t[order[i]].v.value)
  {
    assert forall i :: 0 <= i < |order| ==> order[i] in order;
    seq(|order|, i requires 0 <= i < |order| && t[order[i]].k.Live? && t[order[i]].v.Some? =>
      (t[order[i]].k.key, t[order[i]].v.value))
  }

  ghost predicate HasKey<K, V>(pairs: seq<(K, V)>, k: K) {
    exists i :: 0 <= i < |pairs| && pairs[i].0 == k
  }

  // ----- inserting -----

  /** The table after `k` has been put into slot `n` and linked behind the tail. */
  ghost function Inserted<K, V>(t: seq<Entry<K, V>>, n: nat, k: K, v: V, tail: int): seq<Entry<K, V>>
    requires n < |t| && -1 <= tail < |t|
  {
    var t1 := if tail == -1 then t else t[tail := t[tail].(next := n)];
    t1[n := Entry(Live(k), Some(v), -1, tail)]
  }

  lemma InsertedKeys<K, V>(t: seq<Entry<K, V>>, order: seq<nat>, tail: int, n: nat, k: K, v: V)
    requires Ordered(t, order) && n < |t| && !t[n].k.Live? && -1 <= tail < |t|
    ensures var t' := Inserted(t, n, k, v, tail);
      && Ordered(t', order + [n])
      && Pairs(t', order + [n]) == Pairs(t, order) + [(k, v)]
  {
    assert n !in order;
    var t', order' := Inserted(t, n, k, v, tail), order + [n];
    forall m: nat | m < |t'| ensures t'[m].k.Live? <==> m in order' {
      assert m in order' <==> m in order || m == n;
    }
    forall i | 0 <= i < |order| ensures Pairs(t', order')[i] == Pairs(t, order)[i] {
      assert order[i] in order && order'[i] == order[i];
    }
  }

  lemma InsertedOrder<K, V>(t: seq<Entry<K, V>>, order: seq<nat>, head: int, tail: int, n: nat, k: K, v: V)
    requires Ordered(t, order) && Linked(t, order, head, tail) && n < |t| && !t[n].k.Live?
    ensures -1 <= tail < |t|
    ensures var t' := Inserted(t, n, k, v, tail);
      && Ordered(t', order + [n])
      && Linked(t', order + [n], if head == -1 then n else head, n)
      && Pairs(t', order + [n]) == Pairs(t, order) + [(k, v)]
  {
    NthInRange(t, order, |order| - 1);
    InsertedKeys(t, order, tail, n, k, v);
    var t', order' := Inserted(t, n, k, v, tail), order + [n];
    assert n !in order;
    hide Pairs, Ordered;
    InsertedLinks(t, order, head, tail, n, k, v);
  }

  lemma InsertedLinks<K, V>(t: seq<Entry<K, V>>, order: seq<nat>, head: int, tail: int, n: nat, k: K, v: V)
    requires Ordered(t, order) && Linked(t, order, head, tail) && n < |t| && n !in order && -1 <= tail < |t|
    ensures Linked(Inserted(t, n, k, v, tail), order + [n], if head == -1 then n else head, n)
  {
    var t', order' := Inserted(t, n, k, v, tail), order + [n];
    forall i | 0 <= i < |order'| ensures LinkOk(t', order', i) {
      if i < |order| {
        assert LinkOk(t, order, i);
        assert order[i] in order && order'[i] == order[i] != n;
        assert i < |order| - 1 ==> order[i] != order[|order| - 1];
      }
    }
  }

  lemma InsertedProbe<K, V>(t: seq<Entry<K, V>>, hash: K -> nat, tail: int, n: nat, k: K, v: V)
    requires |t| > 0 && Reachable(t, hash) && Unique(t) && n < |t| && -1 <= tail < |t|
    requires !t[n].k.Live? && (forall p :: 0 <= p < |t| ==> t[p].k != Live(k))
    requires forall i :: 0 <= i < Steps(hash(k) % |t|, n, |t|) ==> t[At(hash(k) % |t|, i, |t|)].k.Live?
    ensures Reachable(Inserted(t, n, k, v, tail), hash) && Unique(Inserted(t, n, k, v, tail))
  {
    var t' := Inserted(t, n, k, v, tail);
    assert forall p :: 0 <= p < |t| ==> t'[p].k == if p == n then Live(k) else t[p].k;
    forall p, i | 0 <= p < |t'| && t'[p].k.Live? && 0 <= i < Steps(hash(t'[p].k.key) % |t'|, p, |t'|)
      ensures !t'[At(hash(t'[p].k.key) % |t'|, i, |t'|)].k.Empty?
    {
      var m := At(hash(t'[p].k.key) % |t'|, i, |t'|);
      if p == n {
        assert t[At(hash(k) % |t|, i, |t|)].k.Live?;
      } else {
        assert !t[m].k.Empty?;
      }
    }
  }

  // ----- deleting -----

  ghost function RemoveAt<T>(s: seq<T>, i: nat): (r: seq<T>)
    requires i < |s|
    ensures |r| == |s| - 1
  {
    s[..i] + s[i + 1..]
  }

  /** The table after the entry in slot `n` has been freed and unlinked. */
  ghost function Deleted<K, V>(t: seq<Entry<K, V>>, n: nat): (r: seq<Entry<K, V>>)
    requires n < |t| && -1 <= t[n].next < |t| && -1 <= t[n].prev < |t|
    ensures |r| == |t|
  {
    var next, prev := t[n].next, t[n].prev;
    var t1 := if next == -1 then t else t[next := t[next].(prev := prev)];
    var t2 := if prev == -1 then t1 else t1[prev := t1[prev].(next := next)];
    t2[n := Entry(Freed, None, -1, -1)]
  }

  lemma NthInRange<K, V>(t: seq<Entry<K, V>>, order: seq<nat>, i: int)
    requires Ordered(t, order)
    ensures -1 <= Nth(order, i) < |t|
  {
  }

  lemma RemovedMembers(order: seq<nat>, i: nat)
    requires i < |order| && (forall a, b :: 0 <= a < b < |order| ==> order[a] != order[b])
    ensures forall m :: m in RemoveAt(order, i) <==> m in order && m != order[i]
  {
    var order' := RemoveAt(order, i);
    forall m <- order' ensures m in order && m != order[i] {
      var j :| 0 <= j < |order'| && order'[j] == m;
      assert m == order[if j < i then j else j + 1];
    }
    forall m <- order | m != order[i] ensures m in order' {
      var j :| 0 <= j < |order| && order[j] == m;
      assert m == order'[if j < i then j else j - 1];
    }
  }

  /** Only slot `n` changes its key and its value. */
  lemma DeletedSlots<K, V>(t: seq<Entry<K, V>>, n: nat)
    requires n < |t| && -1 <= t[n].next < |t| && -1 <= t[n].prev < |t|
    ensures forall p :: 0 <= p < |t| ==> Deleted(t, n)[p].k == if p == n then Freed else t[p].k
    ensures forall p :: 0 <= p < |t| && p != n ==> Deleted(t, n)[p].v == t[p].v
  {
  }

  lemma DeletedKeys<K, V>(t: seq<Entry<K, V>>, order: seq<nat>, i: nat)
    requires Ordered(t, order) && i < |order|
    requires var n := order[i]; n < |t| && -1 <= t[n].next < |t| && -1 <= t[n].prev < |t|
    ensures Ordered(Deleted(t, order[i]), RemoveAt(order, i))
    ensures Pairs(Deleted(t, order[i]), RemoveAt(order, i)) == RemoveAt(Pairs(t, order), i)
  {
    hide Deleted;
    DeletedSlots(t, order[i]);
    RemovedMembers(order, i);
    var t', order' := Deleted(t, order[i]), RemoveAt(order, i);
    forall j | 0 <= j < |order'| ensures Pairs(t', order')[j] == RemoveAt(Pairs(t, order), i)[j] {
      assert order'[j] in order' && order'[j] == order[if j < i then j else j + 1];
    }
  }

  lemma RemovedNth(order: seq<nat>, i: nat, j: int)
    requires i < |order|
    ensures Nth(RemoveAt(order, i), j) == Nth(order, if j < i then j else j + 1)
  {
  }

  lemma OrderFacts<K, V>(t: seq<Entry<K, V>>, order: seq<nat>, i: nat, j: nat)
    requires Ordered(t, order) && i < |order| && j < |order|
    ensures order[i] < |t| && order[j] < |t| && (order[i] == order[j] <==> i == j)
  {
  }

  /** The links of one entry that stays. */
  lemma DeletedLinkAt<K, V>(t: seq<Entry<K, V>>, order: seq<nat>, head: int, tail: int, i: nat, j: nat)
    requires Ordered(t, order) && Linked(t, order, head, tail) && i < |order| && j < |order| - 1
    requires var n := order[i]; n < |t| && -1 <= t[n].next < |t| && -1 <= t[n].prev < |t|
    ensures LinkOk(Deleted(t, order[i]), RemoveAt(order, i), j)
  {
    hide Ordered;
    var j' := if j < i then j else j + 1;
    assert LinkOk(t, order, j') && LinkOk(t, order, i);
    RemovedNth(order, i, j);
    RemovedNth(order, i, j + 1);
    RemovedNth(order, i, j - 1);
    OrderFacts(t, order, j', i);
    if i > 0 { OrderFacts(t, order, j', i - 1); }
    if i + 1 < |order| { OrderFacts(t, order, j', i + 1); }
  }

  lemma DeletedLinks<K, V>(t: seq<Entry<K, V>>, order: seq<nat>, head: int, tail: int, i: nat)
    requires Ordered(t, order) && Linked(t, order, head, tail) && i < |order|
    requires var n := order[i]; n < |t| && -1 <= t[n].next < |t| && -1 <= t[n].prev < |t|
    ensures var n := order[i];
      Linked(Deleted(t, n), RemoveAt(order, i), if i == 0 then t[n].next else head,
             if i == |order| - 1 then t[n].prev else tail)
  {
    hide Ordered, Deleted, RemoveAt;
    assert LinkOk(t, order, i);
    RemovedNth(order, i, 0);
    RemovedNth(order, i, |order| - 2);
    forall j | 0 <= j < |order| - 1 ensures LinkOk(Deleted(t, order[i]), RemoveAt(order, i), j) {
      DeletedLinkAt(t, order, head, tail, i, j);
    }
  }

  lemma DeletedOrder<K, V>(t: seq<Entry<K, V>>, order: seq<nat>, head: int, tail: int, i: nat)
    requires Ordered(t, order) && Linked(t, order, head, tail) && i < |order|
    ensures var n := order[i]; n < |t| && -1 <= t[n].next < |t| && -1 <= t[n].prev < |t|
    ensures var n, order' := order[i], RemoveAt(order, i);
      var t' := Deleted(t, n);
      && Ordered(t', order')
      && Linked(t', order', if i == 0 then t[n].next else head, if i == |order| - 1 then t[n].prev else tail)
      && Pairs(t', order') == RemoveAt(Pairs(t, order), i)
  {
    NthInRange(t, order, i + 1);
    NthInRange(t, order, i - 1);
    assert LinkOk(t, order, i);
    DeletedKeys(t, order, i);
    hide Pairs;
    DeletedLinks(t, order, head, tail, i);
  }

  lemma DeletedProbe<K, V>(t: seq<Entry<K, V>>, hash: K -> nat, t': seq<Entry<K, V>>, n: nat)
    requires |t| > 0 && Reachable(t, hash) && Unique(t) && n < |t| == |t'|
    requires forall p :: 0 <= p < |t| ==> t'[p].k == if p == n then Freed else t[p].k
    ensures Reachable(t', hash) && Unique(t')
  {
    forall p, i | 0 <= p < |t'| && t'[p].k.Live? && 0 <= i < Steps(hash(t'[p].k.key) % |t'|, p, |t'|)
      ensures !t'[At(hash(t'[p].k.key) % |t'|, i, |t'|)].k.Empty?
    {
      assert !t[At(hash(t[p].k.key) % |t|, i, |t|)].k.Empty?;
    }
  }

  // ----- looking up and counting -----

  /** A probe that met an empty slot, or every slot, without the key proves its absence. */
  lemma ProbeMisses<K, V>(t: seq<Entry<K, V>>, hash: K -> nat, k: K, count: nat)
    requires |t| > 0 && Reachable(t, hash) && count <= |t|
    requires forall i :: 0 <= i < count ==> t[At(hash(k) % |t|, i, |t|)].k != Live(k)
    requires count == |t| || t[At(hash(k) % |t|, count, |t|)].k.Empty?
    ensures forall p :: 0 <= p < |t| ==> t[p].k != Live(k)
  {
    forall p | 0 <= p < |t| ensures t[p].k != Live(k) {
      var s := Steps(hash(k) % |t|, p, |t|);
      if s < count {
        assert t[At(hash(k) % |t|, s, |t|)].k != Live(k);
      }
    }
  }

  lemma KeysAgree<K, V>(t: seq<Entry<K, V>>, order: seq<nat>, k: K)
    requires Ordered(t, order)
    ensures HasKey(Pairs(t, order), k) <==> exists p :: 0 <= p < |t| && t[p].k == Live(k)
  {
    if p :| 0 <= p < |t| && t[p].k == Live(k) {
      var i :| 0 <= i < |order| && order[i] == p;
      assert Pairs(t, order)[i].0 == k;
    }
    if HasKey(Pairs(t, order), k) {
      var i :| 0 <= i < |order| && Pairs(t, order)[i].0 == k;
      assert order[i] in order;
      assert t[order[i]].k == Live(k);
    }
  }

  ghost function Range(n: nat): (r: set<int>)
    ensures forall i :: i in r <==> 0 <= i < n
    ensures |r| == n
  {
    if n == 0 then {} else Range(n - 1) + {n - 1}
  }

  ghost function Elements(s: seq<nat>): set<int> { set x | x in s }

  lemma {:induction false} ElementsSize(s: seq<nat>)
    ensures |Elements(s)| <= |s|
  {
    if s != [] {
      ElementsSize(s[1..]);
      assert Elements(s) == {s[0] as int} + Elements(s[1..]);
    }
  }

  lemma AllLiveIsFull<K, V>(t: seq<Entry<K, V>>, order: seq<nat>, h: nat)
    requires Ordered(t, order) && h < |t|
    requires forall i :: 0 <= i < |t| ==> t[At(h, i, |t|)].k.Live?
    ensures |order| >= |t|
  {
    forall n <- Range(|t|) ensures n in Elements(order) {
      assert t[At(h, Steps(h, n, |t|), |t|)].k.Live?;
    }
    ElementsSize(order);
    SubsetSize(Range(|t|), Elements(order));
  }

  lemma {:induction false} SubsetSize<T>(a: set<T>, b: set<T>)
    requires a <= b
    ensures |a| <= |b|
  {
    if a != {} {
      var x :| x in a;
      SubsetSize(a - {x}, b - {x});
    }
  }
}
