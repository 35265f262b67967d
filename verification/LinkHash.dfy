/** linkhash.c: the hash table behind JSON objects, updated in place. */
module LinkHash {
  import opened Options
  import opened LinkHashSpec

  /** LH_LOAD_FACTOR is 0.66. */
  predicate Loaded(count: int, size: nat) { 100 * count >= 66 * size }

  /** The pair of key `k` at position `i`, and nothing else, has gone. */
  ghost predicate Removed<K, V>(before: seq<(K, V)>, after: seq<(K, V)>, k: K, i: int) {
    0 <= i < |before| && before[i].0 == k && after == RemoveAt(before, i)
  }

  class Table<K(==), V> {
    const hash: K -> nat
    var table: array<Entry<K, V>>
    var head: int
    var tail: int
    var count: int
    ghost var order: seq<nat>

    ghost predicate Valid()
      reads this, table
    {
      Ok(table[..], hash, order, head, tail) && count == |order| <= table.Length
    }

    /** The key-value pairs in insertion order. */
    ghost function Items(): seq<(K, V)>
      reads this, table
      requires Valid()
    {
      Pairs(table[..], order)
    }

    /** lh_table_new. */
    constructor (size: nat, hash: K -> nat)
      requires size > 0
      ensures Valid() && Items() == [] && this.hash == hash && table.Length == size && fresh(table)
    {
      this.hash := hash;
      table := new Entry<K, V>[size](_ => Entry(Empty, None, -1, -1));
      head, tail, count := -1, -1, 0;
      order := [];
    }

    /** lh_table_lookup_entry: the slot of a key, or -1 for the null pointer. */
    method LookupEntry(k: K) returns (n: int)
      requires Valid()
      ensures -1 <= n < table.Length
      ensures n >= 0 ==> table[n].k == Live(k) && n in order
      ensures n == -1 <==> !HasKey(Items(), k)
    {
      hide Linked, Pairs;
      KeysAgree(table[..], order, k);
      var size := table.Length;
      var home := hash(k) % size;
      n := home;
      var steps := 0;
      while steps < size
        invariant 0 <= steps <= size
        invariant steps < size ==> n == At(home, steps, size)
        invariant forall i :: 0 <= i < steps ==> table[At(home, i, size)].k != Live(k)
      {
        if table[n].k.Empty? {
          break;
        }
        if table[n].k == Live(k) {
          return;
        }
        n := n + 1;
        if n == size {
          n := 0;
        }
        steps := steps + 1;
      }
      ProbeMisses(table[..], hash, k, steps);
      n := -1;
    }

    /** lh_table_lookup_ex. */
    method Lookup(k: K) returns (found: bool, v: Option<V>)
      requires Valid()
      ensures found <==> HasKey(Items(), k)
      ensures !found ==> v.None?
      ensures found ==> exists i :: 0 <= i < |Items()| && v == Some(Items()[i].1) && Items()[i].0 == k
    {
      var n := LookupEntry(k);
      if n < 0 {
        return false, None;
      }
      found, v := true, table[n].v;
      ghost var i :| 0 <= i < |order| && order[i] == n;
      assert Items()[i] == (k, table[n].v.value);
    }

    /** The probe loop of lh_table_insert: the first slot from the home that is not live. */
    method FreeSlot(k: K) returns (n: nat)
      requires Valid() && count < table.Length
      ensures n < table.Length && !table[n].k.Live?
      ensures var size := table.Length; var home := hash(k) % size;
        forall i :: 0 <= i < Steps(home, n, size) ==> table[At(home, i, size)].k.Live?
    {
      hide Linked, Reachable, Unique, Pairs;
      var size := table.Length;
      var home := hash(k) % size;
      n := home;
      ghost var steps := 0;
      while table[n].k.Live?
        invariant 0 <= steps < size && n == At(home, steps, size)
        invariant forall i :: 0 <= i < steps ==> table[At(home, i, size)].k.Live?
        decreases size - steps
      {
        if steps == size - 1 {
          AllLiveIsFull(table[..], order, home);
        }
        n := n + 1;
        if n == size {
          n := 0;
        }
        steps := steps + 1;
      }
      assert Steps(home, n, size) == steps;
    }

    /** lh_table_insert of an absent key: the pair goes to the end of the list. */
    method Insert(k: K, v: V)
      requires Valid() && !HasKey(Items(), k)
      modifies this, table
      ensures Valid() && Items() == old(Items()) + [(k, v)]
      ensures count == old(count) + 1
      ensures if Loaded(old(count), old(table.Length)) then fresh(table) else table == old(table)
      ensures table.Length == if Loaded(old(count), old(table.Length)) then 2 * old(table.Length) else old(table.Length)
      decreases if Loaded(count, table.Length) then 2 else 0
    {
      hide Reachable, Unique, Linked, Pairs, Ordered;
      if Loaded(count, table.Length) {
        Resize();
      }
      Place(k, v);
    }

    /** The rest of lh_table_insert: put the pair into a free slot and link it behind the tail. */
    method Place(k: K, v: V)
      requires Valid() && !HasKey(Items(), k) && count < table.Length
      modifies this, table
      ensures Valid() && Items() == old(Items()) + [(k, v)]
      ensures count == old(count) + 1 && table == old(table)
    {
      hide Reachable, Unique, Linked, Pairs;
      ghost var t, order0, head0, tail0 := table[..], order, head, tail;
      var n := FreeSlot(k);
      KeysAgree(t, order, k);
      InsertedOrder(t, order, head, tail, n, k, v);
      InsertedProbe(t, hash, tail, n, k, v);
      HeadAndTail(t, order, head, tail);
      table[n] := Entry(Live(k), Some(v), -1, -1);
      count := count + 1;
      if head == -1 {
        head, tail := n, n;
      } else {
        table[tail] := table[tail].(next := n);
        table[n] := table[n].(prev := tail, next := -1);
        tail := n;
      }
      order := order + [n];
      assert table[..] == Inserted(t, n, k, v, tail0);
    }

    /** lh_table_resize to twice the size, as lh_table_insert calls it. */
    method Resize()
      requires Valid() && Loaded(count, table.Length)
      modifies this
      ensures Valid() && Items() == old(Items())
      ensures count == old(count) && table.Length == 2 * old(table.Length) && fresh(table)
      decreases 1
    {
      hide Reachable, Unique, Linked, Pairs, Ordered, HasKey;
      var newSize := 2 * table.Length;
      var newT := new Table<K, V>(newSize, hash);
      var ent := head;
      ghost var i, newTable := 0, newT.table;
      PairsLength();
      while ent != -1
        invariant 0 <= i <= |order| && ent == Nth(order, i)
        invariant newT.Valid() && newT.table == newTable && newTable.Length == newSize && newT.hash == hash
        invariant newT.count == i && newT.Items() == Items()[..i]
        modifies newT, newTable
        decreases |order| - i
      {
        PairAt(i);
        KeysDistinct(i);
        newT.Insert(table[ent].k.key, table[ent].v.value);
        assert Items()[..i + 1] == Items()[..i] + [Items()[i]];
        ent := table[ent].next;
        i := i + 1;
      }
      assert Items()[..i] == Items();
      table := newT.table;
      head := newT.head;
      tail := newT.tail;
      order := newT.order;
    }

    lemma PairAt(i: nat)
      requires Valid() && i < |order|
      ensures |Items()| == |order| && order[i] < table.Length
      ensures table[order[i]].k.Live? && table[order[i]].v.Some?
      ensures Items()[i] == (table[order[i]].k.key, table[order[i]].v.value)
      ensures table[order[i]].next == Nth(order, i + 1)
    {
      assert order[i] in order && LinkOk(table[..], order, i);
    }

    lemma PairsLength()
      requires Valid()
      ensures |Items()| == |order| && head == Nth(order, 0)
    {
    }

    /** The keys of the list are distinct. */
    lemma KeysDistinct(i: nat)
      requires Valid() && i < |order|
      ensures |Items()| == |order| && !HasKey(Items()[..i], Items()[i].0)
    {
      forall j | 0 <= j < i ensures Items()[j].0 != Items()[i].0 {
        assert order[j] in order && order[i] in order && order[j] != order[i];
        assert Items()[j].0 == table[order[j]].k.key && Items()[i].0 == table[order[i]].k.key;
      }
    }

    lemma HeadAndTail(t: seq<Entry<K, V>>, order: seq<nat>, head: int, tail: int)
      requires Ordered(t, order) && Linked(t, order, head, tail)
      ensures head == -1 <==> order == []
      ensures order != [] ==> head == order[0] && tail == order[|order| - 1] && 0 <= tail < |t|
      ensures order == [] ==> tail == -1
    {
    }

    /** lh_table_delete_entry: -1 and no change for a slot that is not live. */
    method DeleteEntry(n: nat) returns (err: int, ghost i: nat)
      requires Valid() && n < table.Length
      modifies this, table
      ensures Valid() && table == old(table)
      ensures err == if old(table[n].k.Live?) then 0 else -1
      ensures err == -1 ==> Items() == old(Items()) && count == old(count)
      ensures err == 0 ==> Removed(old(Items()), Items(), old(table[n].k).key, i) && count == old(count) - 1
    {
      hide Reachable, Unique, Linked, Pairs;
      i := 0;
      if !table[n].k.Live? {
        return -1, i;
      }
      assert table[..][n].k.Live?;
      i :| 0 <= i < |order| && order[i] == n;
      PairAt(i);
      DeleteLive(n, i);
      err := 0;
    }

    /** The rest of lh_table_delete_entry, for a live slot. */
    method DeleteLive(n: nat, ghost i: nat)
      requires Valid() && i < |order| && order[i] == n
      modifies this, table
      ensures Valid() && Items() == RemoveAt(old(Items()), i)
      ensures count == old(count) - 1 && table == old(table)
    {
      hide Reachable, Unique, Pairs, Ordered, Linked, Deleted, RemoveAt;
      ghost var t := table[..];
      DeletedOrder(t, order, head, tail, i);
      DeletedSlots(t, n);
      DeletedProbe(t, hash, Deleted(t, n), n);
      LinksOf(t, order, head, tail, i);
      Unlink(n);
      count := count - 1;
      order := RemoveAt(order, i);
    }

    /** The pointer surgery of lh_table_delete_entry. */
    method Unlink(n: nat)
      requires n < table.Length && -1 <= table[n].next < table.Length && -1 <= table[n].prev < table.Length
      requires (head == n <==> table[n].prev == -1) && (tail == n <==> table[n].next == -1)
      requires table[n].next != n && table[n].prev != n && (table[n].next == table[n].prev ==> table[n].next == -1)
      modifies this`head, this`tail, table
      ensures table[..] == Deleted(old(table[..]), n)
      ensures head == if old(head) == n then old(table[n].next) else old(head)
      ensures tail == if old(tail) == n then old(table[n].prev) else old(tail)
    {
      table[n] := table[n].(v := None, k := Freed);
      if tail == n && head == n {
        head, tail := -1, -1;
      } else if head == n {
        table[table[head].next] := table[table[head].next].(prev := -1);
        head := table[head].next;
      } else if tail == n {
        table[table[tail].prev] := table[table[tail].prev].(next := -1);
        tail := table[tail].prev;
      } else {
        table[table[n].prev] := table[table[n].prev].(next := table[n].next);
        table[table[n].next] := table[table[n].next].(prev := table[n].prev);
      }
      table[n] := table[n].(next := -1, prev := -1);
    }

    lemma LinksOf(t: seq<Entry<K, V>>, order: seq<nat>, head: int, tail: int, i: nat)
      requires Ordered(t, order) && Linked(t, order, head, tail) && i < |order|
      ensures var n := order[i];
        && n < |t| && -1 <= t[n].next < |t| && -1 <= t[n].prev < |t|
        && (head == n <==> t[n].prev == -1) && (tail == n <==> t[n].next == -1)
        && t[n].next != n && t[n].prev != n && (t[n].next == t[n].prev ==> t[n].next == -1)
        && (head == n <==> i == 0) && (tail == n <==> i == |order| - 1)
    {
      assert LinkOk(t, order, i);
      EndsOfList(t, order, i);
    }

    /** Which entries are at the ends of the list. */
    lemma EndsOfList(t: seq<Entry<K, V>>, order: seq<nat>, i: nat)
      requires Ordered(t, order) && i < |order| && LinkOk(t, order, i)
      ensures order[0] == order[i] <==> i == 0
      ensures order[|order| - 1] == order[i] <==> i == |order| - 1
      ensures i > 0 ==> t[order[i]].prev == order[i - 1] != order[i]
      ensures i < |order| - 1 ==> t[order[i]].next == order[i + 1] != order[i]
      ensures 0 < i < |order| - 1 ==> order[i - 1] != order[i + 1]
    {
    }

    /** lh_table_delete: 0 and the pair is gone, or -1 and nothing changes. */
    method Delete(k: K) returns (err: int)
      requires Valid()
      modifies this, table
      ensures Valid() && table == old(table)
      ensures err == if HasKey(old(Items()), k) then 0 else -1
      ensures err == -1 ==> Items() == old(Items())
      ensures err == 0 ==> exists i :: Removed(old(Items()), Items(), k, i)
    {
      hide Ok, Pairs;
      var n := LookupEntry(k);
      if n < 0 {
        return -1;
      }
      ghost var i;
      err, i := DeleteEntry(n);
    }

    /** json_object_object_add: replace the value of an existing key in place, or insert. */
    method Add(k: K, v: V)
      requires Valid()
      modifies this, table
      ensures Valid() && Items() == Put(old(Items()), k, v)
      ensures table == old(table) || fresh(table)
    {
      hide Reachable, Unique, Linked, Pairs, Ordered;
      var n := LookupEntry(k);
      if n < 0 {
        PutAbsent(Items(), k, v);
        Insert(k, v);
      } else {
        ghost var i :| 0 <= i < |order| && order[i] == n;
        Replace(n, v, i);
      }
    }

    method Replace(n: nat, v: V, ghost i: nat)
      requires Valid() && i < |order| && order[i] == n && n < table.Length && table[n].k.Live?
      modifies table
      ensures Valid() && Items() == Put(old(Items()), old(table[n].k.key), v)
    {
      hide Reachable, Unique, Linked;
      ghost var t := table[..];
      PairAt(i);
      forall j | 0 <= j < i ensures Items()[j].0 != Items()[i].0 {
        KeysDistinct(i);
        assert Items()[..i][j] == Items()[j];
      }
      PutPresent(Items(), table[n].k.key, v, i);
      table[n] := table[n].(v := Some(v));
      SameKeys(t, table[..], order, head, tail);
      forall j | 0 <= j < |order| ensures Pairs(table[..], order)[j] == Pairs(t, order)[i := (t[n].k.key, v)][j] {
        assert order[j] in order && (j != i ==> order[j] != order[i]);
      }
    }

    /** Changing values does not disturb the probe chains or the list. */
    lemma SameKeys(t: seq<Entry<K, V>>, t': seq<Entry<K, V>>, order: seq<nat>, head: int, tail: int)
      requires Ok(t, hash, order, head, tail) && |t| == |t'|
      requires forall p :: 0 <= p < |t| ==>
        t'[p].k == t[p].k && t'[p].next == t[p].next && t'[p].prev == t[p].prev && (t[p].v.Some? ==> t'[p].v.Some?)
      ensures Ok(t', hash, order, head, tail)
    {
      forall p, i | 0 <= p < |t'| && t'[p].k.Live? && 0 <= i < Steps(hash(t'[p].k.key) % |t'|, p, |t'|)
        ensures !t'[At(hash(t'[p].k.key) % |t'|, i, |t'|)].k.Empty?
      {
        assert !t[At(hash(t[p].k.key) % |t|, i, |t|)].k.Empty?;
      }
      forall i | 0 <= i < |order| ensures LinkOk(t', order, i) {
        assert LinkOk(t, order, i);
      }
    }

    /** One request against the table. */
    method Serve(op: Op<K, V>) returns (found: bool, v: Option<V>)
      requires Valid()
      modifies this, table
      ensures Valid() && Items() == After(old(Items()), op)
      ensures op.Look? ==> found == Find(old(Items()), op.k).Some? && v == Find(old(Items()), op.k)
      ensures table == old(table) || fresh(table)
    {
      hide Reachable, Unique, Linked, Pairs, Ordered;
      found, v := false, None;
      match op
      case Look(k) =>
        found, v := Lookup(k);
        FindAgrees(Items(), k);
        AllDistinct();
        if found {
          ghost var i :| 0 <= i < |Items()| && v == Some(Items()[i].1) && Items()[i].0 == k;
          assert forall j :: 0 <= j < i ==> Items()[j].0 != k;
        }
      case Store(k, x) =>
        Add(k, x);
      case Drop(k) =>
        AllDistinct();
        ghost var before := Items();
        var err := Delete(k);
        FindAgrees(before, k);
        if err == 0 {
          ghost var i :| Removed(before, Items(), k, i);
          DropPresent(before, k, i);
        } else {
          DropAbsent(before, k);
        }
    }

    lemma AllDistinct()
      requires Valid()
      ensures forall i, j :: 0 <= i < j < |Items()| ==> Items()[i].0 != Items()[j].0
    {
      PairsLength();
      forall i, j | 0 <= i < j < |Items()| ensures Items()[i].0 != Items()[j].0 {
        KeysDistinct(j);
        assert Items()[..j][i] == Items()[i];
      }
    }

    /** Any sequence of requests: tombstones, probing and resizing never show. */
    method ServeAll(ops: seq<Op<K, V>>) returns (answers: seq<Option<V>>)
      requires Valid()
      modifies this, table
      ensures Valid() && Items() == AfterAll(old(Items()), ops) && |answers| == |ops|
      ensures forall i :: 0 <= i < |ops| && ops[i].Look? ==>
        answers[i] == Find(AfterAll(old(Items()), ops[..i]), ops[i].k)
    {
      hide Ok, Pairs, After, Find;
      answers := [];
      var n := 0;
      while n < |ops|
        invariant 0 <= n <= |ops| && |answers| == n
        invariant Valid() && Items() == AfterAll(old(Items()), ops[..n])
        invariant table == old(table) || fresh(table)
        invariant forall i :: 0 <= i < n && ops[i].Look? ==>
          answers[i] == Find(AfterAll(old(Items()), ops[..i]), ops[i].k)
      {
        var _, v := Serve(ops[n]);
        assert ops[..n + 1][..n] == ops[..n];
        answers := answers + [v];
        n := n + 1;
      }
      assert ops[..n] == ops;
    }
  }

  // ----- the ordered map that the table implements -----

  /** Lookups, additions and deletions. */
  datatype Op<K, V> = Look(k: K) | Store(k: K, v: V) | Drop(k: K)

  ghost function Find<K, V>(items: seq<(K, V)>, k: K): Option<V> {
    if items == [] then None
    else if items[0].0 == k then Some(items[0].1)
    else Find(items[1..], k)
  }

  ghost function Put<K, V>(items: seq<(K, V)>, k: K, v: V): seq<(K, V)> {
    if items == [] then [(k, v)]
    else if items[0].0 == k then [(k, v)] + items[1..]
    else [items[0]] + Put(items[1..], k, v)
  }

  ghost function Without<K, V>(items: seq<(K, V)>, k: K): seq<(K, V)> {
    if items == [] then []
    else if items[0].0 == k then items[1..]
    else [items[0]] + Without(items[1..], k)
  }

  ghost function After<K, V>(items: seq<(K, V)>, op: Op<K, V>): seq<(K, V)> {
    match op
    case Look(_) => items
    case Store(k, v) => Put(items, k, v)
    case Drop(k) => Without(items, k)
  }

  ghost function AfterAll<K, V>(items: seq<(K, V)>, ops: seq<Op<K, V>>): seq<(K, V)> {
    if ops == [] then items else After(AfterAll(items, ops[..|ops| - 1]), ops[|ops| - 1])
  }

  lemma {:induction false} PutAbsent<K, V>(items: seq<(K, V)>, k: K, v: V)
    requires !HasKey(items, k)
    ensures Put(items, k, v) == items + [(k, v)]
  {
    if items != [] {
      assert items[0].0 != k;
      forall i | 0 <= i < |items[1..]| ensures items[1..][i].0 != k { assert items[i + 1].0 != k; }
      PutAbsent(items[1..], k, v);
    }
  }

  lemma {:induction false} PutPresent<K, V>(items: seq<(K, V)>, k: K, v: V, i: nat)
    requires i < |items| && items[i].0 == k && (forall j :: 0 <= j < i ==> items[j].0 != k)
    ensures Put(items, k, v) == items[i := (k, v)]
  {
    if i > 0 {
      PutPresent(items[1..], k, v, i - 1);
    }
  }

  lemma {:induction false} DropPresent<K, V>(items: seq<(K, V)>, k: K, i: nat)
    requires i < |items| && items[i].0 == k && (forall j :: 0 <= j < i ==> items[j].0 != k)
    ensures Without(items, k) == RemoveAt(items, i)
  {
    if i > 0 {
      DropPresent(items[1..], k, i - 1);
    }
  }

  lemma {:induction false} DropAbsent<K, V>(items: seq<(K, V)>, k: K)
    requires !HasKey(items, k)
    ensures Without(items, k) == items
  {
    if items != [] {
      assert items[0].0 != k;
      forall i | 0 <= i < |items[1..]| ensures items[1..][i].0 != k { assert items[i + 1].0 != k; }
      DropAbsent(items[1..], k);
    }
  }

  /** With distinct keys, the search finds the value of the only pair with the key. */
  lemma {:induction false} FindAgrees<K, V>(items: seq<(K, V)>, k: K)
    ensures Find(items, k).Some? <==> HasKey(items, k)
    ensures forall i :: 0 <= i < |items| && items[i].0 == k && (forall j :: 0 <= j < i ==> items[j].0 != k) ==>
      Find(items, k) == Some(items[i].1)
  {
    if items != [] {
      FindAgrees(items[1..], k);
      if i :| 0 <= i < |items[1..]| && items[1..][i].0 == k {
        assert items[i + 1].0 == k;
      }
      forall i | 0 <= i < |items| && items[i].0 == k && (forall j :: 0 <= j < i ==> items[j].0 != k)
        ensures Find(items, k) == Some(items[i].1)
      {
        if i > 0 {
          assert items[1..][i - 1].0 == k;
          forall j | 0 <= j < i - 1 ensures items[1..][j].0 != k { assert items[j + 1].0 != k; }
        }
      }
    }
  }
}
