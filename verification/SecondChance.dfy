/** The second-chance replacement policy on plain sequences: what the cache set must do. */
module SecondChance {

  datatype Item = Item(key: string, value: string, referenced: bool)

  function Cleared(items: seq<Item>): (r: seq<Item>)
    ensures |r| == |items|
    ensures forall i :: 0 <= i < |items| ==> r[i] == items[i].(referenced := false)
  {
    seq(|items|, i requires 0 <= i < |items| => items[i].(referenced := false))
  }

  function ReferencedCount(items: seq<Item>): nat {
    if items == [] then 0 else (if items[0].referenced then 1 else 0) + ReferencedCount(items[1..])
  }

  lemma {:induction false} CountConcat(a: seq<Item>, b: seq<Item>)
    ensures ReferencedCount(a + b) == ReferencedCount(a) + ReferencedCount(b)
  {
    if a == [] {
      assert a + b == b;
    } else {
      assert (a + b)[0] == a[0] && (a + b)[1..] == a[1..] + b;
      CountConcat(a[1..], b);
    }
  }

  /** The oldest item goes to the end of the list, and its reference bit is cleared. */
  function Rotated(items: seq<Item>): seq<Item>
    requires items != []
  {
    items[1..] + [items[0].(referenced := false)]
  }

  lemma RotatedCount(items: seq<Item>)
    requires items != [] && items[0].referenced
    ensures ReferencedCount(Rotated(items)) + 1 == ReferencedCount(items)
  {
    CountConcat(items[1..], [items[0].(referenced := false)]);
  }

  /** The eviction walk: it stops at the first unreferenced item, or at the end of a list of one. */
  function Evict(items: seq<Item>): seq<Item>
    decreases ReferencedCount(items)
  {
    if items == [] then []
    else if !items[0].referenced then items[1..]
    else if |items| == 1 then Rotated(items)
    else
      RotatedCount(items);
      Evict(Rotated(items))
  }

  predicate AllReferenced(items: seq<Item>) {
    forall x <- items :: x.referenced
  }

  /** The walk removes the first unreferenced item and moves those before it, cleared, to the end. */
  lemma {:induction false} EvictsFirstUnreferenced(items: seq<Item>, i: nat)
    requires i < |items| && AllReferenced(items[..i]) && !items[i].referenced
    ensures Evict(items) == items[i + 1..] + Cleared(items[..i])
    decreases i
  {
    if i == 0 {
      assert Cleared(items[..0]) == [];
    } else {
      assert items[..i][0] == items[0];
      var r := Rotated(items);
      RotatedCount(items);
      forall x <- r[..i - 1] ensures x.referenced {
        assert r[..i - 1] == items[..i][1..];
        assert x in items[..i];
      }
      EvictsFirstUnreferenced(r, i - 1);
      assert r[i..] + Cleared(r[..i - 1]) == items[i + 1..] + Cleared(items[..i]);
    }
  }

  /** If every item is referenced, all bits are cleared and the oldest item goes, unless it is alone. */
  lemma {:induction false} EvictsOldest(items: seq<Item>)
    requires items != [] && AllReferenced(items)
    ensures Evict(items) == if |items| == 1 then Cleared(items) else Cleared(items)[1..]
  {
    if |items| > 1 {
      assert items[0] in items && items[1] in items;
      RotatedCount(items);
      var n := |items|;
      var r := Rotated(items);
      forall x <- r[..n - 1] ensures x.referenced {
        assert r[..n - 1] == items[1..];
        assert x in items;
      }
      EvictsFirstUnreferenced(r, n - 1);
      assert r[n..] + Cleared(r[..n - 1]) == Cleared(items)[1..];
    }
  }

  /** The walk evicts nothing exactly when the list is empty or a single referenced item. */
  lemma {:induction false} EvictLength(items: seq<Item>)
    ensures |Evict(items)| == |items| - (if items == [] || (|items| == 1 && items[0].referenced) then 0 else 1)
    decreases ReferencedCount(items)
  {
    if items != [] && items[0].referenced && |items| > 1 {
      RotatedCount(items);
      EvictLength(Rotated(items));
    }
  }

  // ----- the cache set as a value -----

  /** `num` is the entry counter of the set, which clearing does not reset. */
  datatype Set = Set(items: seq<Item>, num: int, capacity: nat)

  ghost predicate DistinctKeys(items: seq<Item>) {
    forall i, j :: 0 <= i < j < |items| ==> items[i].key != items[j].key
  }

  /** What every operation keeps. */
  ghost predicate Ok(s: Set) {
    DistinctKeys(s.items) && |s.items| <= s.num <= s.capacity && s.capacity >= 2
  }

  /** Where a key is, or the length of the list. */
  function Index(items: seq<Item>, key: string): (i: nat)
    ensures i <= |items|
    ensures i < |items| ==> items[i].key == key
    ensures forall j :: 0 <= j < i ==> items[j].key != key
  {
    if items == [] || items[0].key == key then 0
    else
      var i := Index(items[1..], key);
      assert forall j :: 1 <= j < i + 1 ==> items[j] == items[1..][j - 1];
      i + 1
  }

  ghost predicate Has(items: seq<Item>, key: string) { Index(items, key) < |items| }

  /** kvcacheset_get marks the entry it finds. */
  function Touch(s: Set, key: string): Set {
    var i := Index(s.items, key);
    if i == |s.items| then s else s.(items := s.items[i := s.items[i].(referenced := true)])
  }

  /** kvcacheset_put. */
  function Put(s: Set, key: string, value: string): Set {
    var i := Index(s.items, key);
    if i < |s.items| then s.(items := s.items[i := Item(key, value, true)])
    else if s.num < s.capacity then s.(items := s.items + [Item(key, value, false)], num := s.num + 1)
    else s.(items := Evict(s.items) + [Item(key, value, false)])
  }

  /** kvcacheset_del. */
  function Del(s: Set, key: string): Set {
    var i := Index(s.items, key);
    if i == |s.items| then s else s.(items := s.items[..i] + s.items[i + 1..], num := s.num - 1)
  }

  function Clear(s: Set): Set { s.(items := []) }

  /** The walk only drops an item and clears bits: pairs stay pairs, and keys stay distinct. */
  lemma {:induction false} EvictKeepsPairs(items: seq<Item>)
    requires DistinctKeys(items)
    ensures DistinctKeys(Evict(items))
    ensures forall x <- Evict(items) :: exists y <- items :: y.key == x.key && y.value == x.value
    decreases ReferencedCount(items)
  {
    if items != [] && !items[0].referenced {
      forall x <- Evict(items) ensures exists y <- items :: y.key == x.key && y.value == x.value {
        assert x in items;
      }
    } else if items != [] {
      var r := Rotated(items);
      assert DistinctKeys(r);
      forall x <- r ensures exists y <- items :: y.key == x.key && y.value == x.value {
        if x in items[1..] {
          assert x in items;
        } else {
          assert items[0] in items;
        }
      }
      if |items| > 1 {
        RotatedCount(items);
        EvictKeepsPairs(r);
      }
    }
  }

  /** Every operation keeps the invariant, for all states that satisfy it. */
  lemma PutKeepsOk(s: Set, key: string, value: string)
    requires Ok(s)
    ensures Ok(Put(s, key, value))
  {
    if Index(s.items, key) == |s.items| && s.num >= s.capacity {
      EvictKeepsPairs(s.items);
      EvictLength(s.items);
      forall x <- Evict(s.items) ensures x.key != key {
        var y :| y in s.items && y.key == x.key;
      }
    }
  }

  lemma OthersKeepOk(s: Set, key: string)
    requires Ok(s)
    ensures Ok(Touch(s, key)) && Ok(Del(s, key)) && Ok(Clear(s))
  {
  }

  /** A pair is in the cache set. */
  ghost predicate Cached(s: Set, key: string, value: string) {
    exists x <- s.items :: x.key == key && x.value == value
  }

  /** What a put can leave in the set: the new pair, and pairs that were there. */
  lemma PutPairs(s: Set, key: string, value: string, k: string, v: string)
    requires Ok(s) && Cached(Put(s, key, value), k, v)
    ensures (k == key && v == value) || (k != key && Cached(s, k, v))
  {
    var s' := Put(s, key, value);
    PutKeepsOk(s, key, value);
    var x :| x in s'.items && x.key == k && x.value == v;
    var j :| 0 <= j < |s'.items| && s'.items[j] == x;
    var i := Index(s.items, key);
    if i < |s.items| {
      if j != i {
        assert s.items[j] == x && s.items[j].key != s.items[i].key;
      }
    } else if s.num >= s.capacity && j < |s'.items| - 1 {
      assert x in Evict(s.items);
      EvictKeepsPairs(s.items);
      var y :| y in s.items && y.key == x.key && y.value == x.value;
    }
  }

  lemma DelPairs(s: Set, key: string, k: string, v: string)
    requires Ok(s) && Cached(Del(s, key), k, v)
    ensures k != key && Cached(s, k, v)
  {
    var s' := Del(s, key);
    var x :| x in s'.items && x.key == k && x.value == v;
    var j :| 0 <= j < |s'.items| && s'.items[j] == x;
    var i := Index(s.items, key);
    if i < |s.items| {
      var j' := if j < i then j else j + 1;
      assert s.items[j'] == x && s.items[j'].key != s.items[i].key;
    }
  }

  lemma TouchPairs(s: Set, key: string, k: string, v: string)
    requires Ok(s) && Cached(Touch(s, key), k, v)
    ensures Cached(s, k, v)
  {
    var s' := Touch(s, key);
    var x :| x in s'.items && x.key == k && x.value == v;
    var j :| 0 <= j < |s'.items| && s'.items[j] == x;
    assert s.items[j] in s.items;
  }

  // ----- exactly which pairs are cached, and which bits are set -----

  /** The item that a full walk removes: the first that is not referenced, or the oldest if all are. */
  function Victim(items: seq<Item>): (v: nat)
    requires items != []
    ensures v < |items|
    ensures AllReferenced(items) ==> v == 0
    ensures !AllReferenced(items) ==> !items[v].referenced && AllReferenced(items[..v])
  {
    var v := FirstClear(items);
    if v < |items| then assert items[v] in items; v else 0
  }

  function FirstClear(items: seq<Item>): (v: nat)
    ensures v <= |items| && AllReferenced(items[..v]) && (v < |items| ==> !items[v].referenced)
  {
    if items == [] || !items[0].referenced then 0
    else
      var v := 1 + FirstClear(items[1..]);
      assert items[..v] == [items[0]] + items[1..][..v - 1];
      v
  }

  ghost predicate Paired(items: seq<Item>, key: string, value: string) {
    exists x <- items :: x.key == key && x.value == value
  }

  /** A walk over this list removes nothing. */
  predicate Stuck(items: seq<Item>) { items == [] || (|items| == 1 && items[0].referenced) }

  /** The walk removes the pair of the victim and no other. */
  lemma EvictedPairs(items: seq<Item>, k: string, v: string)
    requires DistinctKeys(items)
    ensures Paired(Evict(items), k, v) <==>
            Paired(items, k, v) && (Stuck(items) || k != items[Victim(items)].key)
  {
    if items != [] {
      var i := Victim(items);
      if AllReferenced(items) {
        EvictsOldest(items);
        ClearedPairs(items, k, v);
        if |items| > 1 {
          assert Cleared(items) == [Cleared(items)[0]] + Cleared(items)[1..];
          WithoutOne(Cleared(items), 0, k, v);
          assert Cleared(items)[..0] + Cleared(items)[1..] == Cleared(items)[1..];
        }
      } else {
        EvictsFirstUnreferenced(items, i);
        WithoutOne(items, i, k, v);
        ClearedPairs(items[..i], k, v);
        JoinedPairs(items[i + 1..], Cleared(items[..i]), k, v);
        JoinedPairs(items[..i], items[i + 1..], k, v);
      }
    }
  }

  lemma ClearedPairs(items: seq<Item>, k: string, v: string)
    ensures Paired(Cleared(items), k, v) <==> Paired(items, k, v)
  {
    if Paired(items, k, v) {
      var x :| x in items && x.key == k && x.value == v;
      var j :| 0 <= j < |items| && items[j] == x;
      assert Cleared(items)[j] in Cleared(items);
    }
    if Paired(Cleared(items), k, v) {
      var x :| x in Cleared(items) && x.key == k && x.value == v;
      var j :| 0 <= j < |items| && Cleared(items)[j] == x;
      assert items[j] in items;
    }
  }

  lemma JoinedPairs(a: seq<Item>, b: seq<Item>, k: string, v: string)
    ensures Paired(a + b, k, v) <==> Paired(a, k, v) || Paired(b, k, v)
  {
    if Paired(a, k, v) {
      var x :| x in a && x.key == k && x.value == v;
      assert x in a + b;
    }
    if Paired(b, k, v) {
      var x :| x in b && x.key == k && x.value == v;
      assert x in a + b;
    }
  }

  lemma WithoutOne(items: seq<Item>, i: nat, k: string, v: string)
    requires DistinctKeys(items) && i < |items|
    ensures Paired(items[..i] + items[i + 1..], k, v) <==> Paired(items, k, v) && k != items[i].key
  {
    hide DistinctKeys, Paired;
    var a, b := items[..i], items[i + 1..];
    assert items == a + ([items[i]] + b);
    JoinedPairs(a, [items[i]] + b, k, v);
    JoinedPairs([items[i]], b, k, v);
    JoinedPairs(a, b, k, v);
    OnlyPair(items[i], k, v);
    OthersDiffer(items, i, v);
  }

  /** No other item has the key. */
  lemma OthersDiffer(items: seq<Item>, i: nat, v: string)
    requires DistinctKeys(items) && i < |items|
    ensures !Paired(items[..i], items[i].key, v) && !Paired(items[i + 1..], items[i].key, v)
  {
    forall x <- items[i + 1..] ensures x.key != items[i].key {
      var j :| 0 <= j < |items| - i - 1 && items[i + 1..][j] == x;
      assert items[i + 1 + j] == x;
    }
  }

  lemma ReplacedPairs(items: seq<Item>, i: nat, x: Item, k: string, v: string)
    requires DistinctKeys(items) && i < |items| && items[i].key == x.key
    ensures Paired(items[i := x], k, v) <==> if k == x.key then v == x.value else Paired(items, k, v)
  {
    var items' := items[i := x];
    assert items'[i] in items';
    if Paired(items, k, v) && k != x.key {
      var y :| y in items && y.key == k && y.value == v;
      var j :| 0 <= j < |items| && items[j] == y;
      assert items'[j] == y;
    }
    if Paired(items', k, v) {
      var y :| y in items' && y.key == k && y.value == v;
      var j :| 0 <= j < |items| && items'[j] == y;
      if j != i {
        assert items[j] == y && y in items && items[j].key != items[i].key;
      }
    }
  }

  /** A put of this key has to make room, and can. */
  predicate Evicts(s: Set, key: string) {
    Index(s.items, key) == |s.items| && s.num >= s.capacity && !Stuck(s.items)
  }

  /** After a put exactly the new pair is cached, and of the old ones all but those of the key and the victim. */
  lemma PutResult(s: Set, key: string, value: string, k: string, v: string)
    requires Ok(s)
    ensures Cached(Put(s, key, value), k, v) <==>
            if k == key then v == value
            else Cached(s, k, v) && !(Evicts(s, key) && k == s.items[Victim(s.items)].key)
  {
    hide Evict, Victim;
    var i := Index(s.items, key);
    var entry := Item(key, value, false);
    CachedIsPaired(s, k, v);
    CachedIsPaired(Put(s, key, value), k, v);
    if i < |s.items| {
      ReplacedPairs(s.items, i, Item(key, value, true), k, v);
    } else {
      AbsentKey(s.items, key, v);
      OnlyPair(entry, k, v);
      if s.num < s.capacity {
        JoinedPairs(s.items, [entry], k, v);
      } else {
        EvictedPairs(s.items, k, v);
        JoinedPairs(Evict(s.items), [entry], k, v);
      }
    }
  }

  lemma CachedIsPaired(s: Set, k: string, v: string)
    ensures Cached(s, k, v) <==> Paired(s.items, k, v)
  {
  }

  lemma AbsentKey(items: seq<Item>, key: string, v: string)
    requires Index(items, key) == |items|
    ensures !Paired(items, key, v)
  {
  }

  lemma OnlyPair(x: Item, k: string, v: string)
    ensures Paired([x], k, v) <==> k == x.key && v == x.value
  {
    assert x in [x];
  }

  /** A new entry is the youngest and not referenced; an overwritten one stays where it is and is referenced. */
  lemma PutPlace(s: Set, key: string, value: string)
    requires Ok(s)
    ensures var items := Put(s, key, value).items;
      if Has(s.items, key) then
        && |items| == |s.items| && items[Index(s.items, key)] == Item(key, value, true)
        && forall j :: 0 <= j < |items| && j != Index(s.items, key) ==> items[j] == s.items[j]
      else
        && items != [] && items[|items| - 1] == Item(key, value, false)
        && items[..|items| - 1] == (if s.num < s.capacity then s.items else Evict(s.items))
  {
  }

  /** After a del no pair of the key is cached, and all others are. */
  lemma DelResult(s: Set, key: string, k: string, v: string)
    requires Ok(s)
    ensures Cached(Del(s, key), k, v) <==> Cached(s, k, v) && k != key
  {
    var i := Index(s.items, key);
    CachedIsPaired(s, k, v);
    CachedIsPaired(Del(s, key), k, v);
    if i < |s.items| {
      WithoutOne(s.items, i, k, v);
    } else {
      AbsentKey(s.items, key, v);
    }
  }

  ghost predicate Referenced(s: Set, key: string) {
    exists x <- s.items :: x.key == key && x.referenced
  }

  /** A get keeps every pair, and sets the reference bit of its key and no other. */
  lemma TouchResult(s: Set, key: string, k: string, v: string)
    requires Ok(s)
    ensures Cached(Touch(s, key), k, v) <==> Cached(s, k, v)
    ensures Referenced(Touch(s, key), k) <==> if k == key then Has(s.items, key) else Referenced(s, k)
    ensures Touch(s, key).num == s.num && |Touch(s, key).items| == |s.items|
  {
    var i, s' := Index(s.items, key), Touch(s, key);
    if i < |s.items| {
      ReplacedPairs(s.items, i, s'.items[i], k, v);
      CachedIsPaired(s, k, v);
      CachedIsPaired(s', k, v);
      assert s.items[i] in s.items && s'.items[i] in s'.items;
      if Referenced(s, k) && k != key {
        var x :| x in s.items && x.key == k && x.referenced;
        var j :| 0 <= j < |s.items| && s.items[j] == x;
        assert s'.items[j] == x;
      }
      if Referenced(s', k) && k != key {
        var x :| x in s'.items && x.key == k && x.referenced;
        var j :| 0 <= j < |s'.items| && s'.items[j] == x;
        assert s.items[j] == x;
      }
    }
    if i < |s.items| && Cached(s, key, v) {
      var x :| x in s.items && x.key == key && x.value == v;
      var j :| 0 <= j < |s.items| && s.items[j] == x;
      assert j == i;
    }
  }

  /** As long as the set is not cleared, the counter is the number of entries. */
  lemma CounterCounts(s: Set, key: string, value: string)
    requires Ok(s) && s.num == |s.items|
    ensures Put(s, key, value).num == |Put(s, key, value).items|
    ensures Del(s, key).num == |Del(s, key).items|
  {
    EvictLength(s.items);
  }
}
