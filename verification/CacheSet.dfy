/**
 kvcacheset.c: a cache set over the linked list of entries and a hash table of the same
 entries.  Its methods are proved against the second-chance policy on sequences.
 */
module CacheSet {
  import opened UtList
  import SC = SecondChance
  import KvStore

  // ----- entries as values -----

  ghost function ItemsOf(nodes: seq<Node>): (r: seq<SC.Item>)
    reads (set n | n in nodes)`value, (set n | n in nodes)`refbit
    ensures |r| == |nodes|
    ensures forall i {:trigger r[i]} :: 0 <= i < |r| ==> r[i] == SC.Item(nodes[i].key, nodes[i].value, nodes[i].refbit)
  {
    if nodes == [] then []
    else
      assert forall n <- nodes[1..] :: n in nodes;
      [SC.Item(nodes[0].key, nodes[0].value, nodes[0].refbit)] + ItemsOf(nodes[1..])
  }

  lemma ItemsWithout(nodes: seq<Node>, i: nat)
    requires i < |nodes|
    ensures ItemsOf(Without(nodes, i)) == ItemsOf(nodes)[..i] + ItemsOf(nodes)[i + 1..]
  {
    hide ItemsOf;
    var a, b := ItemsOf(Without(nodes, i)), ItemsOf(nodes);
    assert forall j :: 0 <= j < |a| ==> a[j] == b[if j < i then j else j + 1];
  }

  lemma ItemsAppend(nodes: seq<Node>, n: Node)
    ensures ItemsOf(nodes + [n]) == ItemsOf(nodes) + [SC.Item(n.key, n.value, n.refbit)]
  {
    hide ItemsOf;
  }

  /** The list and the hash hold the same entries. */
  ghost predicate SameEntries(hash: map<string, Node>, nodes: seq<Node>) {
    && (forall n <- nodes :: n.key in hash && hash[n.key] == n)
    && (forall k <- hash :: hash[k] in nodes && hash[k].key == k)
  }

  lemma SameAfterDelete(hash: map<string, Node>, nodes: seq<Node>, i: nat)
    requires SameEntries(hash, nodes) && Distinct(nodes) && i < |nodes|
    ensures SameEntries(hash - {nodes[i].key}, Without(nodes, i))
    ensures nodes[i] !in Without(nodes, i)
    ensures forall n <- Without(nodes, i) :: n in nodes
  {
    var rest := Without(nodes, i);
    forall n <- rest ensures n in nodes && n.key != nodes[i].key && n != nodes[i] {
      var j :| 0 <= j < |rest| && rest[j] == n;
      assert n == nodes[if j < i then j else j + 1];
    }
    forall k <- hash | k != nodes[i].key ensures hash[k] in rest {
      var j :| 0 <= j < |nodes| && nodes[j] == hash[k];
      assert nodes[j] == rest[if j < i then j else j - 1];
    }
  }

  lemma SameAfterAppend(hash: map<string, Node>, nodes: seq<Node>, n: Node)
    requires SameEntries(hash, nodes) && n.key !in hash
    ensures SameEntries(hash[n.key := n], nodes + [n]) && n !in nodes
  {
  }

  lemma SameAfterRotation(hash: map<string, Node>, nodes: seq<Node>)
    requires SameEntries(hash, nodes) && nodes != []
    ensures SameEntries(hash, Without(nodes, 0) + [nodes[0]])
    ensures forall n <- Without(nodes, 0) + [nodes[0]] :: n in nodes
  {
    var rotated := Without(nodes, 0) + [nodes[0]];
    assert nodes == [nodes[0]] + Without(nodes, 0);
    assert forall n :: n in rotated <==> n in nodes;
  }

  /** HASH_FIND_STR agrees with a search of the list. */
  lemma FindAgrees(hash: map<string, Node>, nodes: seq<Node>, key: string)
    requires SameEntries(hash, nodes)
    ensures var i := SC.Index(ItemsOf(nodes), key);
      (key in hash <==> i < |nodes|) && (key in hash ==> nodes[i] == hash[key])
  {
    var i := SC.Index(ItemsOf(nodes), key);
    if i < |nodes| {
      assert nodes[i] in nodes;
    }
    forall j | 0 <= j < |nodes| && nodes[j].key == key ensures i < |nodes| {
      assert ItemsOf(nodes)[j].key == key;
    }
  }

  lemma SameMeansDistinctKeys(hash: map<string, Node>, nodes: seq<Node>)
    requires SameEntries(hash, nodes) && Distinct(nodes)
    ensures SC.DistinctKeys(ItemsOf(nodes))
  {
    forall i, j | 0 <= i < j < |nodes| ensures nodes[i].key != nodes[j].key {
      assert nodes[i] in nodes && nodes[j] in nodes;
    }
  }

  lemma StillAbsent(items: seq<SC.Item>, key: string)
    requires SC.DistinctKeys(items) && SC.Index(items, key) == |items|
    ensures SC.Index(SC.Evict(items), key) == |SC.Evict(items)|
  {
    SC.EvictKeepsPairs(items);
    forall x <- SC.Evict(items) ensures x.key != key {
      var y :| y in items && y.key == x.key;
    }
  }

  class CacheSet {
    const elemPerSet: nat
    var numEntries: int
    const list: List
    /** uthash, seen as a map from keys to entries. */
    var hash: map<string, Node>

    ghost predicate Valid()
      reads this, list, (set n | n in list.nodes)`prev, (set n | n in list.nodes)`next
    {
      list.Valid() && SameEntries(hash, list.nodes) && |list.nodes| <= numEntries <= elemPerSet && elemPerSet >= 2
    }

    ghost function State(): SC.Set
      reads this, list, (set n | n in list.nodes)`value, (set n | n in list.nodes)`refbit
    {
      SC.Set(ItemsOf(list.nodes), numEntries, elemPerSet)
    }

    /** kvcacheset_init, for a capacity that it accepts. */
    constructor (elemPerSet: nat)
      requires elemPerSet >= 2
      ensures Valid() && State() == SC.Set([], 0, elemPerSet) && fresh(list)
      ensures this.elemPerSet == elemPerSet && list.nodes == []
    {
      this.elemPerSet := elemPerSet;
      numEntries := 0;
      list := new List();
      hash := map[];
    }

    /** The valid object represents a valid set value. */
    lemma StateOk()
      requires Valid()
      ensures SC.Ok(State())
    {
      SameMeansDistinctKeys(hash, list.nodes);
    }

    /** kvcacheset_get. */
    method Get(key: string) returns (err: int, value: string)
      requires Valid()
      modifies (set n | n in list.nodes)`refbit
      ensures Valid() && State() == SC.Touch(old(State()), key)
      ensures var items := old(State()).items;
        var i := SC.Index(items, key);
        if i < |items| then err == 0 && value == items[i].value else err == KvStore.ERRNOKEY
    {
      hide Linked, SameEntries;
      FindAgrees(hash, list.nodes, key);
      if key !in hash {
        return KvStore.ERRNOKEY, "";
      }
      var entry := hash[key];
      ghost var i := SC.Index(ItemsOf(list.nodes), key);
      entry.refbit := true;
      value := entry.value;
      err := 0;
      Updated(i, old(ItemsOf(list.nodes)));
    }

    /** Changing one entry changes one item. */
    lemma Updated(i: nat, before: seq<SC.Item>)
      requires i < |list.nodes| == |before|
      requires forall j :: 0 <= j < |before| && j != i ==> ItemsOf(list.nodes)[j] == before[j]
      ensures var n := list.nodes[i]; ItemsOf(list.nodes) == before[i := SC.Item(n.key, n.value, n.refbit)]
    {
    }

    /** DL_DELETE and DL_APPEND of the first entry, whose reference bit is cleared. */
    method Rotate()
      requires Valid() && list.nodes != []
      modifies list, (set n | n in list.nodes)`prev, (set n | n in list.nodes)`next, (set n | n in list.nodes)`refbit
      ensures Valid() && ItemsOf(list.nodes) == SC.Rotated(old(ItemsOf(list.nodes)))
      ensures list.nodes == Without(old(list.nodes), 0) + [old(list.nodes)[0]]
    {
      hide Linked, SameEntries, Distinct, ItemsOf, Without;
      ghost var nodes := list.nodes;
      SameAfterRotation(hash, nodes);
      SameAfterDelete(hash, nodes, 0);
      ItemsWithout(nodes, 0);
      list.Front();
      var elt := list.head;
      list.Delete(elt, 0);
      elt.refbit := false;
      ItemsAppend(list.nodes, elt);
      list.Append(elt);
    }

    /** DL_DELETE and HASH_DEL of the entry at position `i`. */
    method Drop(elt: Node, ghost i: nat)
      requires Valid() && i < |list.nodes| && list.nodes[i] == elt
      modifies this`hash, list, (set n | n in list.nodes)`prev, (set n | n in list.nodes)`next
      ensures Valid() && list.nodes == Without(old(list.nodes), i)
      ensures var items := old(ItemsOf(list.nodes)); ItemsOf(list.nodes) == items[..i] + items[i + 1..]
      ensures forall n <- list.nodes :: n in old(list.nodes)
    {
      hide Linked, SameEntries, Distinct, ItemsOf;
      SameAfterDelete(hash, list.nodes, i);
      ItemsWithout(list.nodes, i);
      list.Delete(elt, i);
      hash := hash - {elt.key};
    }

    /**
     The eviction loop, which appends to the list it walks.  It ends because every pass
     clears a reference bit.
     */
    method EvictOne()
      requires Valid()
      modifies this`hash, list, (set n | n in list.nodes)`prev, (set n | n in list.nodes)`next,
               (set n | n in list.nodes)`refbit
      ensures Valid() && ItemsOf(list.nodes) == SC.Evict(old(ItemsOf(list.nodes)))
      ensures forall n <- list.nodes :: n in old(list.nodes)
    {
      hide Linked, SameEntries, Distinct;
      var elt := list.head;
      list.Front();
      while elt != null
        invariant Valid()
        invariant forall n <- list.nodes :: n in old(list.nodes)
        invariant elt == null ==> ItemsOf(list.nodes) == SC.Evict(old(ItemsOf(list.nodes)))
        invariant elt != null ==> list.nodes != [] && elt == list.nodes[0]
        invariant elt != null ==> SC.Evict(ItemsOf(list.nodes)) == SC.Evict(old(ItemsOf(list.nodes)))
        decreases elt != null, SC.ReferencedCount(ItemsOf(list.nodes))
      {
        ghost var items, nodes := ItemsOf(list.nodes), list.nodes;
        list.Front();
        var tmp := elt.next;
        assert elt in nodes;
        if !elt.refbit {
          Drop(elt, 0);
          return;
        }
        SameAfterRotation(hash, nodes);
        Rotate();
        SC.RotatedCount(items);
        elt := tmp;
      }
    }

    /** DL_APPEND and HASH_ADD of a new entry. */
    method Insert(entry: Node)
      requires list.Valid() && SameEntries(hash, list.nodes) && entry.key !in hash
      requires |list.nodes| < numEntries <= elemPerSet && elemPerSet >= 2
      modifies this`hash, list, entry`prev, entry`next, (set n | n in list.nodes)`prev, (set n | n in list.nodes)`next
      ensures Valid() && list.nodes == old(list.nodes) + [entry]
      ensures ItemsOf(list.nodes) == old(ItemsOf(list.nodes)) + [SC.Item(entry.key, entry.value, entry.refbit)]
    {
      hide Linked, SameEntries, Distinct, ItemsOf;
      SameAfterAppend(hash, list.nodes, entry);
      ItemsAppend(list.nodes, entry);
      list.Append(entry);
      hash := hash[entry.key := entry];
    }

    /** kvcacheset_put. */
    method Put(key: string, value: string) returns (err: int)
      requires Valid()
      modifies this`hash, this`numEntries, list, set n | n in list.nodes
      ensures Valid() && err == 0 && State() == SC.Put(old(State()), key, value)
      ensures forall n <- list.nodes :: n in old(list.nodes) || fresh(n)
    {
      hide Linked, SameEntries, Distinct, ItemsOf;
      FindAgrees(hash, list.nodes, key);
      StateOk();
      err := 0;
      if key in hash {
        Overwrite(key, value);
        return;
      }
      var entry := new Node(key, value);
      if numEntries < elemPerSet {
        numEntries := numEntries + 1;
      } else {
        EvictOne();
        SC.EvictLength(old(ItemsOf(list.nodes)));
        StillAbsent(old(ItemsOf(list.nodes)), key);
        FindAgrees(hash, list.nodes, key);
      }
      Insert(entry);
    }

    /** The branch of kvcacheset_put for a key that is cached. */
    method Overwrite(key: string, value: string)
      requires Valid() && key in hash
      modifies (set n | n in list.nodes)`value, (set n | n in list.nodes)`refbit
      ensures Valid() && State() == SC.Put(old(State()), key, value)
    {
      hide Linked, ItemsOf;
      FindAgrees(hash, list.nodes, key);
      var entry := hash[key];
      ghost var i := SC.Index(ItemsOf(list.nodes), key);
      entry.refbit := true;
      entry.value := value;
      Updated(i, old(ItemsOf(list.nodes)));
    }

    /** kvcacheset_del. */
    method Del(key: string) returns (err: int)
      requires Valid()
      modifies this`hash, this`numEntries, list, (set n | n in list.nodes)`prev, (set n | n in list.nodes)`next
      ensures Valid() && State() == SC.Del(old(State()), key)
      ensures var items := old(State()).items; err == if SC.Index(items, key) < |items| then 0 else KvStore.ERRNOKEY
      ensures forall n <- list.nodes :: n in old(list.nodes)
    {
      hide Linked, SameEntries, Distinct, ItemsOf;
      FindAgrees(hash, list.nodes, key);
      if key !in hash {
        return KvStore.ERRNOKEY;
      }
      Drop(hash[key], SC.Index(ItemsOf(list.nodes), key));
      numEntries := numEntries - 1;
      err := 0;
    }

    /** kvcacheset_clear: the list and the hash are emptied, the counter is not. */
    method Clear()
      requires Valid()
      modifies this`hash, list, (set n | n in list.nodes)`prev, (set n | n in list.nodes)`next
      ensures Valid() && State() == SC.Clear(old(State())) && list.nodes == []
    {
      hide Linked, SameEntries, Distinct;
      list.Front();
      while list.head != null
        invariant Valid() && numEntries == old(numEntries) && (list.head == null <==> list.nodes == [])
        invariant forall n <- list.nodes :: n in old(list.nodes)
        decreases |list.nodes|
      {
        list.Front();
        Drop(list.head, 0);
        list.Front();
      }
    }
  }
}
