/**
 kvcache.c: an array of cache sets, of which a key selects one.  The sets are linked lists
 on the heap that share no entry, so an operation on one leaves the others alone.
 */
module Cache {
  import opened KvStore
  import opened UtList
  import CS = CacheSet
  import SC = SecondChance

  class Cache {
    /** The set number of a key, before it is taken modulo the number of sets. */
    const setOf: string -> nat
    const sets: seq<CS.CacheSet>

    /** The sets with their lists and entries. */
    ghost var foot: set<object>

    /** The sets as values of the second-chance policy. */
    ghost var states: seq<SC.Set>

    /** Set `i` lies in the footprint and has this value. */
    ghost predicate Part(i: nat, foot: set<object>, state: SC.Set)
      requires i < |sets|
      reads foot
    {
      var s := sets[i];
      && s in foot && s.list in foot && (forall n <- s.list.nodes :: n in foot)
      && s.Valid() && s.State() == state
    }

    /** No two sets share a list or an entry. */
    ghost predicate Apart(i: nat, j: nat)
      requires i < |sets| && j < |sets|
      reads sets[i].list, sets[j].list
    {
      && sets[i] != sets[j] && sets[i].list != sets[j].list
      && forall n <- sets[i].list.nodes :: n !in sets[j].list.nodes
    }

    ghost predicate Parts(foot: set<object>, states: seq<SC.Set>)
      reads foot
    {
      && |states| == |sets| > 0
      && (forall i :: 0 <= i < |sets| ==> Part(i, foot, states[i]))
      && (forall i, j :: 0 <= i < |sets| && 0 <= j < |sets| && i != j ==>
            sets[i].list in foot && sets[j].list in foot ==> Apart(i, j))
    }

    ghost predicate Valid()
      reads this, foot
      ensures Valid() ==> |states| == |sets| > 0
    {
      this !in foot && Parts(foot, states)
    }

    /** get_cache_set. */
    function Index(key: string): (i: nat)
      requires |sets| > 0
      ensures i < |sets|
    {
      setOf(key) % |sets|
    }

    /** kvcache_init, for sizes that it accepts. */
    constructor (setOf: string -> nat, numSets: nat, elemPerSet: nat)
      requires numSets > 0 && elemPerSet >= 2
      ensures Valid() && fresh(foot) && this.setOf == setOf && states == seq(numSets, _ => SC.Set([], 0, elemPerSet))
    {
      var made: seq<CS.CacheSet> := [];
      ghost var objects: set<object> := {};
      while |made| < numSets
        invariant |made| <= numSets && fresh(objects)
        invariant forall s <- made :: s in objects && s.list in objects && s.list.nodes == [] && s.Valid()
        invariant forall s <- made :: s.State() == SC.Set([], 0, elemPerSet)
        invariant forall i, j :: 0 <= i < j < |made| ==> made[i] != made[j] && made[i].list != made[j].list
      {
        var s := new CS.CacheSet(elemPerSet);
        made := made + [s];
        objects := objects + {s, s.list};
      }
      this.setOf := setOf;
      sets := made;
      foot := objects;
      states := seq(numSets, _ => SC.Set([], 0, elemPerSet));
    }

    /** kvcache_get. */
    method Get(key: string) returns (err: int, value: string)
      requires Valid()
      modifies this, foot
      ensures Valid() && fresh(foot - old(foot))
      ensures |key| > MAX_KEYLEN ==> err == ERRKEYLEN && states == old(states)
      ensures |key| <= MAX_KEYLEN ==>
        var i := Index(key);
        var items := old(states)[i].items;
        var j := SC.Index(items, key);
        && states == old(states)[i := SC.Touch(old(states)[i], key)]
        && if j < |items| then err == 0 && value == items[j].value else err == ERRNOKEY
    {
      hide SC.Touch, SC.Index, Parts, Linked, Distinct, CS.SameEntries, CS.ItemsOf;
      if |key| > MAX_KEYLEN {
        return ERRKEYLEN, "";
      }
      var i := Index(key);
      PartOf(i);
      err, value := sets[i].Get(key);
      OthersSame(i);
      foot := foot + set n | n in sets[i].list.nodes;
      states := states[i := sets[i].State()];
    }

    /** kvcache_put. */
    method Put(key: string, value: string) returns (err: int)
      requires Valid()
      modifies this, foot
      ensures Valid() && fresh(foot - old(foot))
      ensures err == if |key| > MAX_KEYLEN then ERRKEYLEN else if |value| > MAX_VALLEN then ERRVALLEN else 0
      ensures states ==
        if err == 0 then old(states)[Index(key) := SC.Put(old(states)[Index(key)], key, value)] else old(states)
    {
      hide SC.Put, SC.Index, Parts, Linked, Distinct, CS.SameEntries, CS.ItemsOf;
      if |key| > MAX_KEYLEN {
        return ERRKEYLEN;
      }
      if |value| > MAX_VALLEN {
        return ERRVALLEN;
      }
      var i := Index(key);
      PartOf(i);
      err := sets[i].Put(key, value);
      OthersSame(i);
      foot := foot + set n | n in sets[i].list.nodes;
      states := states[i := sets[i].State()];
    }

    /** kvcache_del. */
    method Del(key: string) returns (err: int)
      requires Valid()
      modifies this, foot
      ensures Valid() && fresh(foot - old(foot))
      ensures |key| > MAX_KEYLEN ==> err == ERRKEYLEN && states == old(states)
      ensures |key| <= MAX_KEYLEN ==>
        var i := Index(key);
        var items := old(states)[i].items;
        && states == old(states)[i := SC.Del(old(states)[i], key)]
        && err == if SC.Index(items, key) < |items| then 0 else ERRNOKEY
    {
      hide SC.Del, SC.Index, Parts, Linked, Distinct, CS.SameEntries, CS.ItemsOf;
      if |key| > MAX_KEYLEN {
        return ERRKEYLEN;
      }
      var i := Index(key);
      PartOf(i);
      err := sets[i].Del(key);
      OthersSame(i);
      foot := foot + set n | n in sets[i].list.nodes;
      states := states[i := sets[i].State()];
    }

    /** One set, and the others apart from it. */
    lemma PartOf(i: nat)
      requires Valid() && i < |sets|
      ensures Part(i, foot, states[i])
      ensures forall j :: 0 <= j < |sets| && j != i ==>
        sets[j] != sets[i] && sets[j].list != sets[i].list && forall n <- sets[j].list.nodes :: n !in sets[i].list.nodes
    {
      forall j | 0 <= j < |sets| && j != i
        ensures sets[j] != sets[i] && sets[j].list != sets[i].list && forall n <- sets[j].list.nodes :: n !in sets[i].list.nodes
      {
        assert Part(i, foot, states[i]) && Part(j, foot, states[j]);
        assert Apart(j, i);
      }
    }

    /** Whatever happened to set `i` alone, the others are as before and still apart from it. */
    twostate lemma OthersSame(i: nat)
      requires old(Valid()) && i < |sets| && sets[i].Valid()
      requires forall j :: 0 <= j < |sets| && j != i ==> unchanged(sets[j]) && unchanged(sets[j].list)
      requires forall j, n :: 0 <= j < |sets| && j != i && n in old(sets[j].list.nodes) ==> unchanged(n)
      requires forall n <- sets[i].list.nodes :: n in old(sets[i].list.nodes) || fresh(n)
      ensures Parts(old(foot) + (set n | n in sets[i].list.nodes), old(states)[i := sets[i].State()])
    {
      var foot', states' := old(foot) + (set n | n in sets[i].list.nodes), old(states)[i := sets[i].State()];
      forall j | 0 <= j < |sets| ensures Part(j, foot', states'[j]) {
        assert old(Part(j, foot, states[j]));
      }
      forall j, k | 0 <= j < |sets| && 0 <= k < |sets| && j != k ensures Apart(j, k) {
        assert old(Part(j, foot, states[j])) && old(Part(k, foot, states[k]));
        assert old(Apart(j, k));
      }
    }
  }

  /** kvcache_init, which refuses a cache without sets, and kvcacheset_init, which refuses sets of fewer than two entries. */
  method Init(setOf: string -> nat, numSets: nat, elemPerSet: nat) returns (err: int, cache: Cache?)
    ensures err == if numSets == 0 || elemPerSet < 2 then -1 else 0
    ensures err == 0 ==>
      && cache != null && fresh(cache) && cache.Valid() && fresh(cache.foot)
      && cache.setOf == setOf && cache.states == seq(numSets, _ => SC.Set([], 0, elemPerSet))
  {
    if numSets == 0 || elemPerSet < 2 {
      return -1, null;
    }
    cache := new Cache(setOf, numSets, elemPerSet);
    err := 0;
  }
}
