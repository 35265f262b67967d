/** free-map.c over bitmap.c: runs of free and used sectors, and the first-fit search. */
module FreeMap {

  // ---------- Runs of sectors ----------

  predicate InRun(s: nat, start: nat, cnt: nat) { start <= s < start + cnt }

  predicate RunIs(used: seq<bool>, start: nat, cnt: nat, value: bool) {
    start + cnt <= |used| && forall s :: start <= s < start + cnt ==> used[s] == value
  }

  /** bitmap_set_multiple. */
  function Marked(used: seq<bool>, start: nat, cnt: nat, value: bool): (r: seq<bool>)
    ensures |r| == |used|
    ensures forall s :: 0 <= s < |used| ==> r[s] == if InRun(s, start, cnt) then value else used[s]
  {
    seq(|used|, s requires 0 <= s < |used| => if InRun(s, start, cnt) then value else used[s])
  }

  // ---------- The free map ----------

  /** The lowest run of `cnt` free sectors at or after `i`, or -1. */
  ghost function FirstFit(used: seq<bool>, cnt: nat, i: nat): (r: int)
    ensures r >= 0 ==> r >= i && RunIs(used, r, cnt, false)
    ensures forall s :: i <= s && (r < 0 || s < r) ==> !RunIs(used, s, cnt, false)
    decreases |used| - i
  {
    if i + cnt > |used| || i > |used| then -1
    else if RunIs(used, i, cnt, false) then i
    else FirstFit(used, cnt, i + 1)
  }

  /** bitmap_contains. */
  method Contains(used: seq<bool>, start: nat, cnt: nat, value: bool) returns (found: bool)
    requires start + cnt <= |used|
    ensures found <==> !RunIs(used, start, cnt, !value)
  {
    var i := 0;
    while i < cnt
      invariant 0 <= i <= cnt
      invariant forall s :: start <= s < start + i ==> used[s] == !value
    {
      if used[start + i] == value {
        return true;
      }
      i := i + 1;
    }
    found := false;
  }

  /** bitmap_scan from the first bit, for clear bits. */
  method Scan(used: seq<bool>, cnt: nat) returns (r: int)
    ensures r == FirstFit(used, cnt, 0)
  {
    if cnt <= |used| {
      var i, last := 0, |used| - cnt;
      while i <= last
        invariant 0 <= i <= last + 1
        invariant FirstFit(used, cnt, i) == FirstFit(used, cnt, 0)
      {
        var taken := Contains(used, i, cnt, true);
        if !taken {
          return i;
        }
        i := i + 1;
      }
    }
    r := -1;
  }
}
