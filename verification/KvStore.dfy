/**
 The on-disk key-value store: one file per entry, named by the hash of its key and its
 position in the chain of keys with that hash.  The directory is a map from
 (hash, position) to the entry; the hash is an arbitrary function.
 */
module KvStore {

  const MAX_KEYLEN: nat := 1024
  const MAX_VALLEN: nat := 1024

  const ERRKEYLEN: int := -11
  const ERRVALLEN: int := -12
  const ERRNOKEY: int := -13
  const ERRFILACCESS: int := -17

  datatype Entry = Entry(key: string, value: string)

  /**
   What becomes of an update: the file is changed; it cannot be opened, removed or renamed;
   or it is opened, which empties it, and not written.
   */
  datatype Update = Made | Refused | Damaged

  type Files = map<(nat, nat), Entry>

  /** Every chain occupies positions 0..n-1. */
  ghost predicate NoGaps(files: Files) {
    forall h: nat, p: nat :: (h, p + 1) in files ==> (h, p) in files
  }

  ghost predicate HashesMatch(files: Files, hash: string -> nat) {
    forall hp <- files :: hash(files[hp].key) == hp.0
  }

  ghost predicate KeysDistinct(files: Files) {
    forall hp <- files, hq <- files :: files[hp].key == files[hq].key ==> hp == hq
  }

  /** The directory holds exactly the pairs of `m`. */
  ghost predicate Represents(files: Files, m: map<string, string>) {
    && (forall hp <- files :: files[hp].key in m && m[files[hp].key] == files[hp].value)
    && (forall k <- m :: exists hp :: hp in files && files[hp].key == k)
  }

  ghost predicate Chained(files: Files, hash: string -> nat, m: map<string, string>) {
    NoGaps(files) && HashesMatch(files, hash) && KeysDistinct(files) && Represents(files, m)
  }

  /** A chain ends at its first missing position. */
  lemma {:induction false} ChainEnds(files: Files, h: nat, n: nat, p: nat)
    requires NoGaps(files) && (h, n) !in files && n <= p
    ensures (h, p) !in files
    decreases p - n
  {
    if n < p {
      assert (h, n + 1) in files ==> (h, n) in files;
      ChainEnds(files, h, n + 1, p);
    }
  }

  /** The positions below `n` of chain `h`. */
  ghost function Below(h: nat, n: nat): set<(nat, nat)> { set i: nat | i < n :: (h, i) }

  /** A key that is not among the first `n` entries of its own chain, which ends there, is absent. */
  lemma AbsentKey(files: Files, hash: string -> nat, m: map<string, string>, key: string, n: nat)
    requires Chained(files, hash, m) && (hash(key), n) !in files
    requires forall i: nat :: i < n ==> (hash(key), i) in files && files[(hash(key), i)].key != key
    ensures key !in m
  {
    if key in m {
      var hp: (nat, nat) :| hp in files && files[hp].key == key;
      assert hp == (hash(key), hp.1);
      if hp.1 >= n {
        ChainEnds(files, hash(key), n, hp.1);
      }
    }
  }

  lemma Overwritten(files: Files, hash: string -> nat, m: map<string, string>, hp: (nat, nat), e: Entry)
    requires Chained(files, hash, m) && hp in files && files[hp].key == e.key
    ensures Chained(files[hp := e], hash, m[e.key := e.value])
  {
    var files', m' := files[hp := e], m[e.key := e.value];
    forall hq <- files' ensures files'[hq].key in m' && m'[files'[hq].key] == files'[hq].value {
      if hq != hp {
        assert files[hq].key != files[hp].key;
      }
    }
    forall k <- m' ensures exists hq :: hq in files' && files'[hq].key == k {
      if k == e.key {
        assert hp in files' && files'[hp].key == k;
      } else {
        var hq :| hq in files && files[hq].key == k;
        assert hq in files' && files'[hq].key == k;
      }
    }
  }

  lemma Appended(files: Files, hash: string -> nat, m: map<string, string>, n: nat, e: Entry)
    requires Chained(files, hash, m) && e.key !in m
    requires (hash(e.key), n) !in files && (n > 0 ==> (hash(e.key), n - 1) in files)
    ensures Chained(files[(hash(e.key), n) := e], hash, m[e.key := e.value])
  {
    var hp := (hash(e.key), n);
    var files', m' := files[hp := e], m[e.key := e.value];
    forall k <- m' ensures exists hq :: hq in files' && files'[hq].key == k {
      if k == e.key {
        assert hp in files' && files'[hp].key == k;
      } else {
        var hq :| hq in files && files[hq].key == k;
        assert hq in files' && files'[hq].key == k;
      }
    }
    forall h: nat, p: nat | (h, p + 1) in files' ensures (h, p) in files' {
      if (h, p + 1) in files {
        assert (h, p) in files;
      }
    }
  }

  /** The files after the last entry of chain `h` has been moved to position `p` of it. */
  function Moved(files: Files, h: nat, p: nat, last: nat): Files
    requires (h, last) in files
  {
    if p == last then files - {(h, p)} else files[(h, p) := files[(h, last)]] - {(h, last)}
  }

  /** Where the entry at `hq` was before the move. */
  function Source(h: nat, p: nat, last: nat, hq: (nat, nat)): (nat, nat) {
    if hq == (h, p) then (h, last) else hq
  }

  lemma MovedFrom(files: Files, h: nat, p: nat, last: nat)
    requires (h, p) in files && (h, last) in files && p <= last
    ensures var files' := Moved(files, h, p, last);
      && (forall hq <- files' :: Source(h, p, last, hq) in files && files'[hq] == files[Source(h, p, last, hq)])
      && (forall hq <- files' :: Source(h, p, last, hq) != (h, p))
      && (forall src <- files :: src == (h, p) || (exists hq :: hq in files' && Source(h, p, last, hq) == src))
  {
    var files' := Moved(files, h, p, last);
    forall src <- files | src != (h, p) ensures exists hq :: hq in files' && Source(h, p, last, hq) == src {
      var hq := if src == (h, last) then (h, p) else src;
      assert hq in files' && Source(h, p, last, hq) == src;
    }
  }

  lemma MovedDistinct(files: Files, h: nat, p: nat, last: nat)
    requires KeysDistinct(files) && (h, p) in files && (h, last) in files && p <= last
    ensures KeysDistinct(Moved(files, h, p, last))
  {
    var files' := Moved(files, h, p, last);
    forall hq <- files', hr <- files' | files'[hq].key == files'[hr].key ensures hq == hr {
      var s, t := Source(h, p, last, hq), Source(h, p, last, hr);
      assert files'[hq] == files[s] && files'[hr] == files[t];
      assert s == t;
    }
  }

  lemma MovedNoGaps(files: Files, h: nat, p: nat, last: nat)
    requires NoGaps(files) && (h, p) in files && (h, last) in files && p <= last && (h, last + 1) !in files
    ensures NoGaps(Moved(files, h, p, last))
  {
    var files' := Moved(files, h, p, last);
    forall a: nat, b: nat | (a, b + 1) in files' ensures (a, b) in files' {
      assert (a, b + 1) in files;
      assert (a, b) in files;
    }
  }

  lemma OthersDiffer(files: Files, hp: (nat, nat), hq: (nat, nat))
    requires KeysDistinct(files) && hp in files && hq in files && hp != hq
    ensures files[hp].key != files[hq].key
  {
  }

  /** Moving the last entry of a chain into the hole removes exactly the deleted key. */
  lemma Deleted(files: Files, hash: string -> nat, m: map<string, string>, key: string, p: nat, last: nat)
    requires Chained(files, hash, m)
    requires var h := hash(key); (h, p) in files && files[(h, p)].key == key
    requires var h := hash(key); p <= last && (h, last) in files && (h, last + 1) !in files
    ensures Chained(Moved(files, hash(key), p, last), hash, m - {key})
  {
    hide Moved, KeysDistinct;
    var h := hash(key);
    var files', m' := Moved(files, h, p, last), m - {key};
    MovedNoGaps(files, h, p, last);
    MovedFrom(files, h, p, last);
    forall hq <- files' ensures files'[hq].key in m' && m'[files'[hq].key] == files'[hq].value && hash(files'[hq].key) == hq.0 {
      OthersDiffer(files, (h, p), Source(h, p, last, hq));
    }
    forall k <- m' ensures exists hq :: hq in files' && files'[hq].key == k {
      var src: (nat, nat) :| src in files && files[src].key == k;
      assert src != (h, p);
    }
    MovedDistinct(files, h, p, last);
  }

  class Store {
    const hash: string -> nat
    var files: Files
    var dirExists: bool
    ghost var contents: map<string, string>

    ghost predicate Valid()
      reads this
    {
      Chained(files, hash, contents)
    }

    constructor (hash: string -> nat)
      ensures Valid() && contents == map[] && dirExists && this.hash == hash
    {
      this.hash := hash;
      files := map[];
      dirExists := true;
      contents := map[];
    }

    /** find_entry: the chain position of a key, or a negative error code. */
    method FindEntry(key: string) returns (pos: int, value: string)
      requires Valid()
      ensures |key| > MAX_KEYLEN ==> pos == ERRKEYLEN
      ensures |key| <= MAX_KEYLEN && !dirExists ==> pos == ERRFILACCESS
      ensures |key| <= MAX_KEYLEN && dirExists && key !in contents ==> pos == ERRNOKEY
      ensures |key| <= MAX_KEYLEN && dirExists && key in contents ==>
        && pos >= 0 && (hash(key), pos) in files && files[(hash(key), pos)].key == key
        && value == contents[key]
    {
      value := "";
      if |key| > MAX_KEYLEN {
        return ERRKEYLEN, value;
      }
      if !dirExists {
        return ERRFILACCESS, value;
      }
      var h := hash(key);
      var counter: nat := 0;
      while (h, counter) in files
        invariant forall i: nat :: i < counter ==> (h, i) in files && files[(h, i)].key != key
        decreases files.Keys - Below(h, counter)
      {
        var entry := files[(h, counter)];
        if entry.key == key {
          return counter, entry.value;
        }
        assert (h, counter) in files.Keys - Below(h, counter);
        assert Below(h, counter + 1) == Below(h, counter) + {(h, counter)};
        counter := counter + 1;
      }
      AbsentKey(files, hash, contents, key, counter);
      pos := ERRNOKEY;
    }

    /** kvstore_get. */
    method Get(key: string) returns (err: int, value: string)
      requires Valid()
      ensures |key| <= MAX_KEYLEN && dirExists && key in contents ==> err == 0 && value == contents[key]
      ensures err == (if |key| > MAX_KEYLEN then ERRKEYLEN else if !dirExists then ERRFILACCESS
                      else if key !in contents then ERRNOKEY else 0)
    {
      err, value := FindEntry(key);
      if err >= 0 {
        err := 0;
      }
    }

    /** kvstore_put_check. */
    function PutCheck(key: string, value: string): int
      reads this
    {
      if |key| > MAX_KEYLEN then ERRKEYLEN
      else if |value| > MAX_VALLEN then ERRVALLEN
      else if !dirExists then ERRFILACCESS
      else 0
    }

    /**
     kvstore_put: the stored map changes by exactly this pair, or not at all.  A file that is
     opened and not written is no entry of any map.
     */
    method Put(key: string, value: string, u: Update) returns (err: int)
      requires Valid() && (u.Damaged? ==> PutCheck(key, value) < 0)
      modifies this`files, this`contents
      ensures Valid()
      ensures err == if PutCheck(key, value) < 0 then PutCheck(key, value) else if u.Made? then 0 else ERRFILACCESS
      ensures contents == if err == 0 then old(contents)[key := value] else old(contents)
    {
      err := PutCheck(key, value);
      if err < 0 {
        return;
      }
      var h := hash(key);
      var pos, _ := FindEntry(key);
      if pos >= 0 {
        if u.Refused? {
          return ERRFILACCESS;
        }
        Overwritten(files, hash, contents, (h, pos), Entry(key, value));
        files := files[(h, pos) := Entry(key, value)];
      } else {
        var counter: nat := 0;
        while (h, counter) in files
          invariant forall i: nat :: i < counter ==> (h, i) in files
          decreases files.Keys - Below(h, counter)
        {
          assert (h, counter) in files.Keys - Below(h, counter);
          assert Below(h, counter + 1) == Below(h, counter) + {(h, counter)};
          counter := counter + 1;
        }
        if u.Refused? {
          return ERRFILACCESS;
        }
        Appended(files, hash, contents, counter, Entry(key, value));
        files := files[(h, counter) := Entry(key, value)];
      }
      contents := contents[key := value];
    }

    /** kvstore_del_check. */
    method DelCheck(key: string) returns (err: int)
      requires Valid()
      ensures err == (if |key| > MAX_KEYLEN then ERRKEYLEN else if !dirExists then ERRFILACCESS
                      else if key !in contents then ERRNOKEY else 0)
    {
      if |key| > MAX_KEYLEN {
        return ERRKEYLEN;
      }
      if !dirExists {
        return ERRFILACCESS;
      }
      var pos, _ := FindEntry(key);
      err := if pos >= 0 then 0 else ERRNOKEY;
    }

    /**
     kvstore_del: the last entry of the chain fills the hole.  `errno` is 0 unless remove or
     rename fails.
     */
    method Del(key: string, errno: nat) returns (err: int)
      requires Valid()
      modifies this`files, this`contents
      ensures Valid()
      ensures err == (if |key| > MAX_KEYLEN then ERRKEYLEN else if !dirExists then ERRFILACCESS
                      else if key !in old(contents) then ERRNOKEY else errno)
      ensures contents == if err == 0 then old(contents) - {key} else old(contents)
    {
      var pos, _ := FindEntry(key);
      if pos < 0 {
        return pos;
      }
      var h := hash(key);
      var counter: nat := pos + 1;
      while (h, counter) in files
        invariant pos < counter && (h, counter - 1) in files
        decreases files.Keys - Below(h, counter)
      {
        assert (h, counter) in files.Keys - Below(h, counter);
        assert Below(h, counter + 1) == Below(h, counter) + {(h, counter)};
        counter := counter + 1;
      }
      if errno != 0 {
        return errno;
      }
      Deleted(files, hash, contents, key, pos, counter - 1);
      if counter == pos + 1 {
        files := files - {(h, pos)};
      } else {
        files := files[(h, pos) := files[(h, counter - 1)]] - {(h, counter - 1)};
      }
      contents := contents - {key};
      err := 0;
    }
  }
}
