/** Ownership and contents together: a write to one file shows in no other. */
module FileContents {
  import opened Bytes
  import opened FileSys
  import opened FreeMap
  import opened InodeData

  /** The file as the reading and writing code sees it. */
  function AsInode(head: Head): Inode { Inode(head.start, head.length, 0) }

  /** A write inside a file leaves every sector outside the file's data as it was. */
  lemma SectorKept(before: seq<Sector>, after: seq<Sector>, head: Head, offset: nat, bytes: seq<byte>, s: nat)
    requires Written(before, after, Base(AsInode(head)) + offset, bytes) && offset + |bytes| <= head.length
    requires s < |before| && !InRun(s, head.start, SectorsFor(head.length))
    ensures after[s] == before[s]
  {
    forall k | 0 <= k < SECTOR_SIZE ensures after[s][k] == before[s][k] {
      var x := SECTOR_SIZE * s + k;
      assert x / SECTOR_SIZE == s && x % SECTOR_SIZE == k;
      assert ByteAt(after, x) == after[s][k] && ByteAt(before, x) == before[s][k];
      assert !(Base(AsInode(head)) + offset <= x < Base(AsInode(head)) + offset + |bytes|);
    }
  }

  /**
   In every state of the file system, a write to a live file changes no sector, inode or
   data, of any other live file, and not its own inode.
   */
  lemma OthersKept(st: State, before: seq<Sector>, after: seq<Sector>, f: nat, offset: nat, bytes: seq<byte>, g: nat, s: nat)
    requires Inv(st) && Live(st, f) && Live(st, g) && f in st.heads && g in st.heads
    requires Written(before, after, Base(AsInode(st.heads[f])) + offset, bytes)
    requires offset + |bytes| <= st.heads[f].length && s < |before|
    requires if f == g then s == f else Owns(g, st.heads[g], s)
    ensures after[s] == before[s]
  {
    assert Stored(st, f);
    assert f != g ==> !Owns(f, st.heads[f], s);
    SectorKept(before, after, st.heads[f], offset, bytes, s);
  }

  /** So a read of another live file returns what it did before the write. */
  lemma OtherReadsSame(st: State, before: seq<Sector>, after: seq<Sector>, f: nat, offset: nat, bytes: seq<byte>,
                       g: nat, at: nat, content: seq<byte>)
    requires Inv(st) && Live(st, f) && Live(st, g) && f != g && f in st.heads && g in st.heads
    requires Written(before, after, Base(AsInode(st.heads[f])) + offset, bytes)
    requires offset + |bytes| <= st.heads[f].length && at + |content| <= st.heads[g].length
    ensures var a := Base(AsInode(st.heads[g])) + at;
      IsSlice(before, a, content) <==> IsSlice(after, a, content)
  {
    var a := Base(AsInode(st.heads[g])) + at;
    assert Stored(st, g);
    forall x: nat | a <= x < a + |content| && x < SECTOR_SIZE * |before| ensures ByteAt(before, x) == ByteAt(after, x) {
      var s := x / SECTOR_SIZE;
      assert Owns(g, st.heads[g], s);
      OthersKept(st, before, after, f, offset, bytes, g, s);
    }
    SliceKept(before, after, a, content);
    SliceKept(after, before, a, content);
  }
}
