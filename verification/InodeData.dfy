/**
 inode.c, reading and writing: a file is a run of consecutive sectors, and the two loops
 copy it sector by sector, through a bounce buffer for partial sectors.  The proofs say
 that this is copying a slice of one flat array of bytes.
 */
module InodeData {
  import opened Bytes

  const SECTOR_SIZE: nat := 512

  type Sector = s: seq<byte> | |s| == SECTOR_SIZE witness seq(SECTOR_SIZE, _ => 0)

  /** The byte at flat position `x` of the device. */
  function ByteAt(sectors: seq<Sector>, x: nat): byte
    requires x < SECTOR_SIZE * |sectors|
  {
    sectors[x / SECTOR_SIZE][x % SECTOR_SIZE]
  }

  /** The on-disk inode, and the number of callers that deny writes. */
  datatype Inode = Inode(start: nat, length: nat, denyWriteCnt: nat)

  /** bytes_to_sectors. */
  function SectorsFor(size: nat): nat { (size + SECTOR_SIZE - 1) / SECTOR_SIZE }

  predicate OnDevice(inode: Inode, sectors: nat) {
    inode.start + SectorsFor(inode.length) <= sectors
  }

  /** Where the file starts in the flat array. */
  function Base(inode: Inode): nat { SECTOR_SIZE * inode.start }

  /** How many bytes from `offset` on a request of `size` bytes covers. */
  function Covered(inode: Inode, size: int, offset: nat): nat {
    if offset >= inode.length || size <= 0 then 0
    else if size < inode.length - offset then size else inode.length - offset
  }

  /** byte_to_sector, for a position inside the file. */
  function ByteToSector(inode: Inode, pos: nat): nat
    requires pos < inode.length
  {
    inode.start + pos / SECTOR_SIZE
  }

  /** The sizes computed at the top of both loops. */
  function ChunkSize(inode: Inode, size: nat, offset: nat): (c: int)
    ensures offset < inode.length && size > 0 ==> 0 < c <= size && offset + c <= inode.length
    ensures offset < inode.length && size > 0 ==> offset % SECTOR_SIZE + c <= SECTOR_SIZE
    ensures offset >= inode.length || size == 0 ==> c <= 0
  {
    var inodeLeft := inode.length - offset;
    var sectorLeft := SECTOR_SIZE - offset % SECTOR_SIZE;
    var minLeft := if inodeLeft < sectorLeft then inodeLeft else sectorLeft;
    if size < minLeft then size else minLeft
  }

  /** A position inside one chunk lies in the chunk's sector. */
  lemma ChunkPositions(inode: Inode, offset: nat, c: nat, i: nat)
    requires offset % SECTOR_SIZE + c <= SECTOR_SIZE && i < c
    ensures (Base(inode) + offset + i) / SECTOR_SIZE == inode.start + offset / SECTOR_SIZE
    ensures (Base(inode) + offset + i) % SECTOR_SIZE == offset % SECTOR_SIZE + i
  {
  }

  lemma SectorExists(inode: Inode, sectors: nat, pos: nat)
    requires OnDevice(inode, sectors) && pos < inode.length
    ensures ByteToSector(inode, pos) < sectors
    ensures Base(inode) + pos < SECTOR_SIZE * sectors
  {
  }

  predicate ByteIs(sectors: seq<Sector>, x: nat, c: byte) {
    x < SECTOR_SIZE * |sectors| && ByteAt(sectors, x) == c
  }

  /** `bytes` is the slice of the device that starts at `a`. */
  ghost predicate IsSlice(sectors: seq<Sector>, a: nat, bytes: seq<byte>) {
    forall i :: 0 <= i < |bytes| ==> ByteIs(sectors, a + i, bytes[i])
  }

  /** `after` is `before` with `bytes` written at `a` and no other byte changed. */
  ghost predicate Written(before: seq<Sector>, after: seq<Sector>, a: nat, bytes: seq<byte>) {
    && |after| == |before| && (bytes != [] ==> a + |bytes| <= SECTOR_SIZE * |before|)
    && forall x :: 0 <= x < SECTOR_SIZE * |before| ==>
         ByteAt(after, x) == if a <= x < a + |bytes| then bytes[x - a] else ByteAt(before, x)
  }

  /** The bounce buffer after copying `bytes` to position `ofs` of a sector. */
  function Patched(s: Sector, ofs: nat, bytes: seq<byte>): Sector
    requires ofs + |bytes| <= SECTOR_SIZE
  {
    s[..ofs] + bytes + s[ofs + |bytes|..]
  }

  /** Patching one sector writes its bytes and no others. */
  lemma PatchWrites(sectors: seq<Sector>, idx: nat, ofs: nat, bytes: seq<byte>)
    requires idx < |sectors| && ofs + |bytes| <= SECTOR_SIZE
    ensures Written(sectors, sectors[idx := Patched(sectors[idx], ofs, bytes)], SECTOR_SIZE * idx + ofs, bytes)
  {
    var after, a := sectors[idx := Patched(sectors[idx], ofs, bytes)], SECTOR_SIZE * idx + ofs;
    forall x | 0 <= x < SECTOR_SIZE * |sectors|
      ensures ByteAt(after, x) == if a <= x < a + |bytes| then bytes[x - a] else ByteAt(sectors, x)
    {
      if x / SECTOR_SIZE == idx {
        assert x == SECTOR_SIZE * idx + x % SECTOR_SIZE;
      }
    }
  }

  /** Two adjacent writes are one write of the concatenation. */
  lemma WrittenTwice(s0: seq<Sector>, s1: seq<Sector>, s2: seq<Sector>, a: nat, u: seq<byte>, v: seq<byte>)
    requires Written(s0, s1, a, u) && Written(s1, s2, a + |u|, v)
    ensures Written(s0, s2, a, u + v)
  {
    forall x | 0 <= x < SECTOR_SIZE * |s0|
      ensures ByteAt(s2, x) == if a <= x < a + |u + v| then (u + v)[x - a] else ByteAt(s0, x)
    {
      assert ByteAt(s1, x) == if a <= x < a + |u| then u[x - a] else ByteAt(s0, x);
    }
  }

  /** Two adjacent slices are one slice. */
  lemma SlicesJoin(sectors: seq<Sector>, a: nat, u: seq<byte>, v: seq<byte>)
    requires IsSlice(sectors, a, u) && IsSlice(sectors, a + |u|, v)
    ensures IsSlice(sectors, a, u + v)
  {
    var w := u + v;
    forall i | 0 <= i < |w|
      ensures ByteIs(sectors, a + i, w[i])
    {
      if i < |u| {
        assert w[i] == u[i];
      } else {
        assert w[i] == v[i - |u|];
        assert a + i == a + |u| + (i - |u|);
      }
    }
  }

  /** The part of one sector that a chunk covers is a slice of the device. */
  lemma ChunkIsSlice(sectors: seq<Sector>, inode: Inode, pos: nat, chunk: nat)
    requires OnDevice(inode, |sectors|) && chunk > 0 && pos + chunk <= inode.length
    requires pos % SECTOR_SIZE + chunk <= SECTOR_SIZE
    ensures ByteToSector(inode, pos) < |sectors|
    ensures IsSlice(sectors, Base(inode) + pos, Part(sectors[ByteToSector(inode, pos)], pos % SECTOR_SIZE, chunk))
  {
    SectorExists(inode, |sectors|, pos);
    SectorExists(inode, |sectors|, pos + chunk - 1);
    var part := Part(sectors[ByteToSector(inode, pos)], pos % SECTOR_SIZE, chunk);
    forall i | 0 <= i < chunk
      ensures ByteIs(sectors, Base(inode) + pos + i, part[i])
    {
      ChunkPositions(inode, pos, chunk, i);
    }
  }

  function Part(s: Sector, ofs: nat, n: nat): (r: seq<byte>)
    requires ofs + n <= SECTOR_SIZE
    ensures |r| == n
  {
    s[ofs..ofs + n]
  }

  /** memcpy to position `at` of a buffer. */
  method CopyInto(buffer: array<byte>, at: nat, bytes: seq<byte>)
    requires at + |bytes| <= buffer.Length
    modifies buffer
    ensures buffer[..at] == old(buffer[..at])
    ensures buffer[..at + |bytes|] == old(buffer[..at]) + bytes
    ensures buffer[at + |bytes|..] == old(buffer[at + |bytes|..])
  {
    var i := 0;
    while i < |bytes|
      invariant 0 <= i <= |bytes|
      invariant buffer[..at + i] == old(buffer[..at]) + bytes[..i]
      invariant buffer[at + i..] == old(buffer[at + i..])
    {
      buffer[at + i] := bytes[i];
      i := i + 1;
    }
    assert bytes[..i] == bytes;
  }

  class Device {
    var sectors: seq<Sector>

    constructor (sectors: seq<Sector>)
      ensures this.sectors == sectors
    {
      this.sectors := sectors;
    }

    /**
     inode_read_at.  `memory` says whether a bounce buffer can be allocated.  The bytes read
     are the slice of the file at `offset`, cut off at its end, and the rest of the buffer
     stays as it was.
     */
    method ReadAt(inode: Inode, buffer: array<byte>, size: int, offset: nat, memory: bool) returns (bytesRead: nat)
      requires OnDevice(inode, |sectors|) && size <= buffer.Length
      modifies buffer
      ensures bytesRead <= buffer.Length && bytesRead <= Covered(inode, size, offset)
      ensures memory ==> bytesRead == Covered(inode, size, offset)
      ensures IsSlice(sectors, Base(inode) + offset, buffer[..bytesRead])
      ensures buffer[bytesRead..] == old(buffer[bytesRead..])
    {
      hide IsSlice, Base, SectorsFor, Part, ChunkSize;
      bytesRead := 0;
      SliceEmpty(sectors, Base(inode) + offset);
      assert buffer[..0] == [];
      while bytesRead < size
        invariant bytesRead <= Covered(inode, size, offset) && bytesRead <= buffer.Length
        invariant IsSlice(sectors, Base(inode) + offset, buffer[..bytesRead])
        invariant buffer[bytesRead..] == old(buffer[bytesRead..])
        decreases size - bytesRead
      {
        var pos := offset + bytesRead;
        var chunk := ChunkSize(inode, size - bytesRead, pos);
        if chunk <= 0 {
          break;
        }
        var ofs := pos % SECTOR_SIZE;
        if !(ofs == 0 && chunk == SECTOR_SIZE) && !memory {
          break;
        }
        ChunkIsSlice(sectors, inode, pos, chunk);
        var part := Part(sectors[ByteToSector(inode, pos)], ofs, chunk);
        SlicesJoin(sectors, Base(inode) + offset, buffer[..bytesRead], part);
        CopyInto(buffer, bytesRead, part);
        bytesRead := bytesRead + chunk;
      }
    }

    /**
     inode_write_at.  Exactly the bytes the request covers are written; every other byte of
     the device stays, also those of the same sectors and those past the end of the file.
     */
    method WriteAt(inode: Inode, buffer: seq<byte>, size: int, offset: nat, memory: bool) returns (bytesWritten: nat)
      requires OnDevice(inode, |sectors|) && size <= |buffer|
      modifies this
      ensures bytesWritten <= |buffer| && bytesWritten <= Covered(inode, size, offset)
      ensures inode.denyWriteCnt > 0 ==> bytesWritten == 0
      ensures memory && inode.denyWriteCnt == 0 ==> bytesWritten == Covered(inode, size, offset)
      ensures Written(old(sectors), sectors, Base(inode) + offset, buffer[..bytesWritten])
    {
      hide Written, Base, SectorsFor, Part, Patched, ChunkSize;
      bytesWritten := 0;
      WrittenNothing(sectors, Base(inode) + offset);
      assert buffer[..0] == [];
      if inode.denyWriteCnt > 0 {
        return;
      }
      while bytesWritten < size
        invariant bytesWritten <= Covered(inode, size, offset) && bytesWritten <= |buffer|
        invariant |sectors| == old(|sectors|)
        invariant Written(old(sectors), sectors, Base(inode) + offset, buffer[..bytesWritten])
        decreases size - bytesWritten
      {
        var pos := offset + bytesWritten;
        var chunk := ChunkSize(inode, size - bytesWritten, pos);
        if chunk <= 0 {
          break;
        }
        var ofs, next := pos % SECTOR_SIZE, buffer[bytesWritten..bytesWritten + chunk];
        SectorExists(inode, |sectors|, pos);
        var idx := ByteToSector(inode, pos);
        ChunkWrites(sectors, inode, pos, next);
        WrittenTwice(old(sectors), sectors, sectors[idx := Patched(sectors[idx], ofs, next)],
          Base(inode) + offset, buffer[..bytesWritten], next);
        assert buffer[..bytesWritten] + next == buffer[..bytesWritten + chunk];
        if ofs == 0 && chunk == SECTOR_SIZE {
          FullPatch(sectors[idx], next);
          sectors := sectors[idx := next];
        } else {
          if !memory {
            break;
          }
          PartialChunk(inode, size - bytesWritten, pos);
          var bounce := if ofs > 0 || chunk < SECTOR_SIZE - ofs then sectors[idx] else Zeros();
          sectors := sectors[idx := Patched(bounce, ofs, next)];
        }
        bytesWritten := bytesWritten + chunk;
      }
    }
  }

  /** A sector of zeros. */
  function Zeros(): Sector { seq(SECTOR_SIZE, _ => 0) }

  lemma SliceEmpty(sectors: seq<Sector>, a: nat)
    ensures IsSlice(sectors, a, [])
  {
  }

  lemma WrittenNothing(sectors: seq<Sector>, a: nat)
    ensures Written(sectors, sectors, a, [])
  {
  }

  lemma FullPatch(s: Sector, bytes: seq<byte>)
    requires |bytes| == SECTOR_SIZE
    ensures Patched(s, 0, bytes) == bytes
  {
  }

  /**
   A chunk that is not a whole sector leaves part of its sector to keep, so the sector is
   always read first and the zero-filled bounce buffer is never the one written.
   */
  lemma PartialChunk(inode: Inode, size: nat, pos: nat)
    requires !(pos % SECTOR_SIZE == 0 && ChunkSize(inode, size, pos) == SECTOR_SIZE)
    ensures pos % SECTOR_SIZE > 0 || ChunkSize(inode, size, pos) < SECTOR_SIZE - pos % SECTOR_SIZE
  {
  }

  lemma ChunkWrites(sectors: seq<Sector>, inode: Inode, pos: nat, bytes: seq<byte>)
    requires pos < inode.length && pos % SECTOR_SIZE + |bytes| <= SECTOR_SIZE
    requires ByteToSector(inode, pos) < |sectors|
    ensures var idx := ByteToSector(inode, pos);
      Written(sectors, sectors[idx := Patched(sectors[idx], pos % SECTOR_SIZE, bytes)], Base(inode) + pos, bytes)
  {
    PatchWrites(sectors, ByteToSector(inode, pos), pos % SECTOR_SIZE, bytes);
    assert Base(inode) + pos == SECTOR_SIZE * ByteToSector(inode, pos) + pos % SECTOR_SIZE;
  }

  /** What was written is what a read of the same range returns. */
  lemma ReadsBack(before: seq<Sector>, after: seq<Sector>, a: nat, bytes: seq<byte>, read: seq<byte>)
    requires Written(before, after, a, bytes) && IsSlice(after, a, read) && |read| == |bytes|
    ensures read == bytes
  {
    forall i | 0 <= i < |bytes| ensures read[i] == bytes[i] {
      assert ByteAt(after, a + i) == bytes[a + i - a];
    }
  }

  /** Two files whose sector runs do not meet. */
  predicate Apart(f: Inode, g: Inode) {
    f.start + SectorsFor(f.length) <= g.start || g.start + SectorsFor(g.length) <= f.start
  }

  /** A write to one file leaves every range of a file elsewhere on the device as it was. */
  lemma OtherFileKept(before: seq<Sector>, after: seq<Sector>, f: Inode, g: Inode, offset: nat, bytes: seq<byte>,
                      at: nat, content: seq<byte>)
    requires Written(before, after, Base(f) + offset, bytes) && offset + |bytes| <= f.length
    requires Apart(f, g) && at + |content| <= g.length
    ensures IsSlice(before, Base(g) + at, content) <==> IsSlice(after, Base(g) + at, content)
  {
    forall x | Base(g) + at <= x < Base(g) + at + |content| && x < SECTOR_SIZE * |before|
      ensures ByteAt(before, x) == ByteAt(after, x)
    {
      assert !(Base(f) + offset <= x < Base(f) + offset + |bytes|);
    }
    SliceKept(before, after, Base(g) + at, content);
    SliceKept(after, before, Base(g) + at, content);
  }

  lemma SliceKept(s: seq<Sector>, t: seq<Sector>, a: nat, content: seq<byte>)
    requires |s| == |t|
    requires forall x :: a <= x < a + |content| && x < SECTOR_SIZE * |s| ==> ByteAt(s, x) == ByteAt(t, x)
    ensures IsSlice(s, a, content) ==> IsSlice(t, a, content)
  {
    if IsSlice(s, a, content) {
      forall i | 0 <= i < |content| ensures ByteIs(t, a + i, content[i]) {
        assert ByteIs(s, a + i, content[i]);
      }
    }
  }
}
