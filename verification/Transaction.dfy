/** How many blocks one operation can put into the log: the bound behind filewrite's chunk size. */
module Transaction {
  import opened Prelude
  import opened Blocks
  import opened Bitmap
  import opened FsSpec
  import opened FileContents

  /** The most filewrite hands to one writei. */
  const CHUNK: nat := ((MAXOPBLOCKS - 1 - 1 - 2) / 2) * 512

  lemma UnionSize<T>(a: set<T>, b: set<T>)
    ensures |a + b| <= |a| + |b|
  {
    assert a + b == a + (b - a);
    SubsetSize(b - a, b);
  }

  lemma {:induction false} BitmapSize(sb: Super, blocks: set<nat>)
    ensures |BitmapOf(sb, blocks)| <= |blocks|
  {
    if blocks != {} {
      var b :| b in blocks;
      BitmapSize(sb, blocks - {b});
      assert BitmapOf(sb, blocks) == BitmapOf(sb, blocks - {b}) + {BBlock(sb, b)};
    }
  }

  /** A slot names at most one block. */
  lemma {:induction false} BlocksAtSize(sb: Super, a: Snapshot, i: nat, slots: set<nat>)
    requires Sane(sb, a)
    ensures |BlocksAt(a.owner, i, slots)| <= |slots|
  {
    hide SlotVal, Named;
    if slots == {} {
      BlocksAtNone(a.owner, i);
    } else {
      var s :| s in slots;
      BlocksAtSize(sb, a, i, slots - {s});
      var at := BlocksAt(a.owner, i, {s});
      assert BlocksAt(a.owner, i, slots) == BlocksAt(a.owner, i, slots - {s}) + at;
      forall b, c | b in at && c in at ensures b == c {
        OwnerFacts(a.img, sb, a.inodes, a.owner, b);
        OwnerFacts(a.img, sb, a.inodes, a.owner, c);
      }
      AtMostOne(at);
      UnionSize(BlocksAt(a.owner, i, slots - {s}), at);
    }
  }

  lemma AtMostOne<T>(s: set<T>)
    requires forall x, y :: x in s && y in s ==> x == y
    ensures |s| <= 1
  {
    if s != {} {
      var x :| x in s;
      assert s == {x};
    }
  }

  lemma RangeSlotsNext(lo: nat, hi: nat)
    requires lo <= hi <= MAXFILE
    ensures lo == hi ==> RangeSlots(lo, hi) <= {NDIRECT}
    ensures lo < hi ==> RangeSlots(lo, hi) <= RangeSlots(lo, hi - 1) + {SlotOf(hi - 1)}
  {
  }

  lemma {:induction false} RangeSlotsSize(lo: nat, hi: nat)
    requires lo <= hi <= MAXFILE
    ensures |RangeSlots(lo, hi)| <= hi - lo + 1
  {
    hide RangeSlots;
    RangeSlotsNext(lo, hi);
    if lo == hi {
      SubsetSize(RangeSlots(lo, hi), {NDIRECT});
    } else {
      RangeSlotsSize(lo, hi - 1);
      SubsetSize(RangeSlots(lo, hi), RangeSlots(lo, hi - 1) + {SlotOf(hi - 1)});
    }
  }

  /** A chunk at any offset touches at most four blocks of the file, and the indirect block. */
  lemma ChunkSpans(off: nat, n: nat)
    requires n <= CHUNK && off + n <= MAXFILE * BSIZE
    ensures BlocksFor(off + n) - off / BSIZE <= 4 && |RangeSlots(off / BSIZE, BlocksFor(off + n))| <= 5
  {
    hide RangeSlots;
    var lo, hi := off / BSIZE, BlocksFor(off + n);
    RangeSlotsSize(lo, hi);
  }

  /** New blocks are in slots that named nothing. */
  lemma NewBlocksAt(sb: Super, a: Snapshot, c: Snapshot, i: nat, nb: nat, lo: nat, hi: nat)
    requires Sane(sb, a) && Sane(sb, c) && i < |a.inodes| == |c.inodes| && Dense(a.img, a.inodes[i], nb) && lo <= hi
    requires Grows(a.owner, c.owner, i, RangeSlots(lo, hi))
    ensures NewBlocks(a.owner, c.owner) <= BlocksAt(c.owner, i, RangeSlots(Max(lo, nb), Max(hi, nb)))
  {
    hide Named, Dense;
    LaidStart(sb, |a.img|);
    forall b | b in NewBlocks(a.owner, c.owner)
      ensures b in BlocksAt(c.owner, i, RangeSlots(Max(lo, nb), Max(hi, nb)))
    {
      var s := c.owner[b].1;
      OwnerFacts(c.img, sb, c.inodes, c.owner, b);
      SlotFacts(a.img, sb, a.inodes, a.owner, i, s);
      if s != NDIRECT {
        DenseFacts(a.img, a.inodes[i], nb, if s < NDIRECT then s else s - 1);
        GrowsKeepsSlot(a.img, c.img, sb, a.inodes, c.inodes, a.owner, c.owner, i, RangeSlots(lo, hi), i, s);
      }
    }
  }

  /** An unaligned chunk touches four blocks, but the first of them exists already; so there are
      at most 4 data blocks, 1 indirect block, 1 inode block and 4 bitmap blocks. */
  lemma TransactionFits(sb: Super, a: Snapshot, c: Snapshot, i: nat, off: nat, n: nat)
    requires Sane(sb, a) && Sane(sb, c) && i < |a.inodes| == |c.inodes| && LogsOnly(sb, a, c, i, off, n)
             && a.logged == {}
    requires NoHoles(a.img, a.inodes[i]) && off <= a.inodes[i].size && off + n <= MAXFILE * BSIZE && n <= CHUNK
    ensures |c.logged| <= MAXOPBLOCKS
  {
    hide Named, Dense, RangeSlots, BlocksAt, BitmapOf, NewBlocks, Grows;
    var nb, lo, hi := BlocksFor(a.inodes[i].size), off / BSIZE, BlocksFor(off + n);
    var added, data := NewBlocks(a.owner, c.owner), BlocksAt(c.owner, i, RangeSlots(lo, hi));
    var addedAt := BlocksAt(c.owner, i, RangeSlots(Max(lo, nb), Max(hi, nb)));
    NewBlocksAt(sb, a, c, i, nb, lo, hi);
    SubsetSize(added, addedAt);
    BlocksAtSize(sb, c, i, RangeSlots(Max(lo, nb), Max(hi, nb)));
    RangeSlotsSize(Max(lo, nb), Max(hi, nb));
    BlocksAtSize(sb, c, i, RangeSlots(lo, hi));
    ChunkSpans(off, n);
    BitmapSize(sb, added);
    var bound := BitmapOf(sb, added) + data + {IBlock(sb, i)};
    UnionSize(BitmapOf(sb, added), data);
    UnionSize(BitmapOf(sb, added) + data, {IBlock(sb, i)});
    SubsetSize(c.logged, bound);
  }

  lemma {:induction false} IntervalSize(s: set<nat>, lo: nat, hi: nat)
    requires lo <= hi && forall x :: x in s ==> lo <= x < hi
    ensures |s| <= hi - lo
  {
    if lo == hi {
      assert s == {};
    } else {
      IntervalSize(s - {hi - 1}, lo, hi - 1);
    }
  }

  /** What itrunc logs stays within MAXOPBLOCKS exactly if the file's blocks have fewer than MAXOPBLOCKS bitmap
      blocks, and so for every file of a disk whose bitmap has fewer. mkfs makes one. */
  lemma TruncationFits(sb: Super, a: Snapshot, i: nat)
    requires Sane(sb, a) && i < |a.inodes| <= sb.ninodes
    ensures var bitmap := BitmapOf(sb, BlocksOf(a.owner, i));
            |bitmap + {IBlock(sb, i)}| <= MAXOPBLOCKS <==> |bitmap| < MAXOPBLOCKS
    ensures sb.size <= (MAXOPBLOCKS - 1) * BPB ==> |BitmapOf(sb, BlocksOf(a.owner, i))| < MAXOPBLOCKS
  {
    hide Named, MarksAre, SlotVal;
    var bitmap := BitmapOf(sb, BlocksOf(a.owner, i));
    forall x | x in bitmap
      ensures x >= sb.bmapstart && (sb.size <= (MAXOPBLOCKS - 1) * BPB ==> x < sb.bmapstart + MAXOPBLOCKS - 1)
    {
      var b :| b in BlocksOf(a.owner, i) && x == BBlock(sb, b);
      OwnerFacts(a.img, sb, a.inodes, a.owner, b);
    }
    assert IBlock(sb, i) <= IBlock(sb, sb.ninodes);
    assert IBlock(sb, i) !in bitmap;
    if sb.size <= (MAXOPBLOCKS - 1) * BPB {
      IntervalSize(bitmap, sb.bmapstart, sb.bmapstart + MAXOPBLOCKS - 1);
    }
  }

  // ----- Operations -----

  /** A state between operations: the block map is right, every inode is stored and no file has
      a hole. */
  ghost predicate Kept(sb: Super, a: Snapshot)
  {
    && Sane(sb, a) && |a.inodes| == sb.ninodes && AllStored(a.img, sb, a.inodes)
    && forall j :: 0 <= j < |a.inodes| ==> NoHoles(a.img, a.inodes[j])
  }

  /** One operation: it changes only blocks that it logs, at most MAXOPBLOCKS of them, all of them
      behind the log area. */
  ghost predicate IsOperation(sb: Super, a: Snapshot, c: Snapshot)
  {
    && Kept(sb, a) && Kept(sb, c) && |c.img| == |a.img| && |c.logged| <= MAXOPBLOCKS
    && (forall b :: 0 <= b < |a.img| && c.img[b] != a.img[b] ==> b in c.logged)
    && (forall b :: b in c.logged ==> sb.inodestart <= b < |c.img|)
  }

  lemma LogsHome(sb: Super, a: Snapshot, c: Snapshot, i: nat, off: nat, n: nat)
    requires Sane(sb, c) && i < |c.inodes| == sb.ninodes && LogsOnly(sb, a, c, i, off, n) && a.logged == {}
    ensures forall b :: b in c.logged ==> sb.inodestart <= b < |c.img|
  {
    hide Named, Grows, RangeSlots;
    forall b | b in c.owner ensures DataStart(sb) <= b < sb.size {
      OwnerFacts(c.img, sb, c.inodes, c.owner, b);
    }
  }

  /** The file as it is when data has been written at off; a write past the end writes nothing. */
  function Progress(s: seq<Byte>, off: nat, data: seq<Byte>): seq<Byte> {
    if off <= |s| then Written(s, off, data) else s
  }

  /** From a to c, data has been written to file i at off, and no other file has changed. */
  ghost predicate Reached(a: Snapshot, c: Snapshot, i: nat, off: nat, data: seq<Byte>)
  {
    && i < |a.inodes| == |c.inodes|
    && Contents(c.img, c.inodes[i]) == Progress(Contents(a.img, a.inodes[i]), off, data)
    && forall j :: 0 <= j < |a.inodes| && j != i ==> Contents(c.img, c.inodes[j]) == Contents(a.img, a.inodes[j])
  }

  lemma ReachedNothing(a: Snapshot, i: nat, off: nat)
    requires i < |a.inodes|
    ensures Reached(a, a, i, off, [])
  {
    hide Contents;
    var s := Contents(a.img, a.inodes[i]);
    if off <= |s| {
      assert Written(s, off, []) == s;
    }
  }

  lemma ReachedMore(a: Snapshot, b: Snapshot, c: Snapshot, i: nat, off: nat, d1: seq<Byte>, d2: seq<Byte>)
    requires Reached(a, b, i, off, d1) && i < |c.inodes| == |b.inodes|
    requires d1 != [] ==> off <= |Contents(a.img, a.inodes[i])|
    requires off + |d1| <= |Contents(b.img, b.inodes[i])|
    requires Contents(c.img, c.inodes[i]) == Written(Contents(b.img, b.inodes[i]), off + |d1|, d2)
    requires forall j :: 0 <= j < |b.inodes| && j != i ==> Contents(c.img, c.inodes[j]) == Contents(b.img, b.inodes[j])
    ensures Reached(a, c, i, off, d1 + d2) && off + |d1 + d2| <= |Contents(c.img, c.inodes[i])|
  {
    hide Contents;
    WrittenTwice(Contents(a.img, a.inodes[i]), off, d1, d2);
  }

  lemma ReachedStays(a: Snapshot, b: Snapshot, c: Snapshot, i: nat, off: nat, data: seq<Byte>)
    requires Reached(a, b, i, off, data) && |c.inodes| == |b.inodes|
    requires forall j :: 0 <= j < |b.inodes| ==> Contents(c.img, c.inodes[j]) == Contents(b.img, b.inodes[j])
    ensures Reached(a, c, i, off, data)
  {
    hide Contents;
  }

  /** The bytes of t whole chunks. */
  function Bytes(t: nat): nat {
    t * CHUNK
  }

  lemma BytesMore(t: nat)
    ensures Bytes(0) == 0 && Bytes(t + 1) == Bytes(t) + CHUNK
  {
  }

  lemma {:induction false} BytesGrow(t: nat, u: nat)
    requires t <= u
    ensures Bytes(t) <= Bytes(u)
  {
    hide Bytes;
    if t < u {
      BytesGrow(t, u - 1);
      BytesMore(u - 1);
    }
  }

  /** How much of n bytes filewrite writes at off: all of it, or the chunks before the first that
      does not fit into a file. */
  function Fitting(off: nat, n: nat): (m: nat)
    ensures m <= n
  {
    if off + n <= MAXFILE * BSIZE then n
    else if off > MAXFILE * BSIZE then 0
    else (MAXFILE * BSIZE - off) / CHUNK * CHUNK
  }

  lemma FitsWhole(off: nat, n: nat)
    ensures off + n <= MAXFILE * BSIZE ==> Fitting(off, n) == n
  {
  }

  /** The first chunk that does not fit comes after the bytes that do. */
  lemma StopIsFitting(off: nat, n: nat, t: nat, m: nat)
    requires Bytes(t) < n && m == Min(CHUNK, n - Bytes(t))
    requires off + Bytes(t) <= MAXFILE * BSIZE < off + Bytes(t) + m
    ensures Bytes(t) == Fitting(off, n)
  {
    var room := MAXFILE * BSIZE - off;
    assert CHUNK == 1536;
    assert t * 1536 <= room < t * 1536 + 1536;
    assert room / 1536 == t;
  }

  /** The step from snapshot t to the next is an operation. */
  ghost predicate OperationAt(sb: Super, snaps: seq<Snapshot>, t: nat)
  {
    t + 1 < |snaps| && IsOperation(sb, snaps[t], snaps[t + 1])
  }

  /** Snapshot t has whole files, with t chunks, as far as the write gets, written to file ino. */
  ghost predicate ChunkAt(sb: Super, snaps: seq<Snapshot>, ino: nat, off: nat, src: seq<Byte>, len: nat, t: nat)
  {
    && t < |snaps| && len <= |src| && Kept(sb, snaps[t])
    && Reached(snaps[0], snaps[t], ino, off, src[..Min(Bytes(t), len)])
  }

  /** What filewrite promises of the states between its operations. */
  ghost predicate Chunked(sb: Super, snaps: seq<Snapshot>, ino: nat, off: nat, src: seq<Byte>, len: nat)
  {
    && snaps != [] && len <= |src|
    && (forall t :: 0 <= t < |snaps| - 1 ==> OperationAt(sb, snaps, t))
    && (forall t :: 0 <= t < |snaps| ==> ChunkAt(sb, snaps, ino, off, src, len, t))
  }

  lemma ChunkedNone(sb: Super, a: Snapshot, ino: nat, off: nat, src: seq<Byte>)
    requires Kept(sb, a) && ino < |a.inodes|
    ensures Chunked(sb, [a], ino, off, src, 0)
  {
    hide Kept, Reached;
    ReachedNothing(a, ino, off);
  }

  /** One more operation, which writes m bytes of src after the first i. */
  lemma ChunkedMore(sb: Super, snaps: seq<Snapshot>, c: Snapshot, ino: nat, off: nat, src: seq<Byte>, i: nat, m: nat)
    requires Chunked(sb, snaps, ino, off, src, i) && i == Bytes(|snaps| - 1) && m <= CHUNK && i + m <= |src|
    requires IsOperation(sb, snaps[|snaps| - 1], c) && Reached(snaps[0], c, ino, off, src[..i + m])
    ensures Chunked(sb, snaps + [c], ino, off, src, i + m)
  {
    hide Kept, Reached, IsOperation, Bytes;
    var longer, len := snaps + [c], i + m;
    forall t | 0 <= t < |longer| - 1 ensures OperationAt(sb, longer, t) {
      assert t < |snaps| - 1 ==> OperationAt(sb, snaps, t);
    }
    BytesMore(|snaps| - 1);
    forall t | 0 <= t < |longer| ensures ChunkAt(sb, longer, ino, off, src, len, t) {
      if t < |snaps| {
        assert ChunkAt(sb, snaps, ino, off, src, i, t);
        BytesGrow(t, |snaps| - 1);
      } else {
        OperationEnds(sb, snaps[|snaps| - 1], c);
      }
    }
  }

  lemma OperationEnds(sb: Super, a: Snapshot, c: Snapshot)
    requires IsOperation(sb, a, c)
    ensures Kept(sb, c)
  {
  }

  lemma ChunkFacts(sb: Super, snaps: seq<Snapshot>, ino: nat, off: nat, src: seq<Byte>, len: nat, t: nat)
    requires Chunked(sb, snaps, ino, off, src, len) && t < |snaps|
    ensures Kept(sb, snaps[t]) && Reached(snaps[0], snaps[t], ino, off, src[..Min(Bytes(t), len)])
  {
    hide Kept, Reached;
    assert ChunkAt(sb, snaps, ino, off, src, len, t);
  }
}
