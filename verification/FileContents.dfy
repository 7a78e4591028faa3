/** A file as a string of bytes: what the blocks that bmap finds say when they are read in order. */
module FileContents {
  import opened Prelude
  import opened Blocks
  import opened FsSpec
  import opened Inodes

  /** The disk block of block bn of the file, 0 for none. */
  function FileBlock(img: Image, ip: Inode, bn: nat): nat
    requires Shaped(ip, |img|) && bn < MAXFILE
  {
    SlotVal(img, ip, SlotOf(bn))
  }

  /** The first nb blocks of the file are allocated and no others, and the indirect block
      exactly if one of them needs it. */
  ghost predicate Dense(img: Image, ip: Inode, nb: nat)
  {
    && Shaped(ip, |img|) && nb <= MAXFILE
    && (forall bn :: 0 <= bn < MAXFILE ==> (FileBlock(img, ip, bn) != 0 <==> bn < nb))
    && (ip.addrs[NDIRECT] != 0 <==> nb > NDIRECT)
  }

  lemma DenseFacts(img: Image, ip: Inode, nb: nat, bn: nat)
    requires Dense(img, ip, nb) && bn < MAXFILE
    ensures Shaped(ip, |img|) && (SlotVal(img, ip, SlotOf(bn)) != 0 <==> bn < nb)
  {
    assert FileBlock(img, ip, bn) != 0 <==> bn < nb;
  }

  function BlocksFor(n: nat): nat {
    (n + BSIZE - 1) / BSIZE
  }

  /** The file has a block for every byte and none to spare. */
  ghost predicate NoHoles(img: Image, ip: Inode)
  {
    ip.size <= MAXFILE * BSIZE && Dense(img, ip, BlocksFor(ip.size))
  }

  function ByteAt(img: Image, ip: Inode, x: nat): Byte {
    if |ip.addrs| == NDIRECT + 1 && ip.addrs[NDIRECT] < |img| && x / BSIZE < MAXFILE
      && FileBlock(img, ip, x / BSIZE) < |img|
    then img[FileBlock(img, ip, x / BSIZE)][x % BSIZE] else 0
  }

  /** Byte x lies in an allocated block. */
  ghost predicate HasByte(img: Image, ip: Inode, x: nat)
  {
    Shaped(ip, |img|) && x / BSIZE < MAXFILE && FileBlock(img, ip, x / BSIZE) != 0
  }

  function Contents(img: Image, ip: Inode): (s: seq<Byte>)
    ensures |s| == ip.size && forall x :: 0 <= x < |s| ==> s[x] == ByteAt(img, ip, x)
  {
    seq(ip.size, x requires 0 <= x => ByteAt(img, ip, x))
  }

  /** Where the bytes of a file are: its first 12 blocks are in its addresses, and block 12 + i in word i of the
      block the last address names. */
  lemma FileBytes(img: Image, ip: Inode, x: nat)
    requires NoHoles(img, ip) && x < ip.size
    ensures var bn := x / 512;
            && (bn >= 12 ==> bn - 12 < 128 && ip.addrs[12] < |img|)
            && var blk := if bn < 12 then ip.addrs[bn] else GetWord(img[ip.addrs[12]], bn - 12);
               blk != 0 && (blk < |img| ==> Contents(img, ip)[x] == img[blk][x % 512])
  {
    hide GetWord;
    DenseFacts(img, ip, BlocksFor(ip.size), x / BSIZE);
  }

  /** A state whose block map is right. */
  ghost predicate Sane(sb: Super, a: Snapshot)
  {
    Laid(sb, |a.img|) && Named(a.img, sb, a.inodes, a.owner)
  }

  /** The inode blocks hold these inodes. */
  ghost predicate AllStored(img: Image, sb: Super, inodes: seq<Inode>)
  {
    forall j :: 0 <= j < |inodes| ==> IBlock(sb, j) < |img| && Stored(img, sb, j) == inodes[j]
  }

  lemma SlotOfIsNotIndirect(bn: nat)
    ensures SlotOf(bn) != NDIRECT && (bn < MAXFILE ==> SlotOf(bn) < SLOTS)
  {
  }

  /** bmap keeps the bytes of every file. */
  lemma MapKeepsByte(sb: Super, a: Snapshot, b: Snapshot, i: nat, slots: set<nat>, j: nat, x: nat)
    requires Sane(sb, a) && Sane(sb, b) && Mapped(sb, a, b, i, slots) && j < |a.inodes| && x / BSIZE < MAXFILE
    requires Shaped(a.inodes[j], |a.img|) && FileBlock(a.img, a.inodes[j], x / BSIZE) != 0
    ensures ByteAt(b.img, b.inodes[j], x) == ByteAt(a.img, a.inodes[j], x)
  {
    hide Named, SlotVal, Grows, NewBlocks, BitmapOf;
    var t := SlotOf(x / BSIZE);
    LaidStart(sb, |a.img|);
    SlotFacts(a.img, sb, a.inodes, a.owner, j, t);
    GrowsKeepsSlot(a.img, b.img, sb, a.inodes, b.inodes, a.owner, b.owner, i, slots, j, t);
  }

  lemma LaidStart(sb: Super, n: nat)
    requires Laid(sb, n)
    ensures 0 < DataStart(sb) && sb.size <= n
  {
  }

  /** ... and the files of other inodes, and makes the file denser by one block at most. */
  lemma MapKeepsDense(sb: Super, a: Snapshot, b: Snapshot, i: nat, bn: nat, addr: nat, nb: nat)
    requires Sane(sb, a) && Sane(sb, b) && bn < MAXFILE && Mapped(sb, a, b, i, BmapSlots(bn))
    requires i < |a.inodes| && addr in b.owner && b.owner[addr] == (i, SlotOf(bn))
    requires Dense(a.img, a.inodes[i], nb) && bn <= nb
    ensures Dense(b.img, b.inodes[i], if bn < nb then nb else bn + 1)
  {
    hide Named, Grows, NewBlocks, BitmapOf, KeepsData;
    LaidStart(sb, |a.img|);
    OwnerFacts(b.img, sb, b.inodes, b.owner, addr);
    GrowsKeepsSlot(a.img, b.img, sb, a.inodes, b.inodes, a.owner, b.owner, i, BmapSlots(bn), i, NDIRECT);
    forall k | 0 <= k < MAXFILE
      ensures FileBlock(b.img, b.inodes[i], k) != 0 <==> k < if bn < nb then nb else bn + 1
    {
      hide SlotVal;
      GrowsKeepsSlot(a.img, b.img, sb, a.inodes, b.inodes, a.owner, b.owner, i, BmapSlots(bn), i, SlotOf(k));
      assert FileBlock(a.img, a.inodes[i], k) != 0 <==> k < nb;
    }
  }

  lemma MapKeepsOthers(sb: Super, a: Snapshot, b: Snapshot, i: nat, slots: set<nat>, j: nat)
    requires Sane(sb, a) && Sane(sb, b) && Mapped(sb, a, b, i, slots)
    requires j < |a.inodes| && j != i && NoHoles(a.img, a.inodes[j])
    ensures b.inodes[j] == a.inodes[j] && NoHoles(b.img, b.inodes[j])
  {
    hide Named, Grows, NewBlocks, BitmapOf, KeepsData, SlotVal;
    LaidStart(sb, |a.img|);
    GrowsKeepsSlot(a.img, b.img, sb, a.inodes, b.inodes, a.owner, b.owner, i, slots, j, NDIRECT);
    forall k | 0 <= k < MAXFILE
      ensures FileBlock(b.img, b.inodes[j], k) != 0 <==> k < BlocksFor(b.inodes[j].size)
    {
      GrowsKeepsSlot(a.img, b.img, sb, a.inodes, b.inodes, a.owner, b.owner, i, slots, j, SlotOf(k));
      assert FileBlock(a.img, a.inodes[j], k) != 0 <==> k < BlocksFor(a.inodes[j].size);
    }
  }

  // ----- Writing into a block -----

  /** memmove(bp->data + o, data, |data|) */
  function Splice(b: Block, o: nat, data: seq<Byte>): (r: Block)
    requires o + |data| <= BSIZE
    ensures forall k :: 0 <= k < BSIZE ==> r[k] == if o <= k < o + |data| then data[k - o] else b[k]
  {
    b[..o] + data + b[o + |data|..]
  }

  /** A write to a block of a file changes no slot. */
  lemma WriteKeepsFileBlock(sb: Super, a: Snapshot, addr: nat, nb: Block, i: nat, bn: nat, j: nat, s: nat)
    requires Sane(sb, a) && addr in a.owner && a.owner[addr] == (i, SlotOf(bn)) && j < |a.inodes| && s < SLOTS
    ensures addr < |a.img| && Shaped(a.inodes[j], |a.img|)
    ensures SlotVal(a.img[addr := nb], a.inodes[j], s) == SlotVal(a.img, a.inodes[j], s)
  {
    hide Named, SlotVal;
    OwnerFacts(a.img, sb, a.inodes, a.owner, addr);
    SlotOfIsNotIndirect(bn);
    WriteKeepsSlot(a.img, sb, a.inodes, a.owner, addr, nb, j, s);
  }

  /** It changes one file, in one block. */
  lemma WriteChangesByte(sb: Super, a: Snapshot, addr: nat, nb: Block, i: nat, bn: nat, j: nat, x: nat)
    requires Sane(sb, a) && addr in a.owner && a.owner[addr] == (i, SlotOf(bn)) && bn < MAXFILE
    requires j < |a.inodes| && x / BSIZE < MAXFILE
    requires Shaped(a.inodes[j], |a.img|) && FileBlock(a.img, a.inodes[j], x / BSIZE) != 0
    ensures addr < |a.img|
    ensures ByteAt(a.img[addr := nb], a.inodes[j], x) ==
            if j == i && x / BSIZE == bn then nb[x % BSIZE] else ByteAt(a.img, a.inodes[j], x)
  {
    hide Named, SlotVal;
    WriteKeepsFileBlock(sb, a, addr, nb, i, bn, j, SlotOf(x / BSIZE));
    OwnerFacts(a.img, sb, a.inodes, a.owner, addr);
    SlotFacts(a.img, sb, a.inodes, a.owner, j, SlotOf(x / BSIZE));
  }

  lemma WriteKeepsDense(sb: Super, a: Snapshot, addr: nat, nb: Block, i: nat, bn: nat, j: nat, n: nat)
    requires Sane(sb, a) && addr in a.owner && a.owner[addr] == (i, SlotOf(bn)) && j < |a.inodes|
    requires Dense(a.img, a.inodes[j], n)
    ensures addr < |a.img| && Dense(a.img[addr := nb], a.inodes[j], n)
  {
    hide Named, SlotVal;
    WriteKeepsFileBlock(sb, a, addr, nb, i, bn, j, NDIRECT);
    var out := a.img[addr := nb];
    forall k | 0 <= k < MAXFILE
      ensures FileBlock(out, a.inodes[j], k) != 0 <==> k < n
    {
      WriteKeepsFileBlock(sb, a, addr, nb, i, bn, j, SlotOf(k));
      assert FileBlock(a.img, a.inodes[j], k) != 0 <==> k < n;
    }
  }

  /** Between a and c the bytes of file i from off on have become data, and nothing else about
      any file has changed: no size, no other byte, and no file has got a hole. */
  ghost predicate Wrote(a: Snapshot, c: Snapshot, i: nat, off: nat, data: seq<Byte>)
  {
    && i < |a.inodes| == |c.inodes|
    && c.inodes == a.inodes[i := c.inodes[i]] && c.inodes[i].size == a.inodes[i].size
    && (forall j :: 0 <= j < |a.inodes| && j != i && NoHoles(a.img, a.inodes[j]) ==> NoHoles(c.img, c.inodes[j]))
    && (forall j, x: nat :: 0 <= j < |a.inodes| && HasByte(a.img, a.inodes[j], x) ==> HasByte(c.img, c.inodes[j], x))
    && (forall x: nat :: off <= x < off + |data| ==>
          HasByte(c.img, c.inodes[i], x) && ByteAt(c.img, c.inodes[i], x) == data[x - off])
    && (forall j, x: nat ::
          0 <= j < |a.inodes| && HasByte(a.img, a.inodes[j], x) && !(j == i && off <= x < off + |data|) ==>
            ByteAt(c.img, c.inodes[j], x) == ByteAt(a.img, a.inodes[j], x))
  }

  lemma WroteNothing(a: Snapshot, i: nat, off: nat)
    requires i < |a.inodes|
    ensures Wrote(a, a, i, off, [])
  {
  }

  lemma WroteTransitive(a: Snapshot, b: Snapshot, c: Snapshot, i: nat, off: nat, d1: seq<Byte>, d2: seq<Byte>)
    requires Wrote(a, b, i, off, d1) && Wrote(b, c, i, off + |d1|, d2)
    ensures Wrote(a, c, i, off, d1 + d2)
  {
    hide NoHoles, HasByte, ByteAt;
  }

  /** bmap, then a write into the block it found. */
  lemma WroteBlock(sb: Super, a: Snapshot, b: Snapshot, c: Snapshot, i: nat, off: nat, data: seq<Byte>, addr: nat,
                   nb: nat)
    requires Sane(sb, a) && Sane(sb, b) && off / BSIZE < MAXFILE && off % BSIZE + |data| <= BSIZE
    requires Mapped(sb, a, b, i, BmapSlots(off / BSIZE)) && addr in b.owner && b.owner[addr] == (i, SlotOf(off / BSIZE))
    requires Dense(a.img, a.inodes[i], nb) && off / BSIZE <= nb && addr < |b.img|
    requires c.inodes == b.inodes && c.img == b.img[addr := Splice(b.img[addr], off % BSIZE, data)]
    ensures Wrote(a, c, i, off, data) && Dense(c.img, c.inodes[i], if off / BSIZE < nb then nb else off / BSIZE + 1)
  {
    hide Named, SlotVal, Dense, ByteAt, Splice, Grows, NewBlocks, BitmapOf, KeepsData, BmapSlots;
    var bn, nblock := off / BSIZE, Splice(b.img[addr], off % BSIZE, data);
    MapKeepsDense(sb, a, b, i, bn, addr, nb);
    WriteKeepsDense(sb, b, addr, nblock, i, bn, i, if bn < nb then nb else bn + 1);
    forall j | 0 <= j < |a.inodes| && j != i && NoHoles(a.img, a.inodes[j]) ensures NoHoles(c.img, c.inodes[j]) {
      MapKeepsOthers(sb, a, b, i, BmapSlots(bn), j);
      WriteKeepsDense(sb, b, addr, nblock, i, bn, j, BlocksFor(b.inodes[j].size));
    }
    forall j, x: nat | 0 <= j < |a.inodes| && HasByte(a.img, a.inodes[j], x)
      ensures HasByte(c.img, c.inodes[j], x)
      ensures !(j == i && off <= x < off + |data|) ==> ByteAt(c.img, c.inodes[j], x) == ByteAt(a.img, a.inodes[j], x)
    {
      OldByte(sb, a, b, c, i, off, data, addr, j, x);
    }
    forall x: nat | off <= x < off + |data|
      ensures HasByte(c.img, c.inodes[i], x) && ByteAt(c.img, c.inodes[i], x) == data[x - off]
    {
      NewByte(sb, b, c, i, off, data, addr, x);
    }
  }

  lemma OldByte(sb: Super, a: Snapshot, b: Snapshot, c: Snapshot, i: nat, off: nat, data: seq<Byte>, addr: nat, j: nat,
                x: nat)
    requires Sane(sb, a) && Sane(sb, b) && off / BSIZE < MAXFILE && off % BSIZE + |data| <= BSIZE
    requires Mapped(sb, a, b, i, BmapSlots(off / BSIZE)) && addr in b.owner && b.owner[addr] == (i, SlotOf(off / BSIZE))
    requires c.inodes == b.inodes && addr < |b.img| && c.img == b.img[addr := Splice(b.img[addr], off % BSIZE, data)]
    requires j < |a.inodes| && HasByte(a.img, a.inodes[j], x)
    ensures j < |c.inodes| && HasByte(c.img, c.inodes[j], x)
    ensures !(j == i && off <= x < off + |data|) ==> ByteAt(c.img, c.inodes[j], x) == ByteAt(a.img, a.inodes[j], x)
  {
    hide Named, SlotVal, Splice, Grows, NewBlocks, BitmapOf, KeepsData;
    var nblock := Splice(b.img[addr], off % BSIZE, data);
    LaidStart(sb, |a.img|);
    MapKeepsByte(sb, a, b, i, BmapSlots(off / BSIZE), j, x);
    GrowsKeepsSlot(a.img, b.img, sb, a.inodes, b.inodes, a.owner, b.owner, i, BmapSlots(off / BSIZE), j,
                   SlotOf(x / BSIZE));
    WriteKeepsFileBlock(sb, b, addr, nblock, i, off / BSIZE, j, SlotOf(x / BSIZE));
    WriteChangesByte(sb, b, addr, nblock, i, off / BSIZE, j, x);
    OwnerFacts(b.img, sb, b.inodes, b.owner, addr);
    SlotFacts(b.img, sb, b.inodes, b.owner, j, SlotOf(x / BSIZE));
  }

  lemma NewByte(sb: Super, b: Snapshot, c: Snapshot, i: nat, off: nat, data: seq<Byte>, addr: nat, x: nat)
    requires Sane(sb, b) && off / BSIZE < MAXFILE && off % BSIZE + |data| <= BSIZE
    requires addr in b.owner && b.owner[addr] == (i, SlotOf(off / BSIZE)) && i < |b.inodes|
    requires c.inodes == b.inodes && addr < |b.img| && c.img == b.img[addr := Splice(b.img[addr], off % BSIZE, data)]
    requires off <= x < off + |data|
    ensures HasByte(c.img, c.inodes[i], x) && ByteAt(c.img, c.inodes[i], x) == data[x - off]
  {
    hide Named, SlotVal, Splice, ByteAt;
    var nblock := Splice(b.img[addr], off % BSIZE, data);
    assert x / BSIZE == off / BSIZE && x % BSIZE == off % BSIZE + (x - off);
    OwnerFacts(b.img, sb, b.inodes, b.owner, addr);
    WriteKeepsFileBlock(sb, b, addr, nblock, i, off / BSIZE, i, SlotOf(x / BSIZE));
    WriteChangesByte(sb, b, addr, nblock, i, off / BSIZE, i, x);
  }

  // ----- What a write logs -----

  /** Between a and b only blocks in the given slots of inode i, and the bitmap blocks of those
      that are new, have been logged. */
  ghost predicate Touched(sb: Super, a: Snapshot, b: Snapshot, i: nat, slots: set<nat>)
  {
    && Grows(a.owner, b.owner, i, slots)
    && b.logged <= a.logged + BitmapOf(sb, NewBlocks(a.owner, b.owner)) + BlocksAt(b.owner, i, slots)
  }

  lemma TouchedTransitive(sb: Super, a: Snapshot, b: Snapshot, c: Snapshot, i: nat, s1: set<nat>, s2: set<nat>)
    requires Touched(sb, a, b, i, s1) && Touched(sb, b, c, i, s2)
    ensures Touched(sb, a, c, i, s1 + s2)
  {
    hide BitmapOf, NewBlocks;
    GrowsTransitive(a.owner, b.owner, c.owner, i, s1, s2);
    NewBlocksOfTwo(sb, a.owner, b.owner, c.owner, i, s1, s2);
    assert BlocksAt(b.owner, i, s1) <= BlocksAt(c.owner, i, s1 + s2);
  }

  lemma TouchedNot(sb: Super, a: Snapshot, i: nat, slots: set<nat>)
    ensures Touched(sb, a, a, i, slots)
  {
  }

  /** bmap and then log_write of the block it found. */
  lemma MappedTouches(sb: Super, a: Snapshot, b: Snapshot, c: Snapshot, i: nat, bn: nat, addr: nat)
    requires Mapped(sb, a, b, i, BmapSlots(bn)) && addr in b.owner && b.owner[addr] == (i, SlotOf(bn))
    requires c.owner == b.owner && c.logged == b.logged + {addr}
    ensures Touched(sb, a, c, i, BmapSlots(bn) + {NDIRECT})
  {
    hide BitmapOf, KeepsData;
    var slots := BmapSlots(bn) + {NDIRECT};
    assert Indirects(b.owner, i) <= BlocksAt(c.owner, i, slots);
    assert NewBlocks(a.owner, b.owner) <= BlocksAt(c.owner, i, slots);
    assert addr in BlocksAt(c.owner, i, slots);
  }

  // ----- Whole files -----

  /** What writing data at off makes of a file. */
  function Written(s: seq<Byte>, off: nat, data: seq<Byte>): (r: seq<Byte>)
    requires off <= |s|
  {
    s[..off] + data + (if off + |data| < |s| then s[off + |data|..] else [])
  }

  /** Two writes in a row are one. */
  lemma WrittenTwice(s: seq<Byte>, off: nat, d1: seq<Byte>, d2: seq<Byte>)
    requires off <= |s|
    ensures off + |d1| <= |Written(s, off, d1)|
    ensures Written(Written(s, off, d1), off + |d1|, d2) == Written(s, off, d1 + d2)
  {
    var w := Written(s, off, d1);
    assert w[..off + |d1|] == s[..off] + d1;
    if off + |d1| + |d2| < |w| {
      assert w[off + |d1| + |d2|..] == s[off + |d1| + |d2|..];
    }
  }

  lemma HasBytes(img: Image, ip: Inode, x: nat)
    requires NoHoles(img, ip) && x < ip.size
    ensures HasByte(img, ip, x)
  {
    hide SlotVal;
  }

  /** The file that was written. */
  lemma WroteContents(a: Snapshot, c: Snapshot, i: nat, off: nat, data: seq<Byte>, size: nat)
    requires Wrote(a, c, i, off, data) && NoHoles(a.img, a.inodes[i])
    requires off <= a.inodes[i].size && size == Max(a.inodes[i].size, off + |data|)
    ensures Contents(c.img, c.inodes[i].(size := size)) == Written(Contents(a.img, a.inodes[i]), off, data)
  {
    hide Contents, NoHoles, HasByte;
    var out, s := Contents(c.img, c.inodes[i].(size := size)), Contents(a.img, a.inodes[i]);
    forall x | 0 <= x < size ensures out[x] == Written(s, off, data)[x] {
      SizeIsNoMatter(c.img, c.inodes[i], size, x);
      if x < a.inodes[i].size {
        HasBytes(a.img, a.inodes[i], x);
      }
    }
  }

  lemma SizeIsNoMatter(img: Image, ip: Inode, size: nat, x: nat)
    ensures ByteAt(img, ip.(size := size), x) == ByteAt(img, ip, x)
  {
  }

  /** Every other file. */
  lemma WroteOthers(a: Snapshot, c: Snapshot, i: nat, off: nat, data: seq<Byte>, j: nat)
    requires Wrote(a, c, i, off, data) && j < |a.inodes| && j != i && NoHoles(a.img, a.inodes[j])
    ensures c.inodes[j] == a.inodes[j] && NoHoles(c.img, c.inodes[j])
            && Contents(c.img, c.inodes[j]) == Contents(a.img, a.inodes[j])
  {
    hide Contents, NoHoles, HasByte, ByteAt;
    var out, s := Contents(c.img, c.inodes[j]), Contents(a.img, a.inodes[j]);
    forall x | 0 <= x < |s| ensures out[x] == s[x] {
      HasBytes(a.img, a.inodes[j], x);
    }
  }

  /** The slots of blocks lo to hi - 1 of a file, and that of the indirect block. */
  predicate InRange(s: nat, lo: nat, hi: nat) {
    s == NDIRECT || lo <= (if s < NDIRECT then s else s - 1) < hi
  }

  ghost function RangeSlots(lo: nat, hi: nat): set<nat>
  {
    set s: nat | s < SLOTS && InRange(s, lo, hi)
  }

  /** The block after the last one written, when tot bytes have been written from off on. */
  function EndBlock(off: nat, tot: nat): nat {
    if tot == 0 then off / BSIZE else BlocksFor(off + tot)
  }

  /** The arithmetic of one turn of writei's loop, at byte cur of a file of the given size. */
  lemma TurnFacts(off: nat, tot: nat, n: nat, size: nat)
    requires tot < n && off <= size && off + n <= MAXFILE * BSIZE
    ensures var cur, m, nb := off + tot, Min(n - tot, BSIZE - (off + tot) % BSIZE), BlocksFor(size);
            && 0 < m <= n - tot && cur % BSIZE + m <= BSIZE && off / BSIZE <= cur / BSIZE < MAXFILE
            && cur / BSIZE <= Max(nb, BlocksFor(cur))
            && (if cur / BSIZE < Max(nb, BlocksFor(cur)) then Max(nb, BlocksFor(cur)) else cur / BSIZE + 1)
                 == Max(nb, BlocksFor(cur + m))
            && EndBlock(off, tot + m) == cur / BSIZE + 1
            && (EndBlock(off, tot) == cur / BSIZE || EndBlock(off, tot) == cur / BSIZE + 1)
            && (cur + m <= size ==> cur / BSIZE < Max(nb, BlocksFor(cur)))
  {
  }

  lemma RangeSlotsMore(lo: nat, bn: nat)
    requires lo <= bn < MAXFILE
    ensures RangeSlots(lo, bn) + (BmapSlots(bn) + {NDIRECT}) == RangeSlots(lo, bn + 1)
    ensures RangeSlots(lo, bn + 1) + (BmapSlots(bn) + {NDIRECT}) == RangeSlots(lo, bn + 1)
  {
  }

  /** A write of n bytes at off of file i logs only blocks of that range, the indirect block, the
      bitmap blocks of new blocks and the inode's block. */
  ghost predicate LogsOnly(sb: Super, a: Snapshot, c: Snapshot, i: nat, off: nat, n: nat)
  {
    && Grows(a.owner, c.owner, i, RangeSlots(off / BSIZE, BlocksFor(off + n)))
    && c.logged <= a.logged + BitmapOf(sb, NewBlocks(a.owner, c.owner))
                   + BlocksAt(c.owner, i, RangeSlots(off / BSIZE, BlocksFor(off + n))) + {IBlock(sb, i)}
  }

  /** The end of writei, where only the size changes. */
  lemma FinishWrite(sb: Super, a: Snapshot, b: Snapshot, c: Snapshot, i: nat, off: nat, data: seq<Byte>)
    requires Wrote(a, b, i, off, data) && off <= a.inodes[i].size && off + |data| <= MAXFILE * BSIZE
    requires forall j :: 0 <= j < |a.inodes| ==> NoHoles(a.img, a.inodes[j])
    requires Dense(b.img, b.inodes[i], Max(BlocksFor(a.inodes[i].size), BlocksFor(off + |data|)))
    requires c.img == b.img && c.inodes == b.inodes[i := b.inodes[i].(size := Max(a.inodes[i].size, off + |data|))]
    ensures Contents(c.img, c.inodes[i]) == Written(Contents(a.img, a.inodes[i]), off, data)
    ensures forall j :: 0 <= j < |c.inodes| && j != i ==>
              c.inodes[j] == a.inodes[j] && Contents(c.img, c.inodes[j]) == Contents(a.img, a.inodes[j])
    ensures forall j :: 0 <= j < |c.inodes| ==> NoHoles(c.img, c.inodes[j])
  {
    hide Contents, Written, Dense, ByteAt, HasByte;
    WroteContents(a, b, i, off, data, Max(a.inodes[i].size, off + |data|));
    DenseIgnoresSize(b.img, b.inodes[i], Max(BlocksFor(a.inodes[i].size), BlocksFor(off + |data|)), c.inodes[i].size);
    forall j | 0 <= j < |c.inodes| && j != i
      ensures c.inodes[j] == a.inodes[j] && Contents(c.img, c.inodes[j]) == Contents(a.img, a.inodes[j])
      ensures NoHoles(c.img, c.inodes[j])
    {
      WroteOthers(a, b, i, off, data, j);
    }
  }

  lemma DenseIgnoresSize(img: Image, ip: Inode, nb: nat, size: nat)
    requires Dense(img, ip, nb)
    ensures Dense(img, ip.(size := size), nb)
  {
    forall bn | 0 <= bn < MAXFILE ensures FileBlock(img, ip.(size := size), bn) != 0 <==> bn < nb {
      assert FileBlock(img, ip, bn) != 0 <==> bn < nb;
    }
  }

  lemma NamedIgnoresSize(img: Image, sb: Super, inodes: seq<Inode>, owner: map<nat, (nat, nat)>, i: nat, size: nat)
    requires Named(img, sb, inodes, owner) && i < |inodes|
    ensures Named(img, sb, inodes[i := inodes[i].(size := size)], owner)
  {
    var inodes' := inodes[i := inodes[i].(size := size)];
    forall b | b in owner ensures Names(img, inodes', b, owner[b]) {
      assert Names(img, inodes, b, owner[b]);
    }
    forall j, s | 0 <= j < |inodes'| && 0 <= s < SLOTS ensures Credited(img, inodes', owner, j, s) {
      assert Credited(img, inodes, owner, j, s);
    }
  }

  /** The bytes readi copies out of one block are those of the file. */
  lemma ReadBlock(sb: Super, a: Snapshot, i: nat, cur: nat, m: nat, addr: nat)
    requires Sane(sb, a) && i < |a.inodes| && NoHoles(a.img, a.inodes[i]) && cur + m <= a.inodes[i].size
    requires cur % BSIZE + m <= BSIZE && addr in a.owner && a.owner[addr] == (i, SlotOf(cur / BSIZE))
             && cur < a.inodes[i].size
    ensures addr < |a.img| && a.img[addr][cur % BSIZE..cur % BSIZE + m] == Contents(a.img, a.inodes[i])[cur..cur + m]
  {
    hide Named, SlotVal, Contents;
    OwnerFacts(a.img, sb, a.inodes, a.owner, addr);
    var lhs, rhs := a.img[addr][cur % BSIZE..cur % BSIZE + m], Contents(a.img, a.inodes[i])[cur..cur + m];
    forall k | 0 <= k < m ensures lhs[k] == rhs[k] {
      assert (cur + k) / BSIZE == cur / BSIZE && (cur + k) % BSIZE == cur % BSIZE + k;
      assert rhs[k] == ByteAt(a.img, a.inodes[i], cur + k);
    }
  }

  /** A file survives any change outside the data blocks. */
  lemma MetadataIsNoMatter(sb: Super, a: Snapshot, img: Image, j: nat)
    requires Sane(sb, a) && |img| == |a.img| && forall c :: DataStart(sb) <= c && 0 <= c < |img| ==> img[c] == a.img[c]
    requires j < |a.inodes| && NoHoles(a.img, a.inodes[j])
    ensures NoHoles(img, a.inodes[j]) && Contents(img, a.inodes[j]) == Contents(a.img, a.inodes[j])
  {
    hide Named, Contents;
    var ip := a.inodes[j];
    forall s | 0 <= s < SLOTS ensures SlotVal(img, ip, s) == SlotVal(a.img, ip, s) {
      SlotFacts(a.img, sb, a.inodes, a.owner, j, NDIRECT);
    }
    forall bn | 0 <= bn < MAXFILE ensures FileBlock(img, ip, bn) == FileBlock(a.img, ip, bn) {
    }
    forall x | 0 <= x < ip.size ensures Contents(img, ip)[x] == Contents(a.img, ip)[x] {
      hide SlotVal;
      HasBytes(a.img, ip, x);
      SlotFacts(a.img, sb, a.inodes, a.owner, j, SlotOf(x / BSIZE));
    }
  }

  lemma EmptyFile(img: Image)
    requires 0 < |img|
    ensures NoHoles(img, EMPTY) && Contents(img, EMPTY) == []
  {
  }
}
