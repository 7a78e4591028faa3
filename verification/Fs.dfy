/** balloc, bfree, bmap, itrunc, readi and writei of fs.c, and filewrite of file.c.

    img is what bread returns for each block, that is, the cache's view of the disk; writing a
    buffer and handing it to log_write is an update of img that is noted in logged. */
module Fs {
  import opened Prelude
  import opened Blocks
  import opened Bitmap
  import opened FsSpec
  import opened Inodes
  import opened FileContents
  import opened Transaction

  class Fs {
    const sb: Super
    var img: Image
    /** The in-core inodes. */
    var inodes: seq<Inode>

    /** The slot that names each block in use, and the blocks logged in this transaction. */
    ghost var owner: map<nat, (nat, nat)>
    ghost var logged: set<nat>

    /** Every data block is marked in the free map exactly when one slot, and only one, names it. */
    ghost predicate Valid()
      reads this
    {
      && MarksAre(img, sb, owner.Keys)
      && Named(img, sb, inodes, owner)
      && |inodes| == sb.ninodes
    }

    constructor (superblock: Super, image: Image, table: seq<Inode>, ghost names: map<nat, (nat, nat)>)
      requires MarksAre(image, superblock, names.Keys) && Named(image, superblock, table, names)
      requires |table| == superblock.ninodes
      ensures Valid() && sb == superblock && img == image && inodes == table && owner == names
    {
      sb, img, inodes := superblock, image, table;
      owner, logged := names, {};
    }

    /** balloc: the lowest free block, marked and zeroed. The source panics when ok is false. */
    method Balloc() returns (ok: bool, b: nat)
      requires Laid(sb, |img|)
      modifies this`img, this`logged
      ensures ok ==> b < sb.size && !Marked(old(img), sb, b) && forall c :: 0 <= c < b ==> Marked(old(img), sb, c)
      ensures ok ==> !InUse(old(img), sb, b) && forall c :: 0 <= c < b ==> InUse(old(img), sb, c)
      ensures ok ==> forall c :: 0 <= c < sb.size ==>
                (InUse(AllocMap(old(img), sb, b), sb, c) <==> c == b || InUse(old(img), sb, c))
      ensures ok ==> |img| == |old(img)| && b < |img| && img == AllocMap(old(img), sb, b)[b := ZeroBlock()]
      ensures ok ==> logged == old(logged) + {BBlock(sb, b), b}
      ensures !ok ==> img == old(img) && logged == old(logged) && DiskFull(img, sb)
      ensures !ok ==> forall c :: 0 <= c < sb.size ==> InUse(img, sb, c)
    {
      hide GetBit, SetBit, InUse;
      forall c | 0 <= c < sb.size ensures Marked(img, sb, c) <==> InUse(img, sb, c) {
        MarkedIsBit(img, sb, c);
      }
      var base := 0;
      while base < sb.size
        invariant 0 <= base && base % BPB == 0 && img == old(img) && logged == old(logged)
        invariant forall c :: 0 <= c < base && c < sb.size ==> Marked(img, sb, c)
        decreases sb.size - base
      {
        var bp := img[BBlock(sb, base)];
        var bi := 0;
        while bi < BPB && base + bi < sb.size
          invariant 0 <= bi <= BPB && img == old(img) && logged == old(logged)
          invariant forall c :: 0 <= c < base + bi && c < sb.size ==> Marked(img, sb, c)
        {
          assert BBlock(sb, base + bi) == BBlock(sb, base) && (base + bi) % BPB == bi;
          if !GetBit(bp, bi) {
            img := img[BBlock(sb, base) := SetBit(bp, bi)];
            img := img[base + bi := ZeroBlock()];
            logged := logged + {BBlock(sb, base), base + bi};
            forall c | 0 <= c < sb.size
              ensures InUse(AllocMap(old(img), sb, base + bi), sb, c) <==> c == base + bi || InUse(old(img), sb, c)
            {
              AllocBits(old(img), sb, base + bi, c);
            }
            return true, base + bi;
          }
          bi := bi + 1;
        }
        base := base + BPB;
      }
      return false, 0;
    }

    /** bfree. The source panics when ok is false. */
    method Bfree(b: nat) returns (ok: bool)
      requires Laid(sb, |img|) && b < sb.size
      modifies this`img, this`logged
      ensures ok <==> Marked(old(img), sb, b)
      ensures ok <==> InUse(old(img), sb, b)
      ensures ok ==> |img| == |old(img)| && forall c :: 0 <= c < sb.size ==>
                (InUse(img, sb, c) <==> c != b && InUse(old(img), sb, c))
      ensures ok ==> img == FreeMap(old(img), sb, b) && logged == old(logged) + {BBlock(sb, b)}
      ensures !ok ==> img == old(img) && logged == old(logged)
    {
      hide GetBit, ClearBit, InUse;
      MarkedIsBit(img, sb, b);
      var bp := img[BBlock(sb, b)];
      if !GetBit(bp, b % BPB) {
        return false;
      }
      forall c | 0 <= c < sb.size
        ensures InUse(FreeMap(img, sb, b), sb, c) <==> c != b && InUse(img, sb, c)
      {
        FreeBits(img, sb, b, c);
      }
      img := img[BBlock(sb, b) := ClearBit(bp, b % BPB)];
      logged := logged + {BBlock(sb, b)};
      ok := true;
    }

    /** What a block is for. */
    ghost predicate IsAt(b: nat, ino: nat, s: nat)
      reads this
    {
      b in owner && owner[b] == (ino, s)
    }

    /** x = balloc() for a slot x that names nothing. */
    method AllocSlot(ino: nat, s: nat) returns (ok: bool, b: nat)
      requires Valid() && ino < |inodes| && s < SLOTS && Shaped(inodes[ino], |img|) && SlotVal(img, inodes[ino], s) == 0
      requires s > NDIRECT ==> inodes[ino].addrs[NDIRECT] != 0
      modifies this`img, this`inodes, this`owner, this`logged
      ensures ok ==> |inodes| == |old(inodes)| && inodes == old(inodes)[ino := inodes[ino]]
      ensures ok ==> inodes[ino].size == old(inodes[ino].size) && |inodes[ino].addrs| == |old(inodes[ino].addrs)|
      ensures ok ==> b !in old(owner) && owner == old(owner)[b := (ino, s)]
      ensures ok ==> KeepsData(old(img), img, old(owner), ino)
      ensures ok ==> logged == old(logged) + {BBlock(sb, b), b}
                               + (if s > NDIRECT then {old(inodes[ino].addrs[NDIRECT])} else {})
      ensures ok && s != NDIRECT ==> inodes[ino].addrs[NDIRECT] == old(inodes[ino].addrs[NDIRECT])
      ensures ok ==> Traced(old(Snap()), Snap(), sb.bmapstart)
      ensures !ok ==> DiskFull(img, sb)
      ensures ok ==> Valid()
    {
      hide MarksAre, Named, SlotVal, SetBit, Marked, DiskFull, Traced;
      ghost var a, img0, inodes0 := Snap(), img, inodes;
      LaidOf(img, sb, owner.Keys);
      ok, b := Balloc();
      if !ok {
        return;
      }
      AttachKeeps(img0, sb, inodes0, owner, ino, s, b);
      AttachKeepsData(img0, sb, inodes0, owner, ino, s, b);
      if s <= NDIRECT {
        inodes := inodes[ino := inodes[ino].(addrs := inodes[ino].addrs[s := b])];
      } else {
        var ind := inodes[ino].addrs[NDIRECT];
        img := img[ind := PutWord(img[ind], s - NDIRECT - 1, b)];
        logged := logged + {ind};
      }
      assert (img, inodes) == Attached(img0, sb, inodes0, ino, s, b);
      owner := owner[b := (ino, s)];
      AttachTraced(a, sb, ino, s, b, Snap());
      assert owner.Keys == old(owner.Keys) + {b};
    }

    /** bmap's tail: entry j of the indirect block, allocated if there was none. */
    method Entry(ino: nat, j: nat) returns (ok: bool, addr: nat)
      requires Valid() && ino < |inodes| && j < NINDIRECT && Shaped(inodes[ino], |img|)
               && inodes[ino].addrs[NDIRECT] != 0
      modifies this`img, this`inodes, this`owner, this`logged
      ensures ok ==> IsAt(addr, ino, NDIRECT + 1 + j) && Mapped(sb, old(Snap()), Snap(), ino, {NDIRECT + 1 + j})
      ensures ok ==> Traced(old(Snap()), Snap(), sb.bmapstart)
      ensures SlotVal(old(img), old(inodes)[ino], NDIRECT + 1 + j) != 0 ==> ok && Snap() == old(Snap())
      ensures !ok ==> DiskFull(img, sb)
      ensures ok ==> Valid()
    {
      hide MarksAre, Named, Mapped, DiskFull, Traced;
      TracedNot(Snap(), sb.bmapstart);
      SlotFacts(img, sb, inodes, owner, ino, NDIRECT + 1 + j);
      SlotFacts(img, sb, inodes, owner, ino, NDIRECT);
      addr := GetWord(img[inodes[ino].addrs[NDIRECT]], j);
      if addr != 0 {
        MappedNot(sb, Snap(), ino, {NDIRECT + 1 + j});
        return true, addr;
      }
      ok, addr := AllocSlot(ino, NDIRECT + 1 + j);
      if ok {
        MappedByOne(sb, old(Snap()), Snap(), ino, NDIRECT + 1 + j, addr);
      }
    }

    /** bmap: the block that holds block bn of the file, allocated if there was none. The source
        panics when ok is false. */
    method Bmap(ino: nat, bn: nat) returns (ok: bool, addr: nat)
      requires Valid() && ino < |inodes|
      modifies this`img, this`inodes, this`owner, this`logged
      ensures ok ==> bn < MAXFILE && IsAt(addr, ino, SlotOf(bn)) && Mapped(sb, old(Snap()), Snap(), ino, BmapSlots(bn))
      ensures ok ==> Traced(old(Snap()), Snap(), sb.bmapstart)
      ensures bn < MAXFILE && Shaped(old(inodes)[ino], |old(img)|)
              && SlotVal(old(img), old(inodes)[ino], SlotOf(bn)) != 0 ==>
                ok && Snap() == old(Snap())
      ensures !ok ==> bn >= MAXFILE || DiskFull(img, sb)
      ensures ok ==> Valid()
    {
      hide MarksAre, Named, Mapped, DiskFull, Traced;
      TracedNot(Snap(), sb.bmapstart);
      LaidOf(img, sb, owner.Keys);
      if bn >= MAXFILE {
        return false, 0;
      }
      SlotFacts(img, sb, inodes, owner, ino, SlotOf(bn));
      SlotFacts(img, sb, inodes, owner, ino, NDIRECT);
      var s := if bn < NDIRECT then bn else NDIRECT;
      ok, addr := true, inodes[ino].addrs[s];
      if addr == 0 {
        ok, addr := AllocSlot(ino, s);
        if !ok {
          return;
        }
        MappedByOne(sb, old(Snap()), Snap(), ino, s, addr);
        LaidOf(img, sb, owner.Keys);
        OwnerFacts(img, sb, inodes, owner, addr);
      } else {
        MappedNot(sb, Snap(), ino, {s});
      }
      if bn < NDIRECT {
        return;
      }
      ghost var mid := Snap();
      SlotFacts(img, sb, inodes, owner, ino, NDIRECT);
      ok, addr := Entry(ino, bn - NDIRECT);
      if ok {
        MappedTransitive(sb, old(Snap()), mid, Snap(), ino, {s}, {bn + 1});
        TracedTransitive(old(Snap()), mid, Snap(), sb.bmapstart);
        assert {s} + {bn + 1} == BmapSlots(bn);
      }
    }

    ghost function Snap(): Snapshot
      reads this
    {
      Snapshot(img, inodes, owner, logged)
    }

    /** itrunc on its way: with table the inodes it started from, the blocks in the slots of done
        are unmarked and all others still marked. */
    ghost predicate Trimming(table: seq<Inode>, ino: nat, done: set<nat>, base: set<nat>)
      reads this
    {
      && logged == base + BitmapOf(sb, BlocksAt(owner, ino, done))
      && MarksAre(img, sb, owner.Keys - BlocksAt(owner, ino, done)) && Named(img, sb, table, owner)
      && ino < |table|
    }

    /** Only blocks from lo to hi - 1 differ from img0. */
    ghost predicate OnlyIn(img0: Image, lo: int, hi: int)
      reads this
    {
      |img| == |img0| && forall c :: 0 <= c < |img| && !(lo <= c < hi) ==> img[c] == img0[c]
    }

    /** bfree of the block in slot s, if there is one. */
    method FreeSlot(b: nat, ghost table: seq<Inode>, ghost ino: nat, ghost done: set<nat>, ghost s: nat,
                    ghost base: set<nat>) returns (ok: bool)
      requires Trimming(table, ino, done, base) && s < SLOTS && s !in done
      requires Shaped(table[ino], |img|) && SlotVal(img, table[ino], s) == b
      modifies this`img, this`logged
      ensures ok && Trimming(table, ino, done + {s}, base) && OnlyIn(old(img), sb.bmapstart, DataStart(sb))
    {
      hide MarksAre, Named, Marked, FreeMap, SlotVal, BlocksAt, BitmapOf;
      BitmapMore(sb, BlocksAt(owner, ino, done), b);
      ghost var marks := owner.Keys - BlocksAt(owner, ino, done);
      LaidOf(img, sb, marks);
      BlocksAtMore(img, sb, table, owner, ino, done, s);
      if b == 0 {
        return true;
      }
      FreeKeeps(img, sb, table, owner, marks, b);
      ok := Bfree(b);
      assert owner.Keys - BlocksAt(owner, ino, done + {s}) == marks - {b};
    }

    /** itrunc's first loop. */
    method TruncDirect(ino: nat, ghost base: set<nat>) returns (ok: bool, ghost done: set<nat>)
      requires Trimming(inodes, ino, {}, base) && ino < |inodes| && Shaped(inodes[ino], |img|)
      modifies this`img, this`logged, this`inodes
      ensures ok && Trimming(old(inodes), ino, done, base) && OnlyIn(old(img), sb.bmapstart, DataStart(sb))
              && forall s :: s in done <==> 0 <= s < NDIRECT
      ensures |inodes| == |old(inodes)| && inodes == old(inodes)[ino := inodes[ino]]
              && inodes[ino].size == old(inodes[ino].size)
      ensures |inodes[ino].addrs| == NDIRECT + 1
      ensures forall k :: 0 <= k <= NDIRECT ==>
                inodes[ino].addrs[k] == if k < NDIRECT then 0 else old(inodes[ino].addrs[k])
    {
      hide MarksAre, Named, SlotVal, BlocksAt, BitmapOf;
      ghost var table := inodes;
      ok, done := true, {};
      for i := 0 to NDIRECT
        invariant ok && OnlyIn(old(img), sb.bmapstart, DataStart(sb)) && Trimming(table, ino, done, base)
                  && Shaped(table[ino], |img|)
        invariant |inodes| == |table| && inodes == table[ino := inodes[ino]] && inodes[ino].size == table[ino].size
        invariant |inodes[ino].addrs| == NDIRECT + 1
        invariant forall k :: 0 <= k <= NDIRECT ==> inodes[ino].addrs[k] == if k < i then 0 else table[ino].addrs[k]
        invariant forall s :: s in done <==> 0 <= s < i
      {
        DirectSlot(img, table[ino], i);
        ok := FreeSlot(inodes[ino].addrs[i], table, ino, done, i, base);
        if inodes[ino].addrs[i] != 0 {
          inodes := inodes[ino := inodes[ino].(addrs := inodes[ino].addrs[i := 0])];
        }
        done := done + {i};
      }
    }

    /** itrunc's second loop: the entries stay in the indirect block, which is freed after them. */
    method TruncEntries(ind: nat, ghost table: seq<Inode>, ghost ino: nat, ghost done0: set<nat>, ghost base: set<nat>)
      returns (ok: bool, ghost done: set<nat>)
      requires Trimming(table, ino, done0, base) && Shaped(table[ino], |img|) && table[ino].addrs[NDIRECT] == ind != 0
      requires DataStart(sb) <= ind && forall s :: s in done0 <==> 0 <= s < NDIRECT
      modifies this`img, this`logged
      ensures ok && Trimming(table, ino, done, base) && OnlyIn(old(img), sb.bmapstart, DataStart(sb))
      ensures forall s :: s in done <==> 0 <= s < SLOTS && s != NDIRECT
    {
      hide MarksAre, Named, BlocksAt, BitmapOf;
      ok, done := true, done0;
      for j := 0 to NINDIRECT
        invariant ok && OnlyIn(old(img), sb.bmapstart, DataStart(sb)) && Trimming(table, ino, done, base)
        invariant forall s :: s in done <==> 0 <= s < NDIRECT || NDIRECT < s <= NDIRECT + j
      {
        ok := FreeSlot(GetWord(img[ind], j), table, ino, done, NDIRECT + 1 + j, base);
        done := done + {NDIRECT + 1 + j};
      }
    }

    /** itrunc up to its call of iupdate. */
    method TruncSlots(ino: nat) returns (ok: bool)
      requires Valid() && ino < |inodes|
      modifies this
      ensures ok && Valid() && OnlyIn(old(img), sb.bmapstart, DataStart(sb))
      ensures inodes == old(inodes)[ino := EMPTY] && owner == Disowned(old(owner), ino)
      ensures logged == old(logged) + BitmapOf(sb, BlocksOf(old(owner), ino))
    {
      hide MarksAre, Named, BlocksAt, BlocksOf, BitmapOf, Disowned;
      ghost var table, base := inodes, logged;
      BitmapMore(sb, {}, 0);
      LaidOf(img, sb, owner.Keys);
      SlotFacts(img, sb, inodes, owner, ino, NDIRECT);
      BlocksAtNone(owner, ino);
      assert owner.Keys - {} == owner.Keys;
      ghost var done;
      ok, done := TruncDirect(ino, base);
      if inodes[ino].addrs[NDIRECT] != 0 {
        ok, done := TruncEntries(inodes[ino].addrs[NDIRECT], table, ino, done, base);
        ok := FreeSlot(inodes[ino].addrs[NDIRECT], table, ino, done, NDIRECT, base);
        inodes := inodes[ino := inodes[ino].(addrs := inodes[ino].addrs[NDIRECT := 0])];
        done := done + {NDIRECT};
      }
      inodes := inodes[ino := inodes[ino].(size := 0)];
      assert inodes[ino].addrs == EMPTY.addrs;
      LaidOf(img, sb, owner.Keys - BlocksAt(owner, ino, done));
      BlocksAtAll(img, sb, table, owner, ino, done);
      EmptyKeepsNamed(img, sb, table, owner, ino);
      owner := Disowned(owner, ino);
      assert inodes == table[ino := EMPTY];
    }

    /** itrunc: frees exactly the blocks of the file, each once, so the panic in bfree is never
        reached, and leaves every data block's contents alone. It logs the bitmap blocks of the file's
        blocks and the inode's block. */
    method Itrunc(ino: nat) returns (ok: bool)
      requires Valid() && ino < |inodes|
      modifies this
      ensures ok && Valid()
      ensures inodes == old(inodes)[ino := EMPTY]
      ensures owner == Disowned(old(owner), ino)
      ensures OnlyIn(old(img), sb.inodestart, DataStart(sb))
      ensures logged == old(logged) + BitmapOf(sb, BlocksOf(old(owner), ino)) + {IBlock(sb, ino)}
      ensures old(AllStored(img, sb, inodes)) ==> AllStored(img, sb, inodes)
    {
      hide MarksAre, Named, BlocksOf, BitmapOf, Disowned;
      ghost var table := inodes;
      LaidOf(img, sb, owner.Keys);
      ok := TruncSlots(ino);
      ghost var freed := img;
      Iupdate(ino);
      StoredAgain(old(img), freed, img, sb, table, inodes, ino);
    }

    /** iupdate, for the fields of the model. */
    method Iupdate(ino: nat)
      requires Valid() && ino < |inodes| && inodes[ino].size < 0x1_0000_0000 && |inodes[ino].addrs| == NDIRECT + 1
      modifies this`img, this`logged
      ensures sb.inodestart <= IBlock(sb, ino) < sb.bmapstart && IBlock(sb, ino) < |img| == |old(img)|
      ensures img == Updated(old(img), sb, ino, inodes[ino]) && logged == old(logged) + {IBlock(sb, ino)}
      ensures Valid()
    {
      hide MarksAre, Named, PutInode;
      UpdateKeeps(img, sb, inodes, owner, ino, inodes[ino]);
      var x := IBlock(sb, ino);
      img := img[x := PutInode(img[x], ino % IPB, inodes[ino])];
      logged := logged + {x};
    }

    /** Truncating a file empties it and leaves all others as they were. */
    method Truncate(ino: nat) returns (ok: bool)
      requires Files() && ino < |inodes|
      modifies this
      ensures ok && Files() && |inodes| == |old(inodes)| && File(ino) == []
      ensures logged == old(logged) + BitmapOf(sb, BlocksOf(old(owner), ino)) + {IBlock(sb, ino)}
      ensures forall j :: 0 <= j < |inodes| && j != ino ==> inodes[j] == old(inodes)[j] && File(j) == old(File(j))
    {
      hide MarksAre, Named, NoHoles, Contents, Disowned;
      ghost var a := Snap();
      LaidOf(img, sb, owner.Keys);
      LaidStart(sb, |img|);
      ok := Itrunc(ino);
      EmptyFile(img);
      assert forall c :: DataStart(sb) <= c && 0 <= c < |img| ==> img[c] == a.img[c];
      forall j | 0 <= j < |inodes| && j != ino ensures NoHoles(img, inodes[j]) && File(j) == old(File(j)) {
        assert NoHoles(a.img, a.inodes[j]);
        MetadataIsNoMatter(sb, a, img, j);
      }
    }

    /** One turn of writei's loop: bread(bmap(ip, off/BSIZE)), memmove, log_write. */
    method WriteBlock(ino: nat, off: nat, data: seq<Byte>, ghost nb: nat) returns (ok: bool)
      requires Valid() && ino < |inodes| && off / BSIZE < MAXFILE && off % BSIZE + |data| <= BSIZE
      requires Dense(img, inodes[ino], nb) && off / BSIZE <= nb
      modifies this`img, this`inodes, this`owner, this`logged
      ensures ok ==> |inodes| == |old(inodes)| && Wrote(old(Snap()), Snap(), ino, off, data)
      ensures ok ==> Dense(img, inodes[ino], if off / BSIZE < nb then nb else off / BSIZE + 1)
      ensures ok ==> Touched(sb, old(Snap()), Snap(), ino, BmapSlots(off / BSIZE) + {NDIRECT})
      ensures ok ==> Traced(old(Snap()), Snap(), sb.bmapstart)
      ensures ok && off / BSIZE < nb ==> inodes == old(inodes)
      ensures !ok ==> DiskFull(img, sb)
      ensures ok ==> Valid()
    {
      hide DiskFull, MarksAre, Named, Dense, Touched, Splice, Wrote, SlotVal, Grows, KeepsData;
      ghost var a := Snap();
      var bn := off / BSIZE;
      DenseFacts(img, inodes[ino], nb, bn);
      var addr;
      ok, addr := Bmap(ino, bn);
      if !ok {
        return;
      }
      ghost var b := Snap();
      LaidOf(a.img, sb, a.owner.Keys);
      LaidOf(b.img, sb, b.owner.Keys);
      OwnerFacts(img, sb, inodes, owner, addr);
      var nblock := Splice(img[addr], off % BSIZE, data);
      img := img[addr := nblock];
      logged := logged + {addr};
      WriteKeepsNamed(b.img, sb, inodes, owner, addr, nblock);
      WriteMarks(b.img, sb, owner.Keys, addr, nblock);
      MappedTouches(sb, a, b, Snap(), ino, bn, addr);
      WroteBlock(sb, a, b, Snap(), ino, off, data, addr, nb);
    }

    /** writei's loop. */
    method WriteBlocks(ino: nat, src: seq<Byte>, off: nat) returns (ok: bool)
      requires Valid() && ino < |inodes| && NoHoles(img, inodes[ino])
      requires off <= inodes[ino].size && off + |src| <= MAXFILE * BSIZE
      modifies this`img, this`inodes, this`owner, this`logged
      ensures ok ==> |inodes| == |old(inodes)| && Wrote(old(Snap()), Snap(), ino, off, src)
      ensures ok ==> Dense(img, inodes[ino], Max(BlocksFor(old(inodes[ino].size)), BlocksFor(off + |src|)))
      ensures ok ==> Touched(sb, old(Snap()), Snap(), ino, RangeSlots(off / BSIZE, BlocksFor(off + |src|)))
      ensures ok ==> Traced(old(Snap()), Snap(), sb.bmapstart)
      ensures ok && off + |src| <= old(inodes[ino].size) ==> inodes == old(inodes)
      ensures !ok ==> DiskFull(img, sb)
      ensures ok ==> Valid()
    {
      hide DiskFull, Valid, Dense, Touched, Wrote, RangeSlots, BlocksFor, Max, Min, EndBlock;
      ghost var a, size := Snap(), inodes[ino].size;
      var n, tot := |src|, 0;
      StartFacts(sb, a, ino, off);
      ok := true;
      while tot < n
        invariant 0 <= tot <= n && ok && Valid() && |inodes| == |a.inodes| && (tot == 0 ==> Snap() == a)
        invariant Wrote(a, Snap(), ino, off, src[..tot])
        invariant Dense(img, inodes[ino], Max(BlocksFor(size), BlocksFor(off + tot)))
        invariant Touched(sb, a, Snap(), ino, RangeSlots(off / BSIZE, EndBlock(off, tot)))
        invariant Traced(a, Snap(), sb.bmapstart)
        invariant off + tot <= size ==> inodes == a.inodes
      {
        ghost var b := Snap();
        var m := Min(n - tot, BSIZE - (off + tot) % BSIZE);
        TurnFacts(off, tot, n, size);
        ok := WriteBlock(ino, off + tot, src[tot..tot + m], Max(BlocksFor(size), BlocksFor(off + tot)));
        if !ok {
          return;
        }
        WroteTransitive(a, b, Snap(), ino, off, src[..tot], src[tot..tot + m]);
        assert src[..tot] + src[tot..tot + m] == src[..tot + m];
        TracedTransitive(a, b, Snap(), sb.bmapstart);
        RangeSlotsMore(off / BSIZE, (off + tot) / BSIZE);
        TouchedTransitive(sb, a, b, Snap(), ino, RangeSlots(off / BSIZE, EndBlock(off, tot)),
                          BmapSlots((off + tot) / BSIZE) + {NDIRECT});
        tot := tot + m;
      }
      assert src[..n] == src;
      EndFacts(sb, Snap(), ino, off, tot);
    }

    /** The whole invariant: the block map is right, no file has a hole, and the inode blocks hold
        what the in-core inodes say. */
    ghost predicate Files()
      reads this
    {
      Valid() && AllStored(img, sb, inodes) && forall j :: 0 <= j < |inodes| ==> NoHoles(img, inodes[j])
    }

    ghost function File(j: nat): seq<Byte>
      requires j < |inodes|
      reads this
    {
      Contents(img, inodes[j])
    }

    /** writei on a file (not a device). In 32-bit arithmetic off + n may wrap, which the source
        catches. The result is the new contents of the file; all other files keep theirs. The
        inode is written through even though it is written only when the size grows: without
        holes, no block can be allocated otherwise. The source panics when ok is false. */
    method Writei(ino: nat, src: seq<Byte>, off: nat) returns (ok: bool, r: int)
      requires Files() && ino < |inodes| && off < 0x1_0000_0000 && |src| < 0x1_0000_0000
      modifies this
      ensures ok ==> Files() && |inodes| == |old(inodes)|
      ensures ok ==> (r == -1 <==> off > old(inodes[ino].size) || off + |src| > MAXFILE * BSIZE)
      ensures ok && r == -1 ==> Snap() == old(Snap())
      ensures ok && r != -1 ==> r == |src| && File(ino) == Written(old(File(ino)), off, src)
      ensures ok ==> forall j :: 0 <= j < |inodes| && j != ino ==>
                inodes[j] == old(inodes)[j] && File(j) == old(File(j))
      ensures ok && r != -1 ==> LogsOnly(sb, old(Snap()), Snap(), ino, off, |src|)
      ensures ok ==> Traced(old(Snap()), Snap(), sb.inodestart)
      ensures !ok ==> DiskFull(img, sb)
    {
      hide DiskFull, MarksAre, Named, NoHoles, Dense, Touched, RangeSlots, BlocksFor, Contents, Written, LogsOnly,
           AllStored, Traced, Sum32;
      var n := |src|;
      Sum32Wraps(off, n);
      TracedNot(Snap(), sb.inodestart);
      if off > inodes[ino].size || Sum32(off, n) < off {
        return true, -1;
      }
      if Sum32(off, n) > MAXFILE * BSIZE {
        return true, -1;
      }
      ghost var a := Snap();
      assert NoHoles(img, inodes[ino]);
      SizeFits(img, inodes[ino]);
      ok := WriteBlocks(ino, src, off);
      if !ok {
        return false, -1;
      }
      ghost var b := Snap();
      ghost var c := b.(inodes := inodes[ino := inodes[ino].(size := Max(inodes[ino].size, off + n))]);
      NamedIgnoresSize(img, sb, inodes, owner, ino, Max(inodes[ino].size, off + n));
      LaidOf(img, sb, owner.Keys);
      FinishWrite(sb, a, b, c, ino, off, src);
      ghost var grew := n > 0 && off + n > inodes[ino].size;
      if n > 0 && off + n > inodes[ino].size {
        SlotFacts(img, sb, inodes, owner, ino, NDIRECT);
        inodes := inodes[ino := inodes[ino].(size := off + n)];
        Iupdate(ino);
      }
      StoredAfterWrite(sb, a, b, c, Snap(), ino, grew);
      TouchedLogs(sb, a, b, Snap(), ino, off, n);
      r := n;
    }

    /** begin_op, writei of one chunk, end_op. */
    method WriteChunk(ino: nat, src: seq<Byte>, off: nat) returns (ok: bool, r: int)
      requires Files() && ino < |inodes| && off < 0x1_0000_0000 && |src| <= CHUNK
      modifies this
      ensures ok ==> Files() && |inodes| == |old(inodes)|
      ensures ok ==> (r == -1 <==> off > |old(File(ino))| || off + |src| > MAXFILE * BSIZE)
      ensures ok && r == -1 ==> File(ino) == old(File(ino))
      ensures ok && r != -1 ==> r == |src| && File(ino) == Written(old(File(ino)), off, src)
      ensures ok ==> forall j :: 0 <= j < |inodes| && j != ino ==>
                inodes[j] == old(inodes)[j] && File(j) == old(File(j))
      ensures ok ==> IsOperation(sb, old(Snap()), Snap())
      ensures !ok ==> DiskFull(img, sb)
    {
      hide DiskFull, MarksAre, Named, NoHoles, Contents, Written, LogsOnly, AllStored;
      logged := {};
      ghost var a := Snap();
      LaidOf(img, sb, owner.Keys);
      ok, r := Writei(ino, src, off);
      if ok {
        LaidOf(img, sb, owner.Keys);
      }
      if ok && r != -1 {
        assert NoHoles(a.img, a.inodes[ino]);
        TransactionFits(sb, a, Snap(), ino, off, |src|);
        LogsHome(sb, a, Snap(), ino, off, |src|);
      }
    }

    /** filewrite on a file at offset off: written in chunks, each an operation of its own. Whatever
        part of src is written is written whole and in place, and f->off (next) moves by as much.
        snaps are the states between the operations. */
    method FileWrite(ino: nat, src: seq<Byte>, off: nat)
      returns (ok: bool, r: int, next: nat, ghost snaps: seq<Snapshot>)
      requires Files() && ino < |inodes| && off < 0x1_0000_0000 && |src| < 0x8000_0000
      modifies this
      ensures ok ==> Files() && |inodes| == |old(inodes)|
      ensures ok ==> next == off + if off > |old(File(ino))| then 0 else Fitting(off, |src|)
      ensures ok ==> r == if next == off + |src| then |src| else -1
      ensures ok ==> Reached(old(Snap()), Snap(), ino, off, src[..next - off])
      ensures ok ==> snaps != [] && snaps[0] == old(Snap()) && snaps[|snaps| - 1] == Snap()
      ensures ok ==> Chunked(sb, snaps, ino, off, src, next - off)
      ensures !ok ==> DiskFull(img, sb)
    {
      hide DiskFull, Valid, AllStored, NoHoles, Contents, Written, Chunked, IsOperation, Reached, Bytes, Fitting;
      var n, i := |src|, 0;
      ghost var a := Snap();
      next, ok, r, snaps := off, true, 0, [a];
      FilesAreKept();
      ReachedNothing(a, ino, off);
      ChunkedNone(sb, a, ino, off, src);
      BytesMore(0);
      FitsWhole(off, n);
      assert NoHoles(img, inodes[ino]);
      SizeFits(img, inodes[ino]);
      while i < n
        invariant 0 <= i <= n && next == off + i < 0x1_0000_0000 && ok && Files() && |inodes| == |old(inodes)| && r >= 0
        invariant |snaps| >= 1 && snaps[0] == a && snaps[|snaps| - 1] == Snap()
        invariant i == Min(Bytes(|snaps| - 1), n) && (i == 0 ==> |snaps| == 1)
        invariant i > 0 ==> off <= |Contents(a.img, a.inodes[ino])| && next <= |File(ino)| && next <= MAXFILE * BSIZE
        invariant Reached(a, Snap(), ino, off, src[..i]) && Chunked(sb, snaps, ino, off, src, i)
      {
        var n1 := if n - i > CHUNK then CHUNK else n - i;
        ghost var b, whole := Snap(), File(ino);
        BytesMore(|snaps| - 1);
        ok, r := WriteChunk(ino, src[i..i + n1], next);
        if !ok {
          return;
        }
        if r < 0 {
          if next <= |whole| {
            StopIsFitting(off, n, |snaps| - 1, n1);
          }
          ReachedStays(a, b, Snap(), ino, off, src[..i]);
          ChunkedMore(sb, snaps, Snap(), ino, off, src, i, 0);
          snaps := snaps + [Snap()];
          break;
        }
        ReachedMore(a, b, Snap(), ino, off, src[..i], src[i..i + n1]);
        assert src[..i] + src[i..i + n1] == src[..i + n1];
        ChunkedMore(sb, snaps, Snap(), ino, off, src, i, n1);
        snaps := snaps + [Snap()];
        next := next + r;
        i := i + r;
      }
      r := if i == n then n else -1;
    }

    lemma FilesAreKept()
      requires Files()
      ensures Kept(sb, Snap())
    {
      hide MarksAre, Named, NoHoles, AllStored;
      LaidOf(img, sb, owner.Keys);
    }

    /** One turn of readi's loop. */
    method ReadPiece(ino: nat, cur: nat, left: nat) returns (piece: seq<Byte>)
      requires Files() && ino < |inodes| && 0 < left && cur + left <= inodes[ino].size
      modifies this
      ensures Snap() == old(Snap()) && Files()
      ensures 0 < |piece| <= left && piece == File(ino)[cur..cur + |piece|]
    {
      hide MarksAre, Named, NoHoles, Contents, Mapped;
      ghost var a := Snap();
      LaidOf(img, sb, owner.Keys);
      assert NoHoles(img, inodes[ino]);
      NoHolesFacts(img, inodes[ino], cur);
      var m := Min(left, BSIZE - cur % BSIZE);
      var ok, addr := Bmap(ino, cur / BSIZE);
      ReadBlock(sb, a, ino, cur, m, addr);
      piece := img[addr][cur % BSIZE..cur % BSIZE + m];
    }

    /** readi on a file: exactly the requested slice of the file, as far as it goes. bmap never
        allocates here, so nothing changes and there is no panic. */
    method Readi(ino: nat, off: nat, n: nat) returns (ok: bool, r: int, dst: seq<Byte>)
      requires Files() && ino < |inodes| && off < 0x1_0000_0000 && n < 0x1_0000_0000
      modifies this
      ensures ok && Snap() == old(Snap())
      ensures r == -1 <==> off > inodes[ino].size || off + n >= 0x1_0000_0000
      ensures r != -1 ==> r == |dst| && dst == File(ino)[off..Min(off + n, inodes[ino].size)]
    {
      hide Valid, NoHoles, Contents, AllStored, Sum32;
      dst := [];
      Sum32Wraps(off, n);
      if off > inodes[ino].size || Sum32(off, n) < off {
        return true, -1, [];
      }
      var todo := if Sum32(off, n) > inodes[ino].size then inodes[ino].size - off else n;
      ghost var a, whole := Snap(), File(ino);
      var tot := 0;
      while tot < todo
        invariant 0 <= tot <= todo && Snap() == a && Files()
        invariant dst == whole[off..off + tot]
      {
        var piece := ReadPiece(ino, off + tot, todo - tot);
        Slices(whole, off, off + tot, off + tot + |piece|);
        dst := dst + piece;
        tot := tot + |piece|;
      }
      return true, todo, dst;
    }
  }

  lemma Slices<T>(s: seq<T>, i: nat, j: nat, k: nat)
    requires i <= j <= k <= |s|
    ensures s[i..j] + s[j..k] == s[i..k]
  {
  }

  lemma NoHolesFacts(img: Image, ip: Inode, x: nat)
    requires NoHoles(img, ip) && x < ip.size
    ensures Shaped(ip, |img|) && x / BSIZE < MAXFILE && SlotVal(img, ip, SlotOf(x / BSIZE)) != 0
  {
    hide SlotVal;
    DenseFacts(img, ip, BlocksFor(ip.size), x / BSIZE);
  }

  lemma SizeFits(img: Image, ip: Inode)
    requires NoHoles(img, ip)
    ensures ip.size <= MAXFILE * BSIZE
  {
  }

  lemma TouchedLogs(sb: Super, a: Snapshot, b: Snapshot, c: Snapshot, i: nat, off: nat, n: nat)
    requires Touched(sb, a, b, i, RangeSlots(off / BSIZE, BlocksFor(off + n)))
    requires c.owner == b.owner && c.logged <= b.logged + {IBlock(sb, i)}
    ensures LogsOnly(sb, a, c, i, off, n)
  {
    hide RangeSlots, BlocksAt, BitmapOf, Grows, NewBlocks, BlocksFor, IBlock;
  }

  lemma StartFacts(sb: Super, a: Snapshot, ino: nat, off: nat)
    requires ino < |a.inodes| && NoHoles(a.img, a.inodes[ino]) && off <= a.inodes[ino].size
    ensures Wrote(a, a, ino, off, []) && Touched(sb, a, a, ino, RangeSlots(off / BSIZE, EndBlock(off, 0)))
    ensures Dense(a.img, a.inodes[ino], Max(BlocksFor(a.inodes[ino].size), BlocksFor(off + 0)))
  {
    hide Dense, RangeSlots;
    WroteNothing(a, ino, off);
    TouchedNot(sb, a, ino, RangeSlots(off / BSIZE, EndBlock(off, 0)));
  }

  lemma EndFacts(sb: Super, a: Snapshot, ino: nat, off: nat, n: nat)
    ensures n > 0 ==> EndBlock(off, n) == BlocksFor(off + n)
    ensures Touched(sb, a, a, ino, RangeSlots(off / BSIZE, BlocksFor(off + n)))
  {
    hide RangeSlots;
    TouchedNot(sb, a, ino, RangeSlots(off / BSIZE, BlocksFor(off + n)));
  }

  /** Inodes that were stored are stored again once the one that changed has been updated. */
  lemma StoredAgain(img0: Image, img1: Image, img2: Image, sb: Super, table: seq<Inode>, inodes: seq<Inode>, ino: nat)
    requires Laid(sb, |img0|) && |img0| == |img1| && |table| == |inodes| == sb.ninodes && ino < |inodes|
    requires forall c :: 0 <= c < |img0| && c < sb.bmapstart ==> img1[c] == img0[c]
    requires inodes == table[ino := inodes[ino]] && inodes[ino].size < 0x1_0000_0000
             && |inodes[ino].addrs| == NDIRECT + 1
    requires IBlock(sb, ino) < |img1| && img2 == Updated(img1, sb, ino, inodes[ino])
    ensures AllStored(img0, sb, table) ==> AllStored(img2, sb, inodes)
  {
    hide GetInode, PutInode, Updated;
    if AllStored(img0, sb, table) {
      forall j | 0 <= j < |inodes| ensures IBlock(sb, j) < |img2| && Stored(img2, sb, j) == inodes[j] {
        UpdateStores(img1, sb, ino, inodes[ino], j);
      }
    }
  }

  /** The end of writei: whether or not the inode had to be stored, all inodes are stored, and the
      inode block is no part of any file. */
  lemma StoredAfterWrite(sb: Super, a: Snapshot, b: Snapshot, c: Snapshot, e: Snapshot, ino: nat, grew: bool)
    requires Sane(sb, c) && ino < |a.inodes| == |c.inodes| == sb.ninodes && AllStored(a.img, sb, a.inodes)
    requires c.img == b.img && c.owner == b.owner && c.inodes == a.inodes[ino := c.inodes[ino]]
             && Traced(a, b, sb.bmapstart)
    requires forall j :: 0 <= j < |c.inodes| ==> NoHoles(c.img, c.inodes[j])
    requires e.inodes == c.inodes
    requires if !grew then c.inodes == a.inodes && e.img == b.img && e.logged == b.logged
             else IBlock(sb, ino) < |b.img| && c.inodes[ino].size < 0x1_0000_0000
                  && |c.inodes[ino].addrs| == NDIRECT + 1
                  && e.img == Updated(b.img, sb, ino, c.inodes[ino]) && e.logged == b.logged + {IBlock(sb, ino)}
    ensures AllStored(e.img, sb, e.inodes) && Traced(a, e, sb.inodestart)
    ensures forall j :: 0 <= j < |c.inodes| ==>
              NoHoles(e.img, e.inodes[j]) && Contents(e.img, e.inodes[j]) == Contents(c.img, c.inodes[j])
  {
    hide Named, NoHoles, Contents, GetInode, PutInode;
    if grew {
      StoredAgain(a.img, b.img, e.img, sb, a.inodes, c.inodes, ino);
      forall j | 0 <= j < |c.inodes|
        ensures NoHoles(e.img, e.inodes[j]) && Contents(e.img, e.inodes[j]) == Contents(c.img, c.inodes[j])
      {
        MetadataIsNoMatter(sb, c, e.img, j);
      }
    } else {
      forall j | 0 <= j < |e.inodes| ensures IBlock(sb, j) < |e.img| && Stored(e.img, sb, j) == e.inodes[j] {
        assert Stored(a.img, sb, j) == a.inodes[j];
      }
    }
  }
}
