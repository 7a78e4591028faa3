/** The block map of fs.c on values: which slot of which inode names which data block. */
module FsSpec {
  import opened Prelude
  import opened Blocks
  import opened Bitmap

  const NDIRECT: nat := 12
  const NINDIRECT: nat := 128
  const MAXFILE: nat := 140
  const IPB: nat := 8

  /** An inode has SLOTS places that can name a block: slots 0 to 11 are the direct addresses,
      slot 12 is the address of the indirect block, and slot 13 + j is entry j of that block. */
  const SLOTS: nat := 141

  /** The super block; data blocks are the last nblocks blocks. */
  datatype Super = Super(size: nat, nblocks: nat, ninodes: nat, inodestart: nat, bmapstart: nat)

  function DataStart(sb: Super): int {
    sb.size - sb.nblocks
  }

  function BBlock(sb: Super, b: nat): nat {
    b / BPB + sb.bmapstart
  }

  function IBlock(sb: Super, inum: nat): nat {
    inum / IPB + sb.inodestart
  }

  /** Inode blocks, bitmap blocks and data blocks follow one another. */
  ghost predicate Laid(sb: Super, disksize: nat)
  {
    && sb.size <= disksize <= 0x1_0000_0000
    && 0 < sb.inodestart && IBlock(sb, sb.ninodes) < sb.bmapstart
    && BBlock(sb, sb.size) < DataStart(sb) <= sb.size
  }

  datatype Inode = Inode(size: nat, addrs: seq<Word>)

  const EMPTY: Inode := Inode(0, seq(NDIRECT + 1, _ => 0))

  ghost predicate Shaped(ip: Inode, disksize: nat)
  {
    |ip.addrs| == NDIRECT + 1 && ip.addrs[NDIRECT] < disksize
  }

  /** The block a slot names, 0 for none. */
  function SlotVal(img: Image, ip: Inode, s: nat): nat
    requires Shaped(ip, |img|) && s < SLOTS
  {
    if s <= NDIRECT then ip.addrs[s]
    else if ip.addrs[NDIRECT] == 0 then 0
    else GetWord(img[ip.addrs[NDIRECT]], s - NDIRECT - 1)
  }

  /** The slot of block bn of the file. */
  function SlotOf(bn: nat): nat {
    if bn < NDIRECT then bn else bn + 1
  }

  predicate Marked(img: Image, sb: Super, b: nat)
    requires Laid(sb, |img|) && b < sb.size
  {
    GetBit(img[BBlock(sb, b)], b % BPB)
  }

  /** Bit b of the disk's free map, in integers: the bits of a byte count from the lowest. */
  predicate InUse(img: Image, sb: Super, b: nat)
    requires Laid(sb, |img|) && b < sb.size
  {
    img[b / 4096 + sb.bmapstart][b % 4096 / 8] / Pow2(b % 8) % 2 == 1
  }

  lemma MarkedIsBit(img: Image, sb: Super, b: nat)
    requires Laid(sb, |img|) && b < sb.size
    ensures Marked(img, sb, b) <==> InUse(img, sb, b)
  {
    hide GetBit, Pow2;
    BitNumbering(img[BBlock(sb, b)], b % BPB);
    assert b % BPB % 8 == b % 8;
  }

  /** The state in which balloc panics. */
  ghost predicate DiskFull(img: Image, sb: Super)
  {
    Laid(sb, |img|) && forall c :: 0 <= c < sb.size ==> Marked(img, sb, c)
  }

  /** The free map has exactly the metadata blocks and marks in use. */
  ghost predicate MarksAre(img: Image, sb: Super, marks: set<nat>)
  {
    && Laid(sb, |img|)
    && (forall b :: 0 <= b < sb.size ==> (Marked(img, sb, b) <==> b < DataStart(sb) || b in marks))
    && (forall b :: b in marks ==> DataStart(sb) <= b < sb.size)
  }

  ghost predicate Names(img: Image, inodes: seq<Inode>, b: nat, at: (nat, nat))
  {
    && at.0 < |inodes| && at.1 < SLOTS && Shaped(inodes[at.0], |img|)
    && SlotVal(img, inodes[at.0], at.1) == b
  }

  ghost predicate Credited(img: Image, inodes: seq<Inode>, owner: map<nat, (nat, nat)>, i: nat, s: nat)
  {
    && i < |inodes| && s < SLOTS && Shaped(inodes[i], |img|)
    && var v := SlotVal(img, inodes[i], s);
       v != 0 ==> v in owner && owner[v] == (i, s)
  }

  /** owner is the inverse of the block map: every block in it is named by its slot, and every
      slot that names a block is that block's owner. So no block is named twice. */
  ghost predicate Named(img: Image, sb: Super, inodes: seq<Inode>, owner: map<nat, (nat, nat)>)
  {
    && (forall b :: b in owner ==> DataStart(sb) <= b < sb.size && Names(img, inodes, b, owner[b]))
    && (forall i, s :: 0 <= i < |inodes| && 0 <= s < SLOTS ==> Credited(img, inodes, owner, i, s))
  }

  lemma LaidOf(img: Image, sb: Super, marks: set<nat>)
    requires MarksAre(img, sb, marks)
    ensures Laid(sb, |img|) && 0 < DataStart(sb)
  {
  }

  // ----- The free map -----

  function AllocMap(img: Image, sb: Super, b: nat): (r: Image)
    requires Laid(sb, |img|) && b < sb.size && !Marked(img, sb, b)
    ensures |r| == |img|
  {
    img[BBlock(sb, b) := SetBit(img[BBlock(sb, b)], b % BPB)]
  }

  function FreeMap(img: Image, sb: Super, b: nat): (r: Image)
    requires Laid(sb, |img|) && b < sb.size && Marked(img, sb, b)
    ensures |r| == |img|
  {
    img[BBlock(sb, b) := ClearBit(img[BBlock(sb, b)], b % BPB)]
  }

  /** Only the bit of b changes. */
  lemma AllocBits(img: Image, sb: Super, b: nat, c: nat)
    requires Laid(sb, |img|) && b < sb.size && !Marked(img, sb, b) && c < sb.size
    ensures InUse(AllocMap(img, sb, b), sb, c) <==> c == b || InUse(img, sb, c)
  {
    hide GetBit, SetBit, InUse;
    MarkedIsBit(img, sb, c);
    MarkedIsBit(AllocMap(img, sb, b), sb, c);
    if BBlock(sb, c) == BBlock(sb, b) {
      SetBitChanges(img[BBlock(sb, b)], b % BPB, c % BPB);
    }
  }

  lemma FreeBits(img: Image, sb: Super, b: nat, c: nat)
    requires Laid(sb, |img|) && b < sb.size && Marked(img, sb, b) && c < sb.size
    ensures InUse(FreeMap(img, sb, b), sb, c) <==> c != b && InUse(img, sb, c)
  {
    hide GetBit, ClearBit, InUse;
    MarkedIsBit(img, sb, c);
    MarkedIsBit(FreeMap(img, sb, b), sb, c);
    if BBlock(sb, c) == BBlock(sb, b) {
      ClearBitChanges(img[BBlock(sb, b)], b % BPB, c % BPB);
    }
  }

  lemma AllocMarks(img: Image, sb: Super, marks: set<nat>, b: nat)
    requires MarksAre(img, sb, marks) && b < sb.size && !Marked(img, sb, b)
    ensures MarksAre(AllocMap(img, sb, b), sb, marks + {b}) && DataStart(sb) <= b && b !in marks
  {
    hide GetBit, SetBit;
    var out := AllocMap(img, sb, b);
    forall c | 0 <= c < sb.size ensures Marked(out, sb, c) <==> c == b || Marked(img, sb, c) {
      if BBlock(sb, c) == BBlock(sb, b) {
        SetBitChanges(img[BBlock(sb, b)], b % BPB, c % BPB);
      }
    }
  }

  lemma FreeMarks(img: Image, sb: Super, marks: set<nat>, b: nat)
    requires MarksAre(img, sb, marks) && b in marks
    ensures b < sb.size && Marked(img, sb, b) && MarksAre(FreeMap(img, sb, b), sb, marks - {b})
  {
    hide GetBit, ClearBit;
    assert Marked(img, sb, b);
    var out := FreeMap(img, sb, b);
    forall c | 0 <= c < sb.size ensures Marked(out, sb, c) <==> c != b && Marked(img, sb, c) {
      if BBlock(sb, c) == BBlock(sb, b) {
        ClearBitChanges(img[BBlock(sb, b)], b % BPB, c % BPB);
      }
    }
  }

  /** Writing a block outside the free map leaves the free map alone. */
  lemma WriteMarks(img: Image, sb: Super, marks: set<nat>, x: nat, data: Block)
    requires MarksAre(img, sb, marks) && x < |img| && (DataStart(sb) <= x || x < sb.bmapstart)
    ensures MarksAre(img[x := data], sb, marks)
  {
    hide GetBit;
    var out := img[x := data];
    forall c | 0 <= c < sb.size ensures Marked(out, sb, c) == Marked(img, sb, c) {
      assert BBlock(sb, c) < DataStart(sb);
    }
  }

  // ----- The block map -----

  /** x is not an indirect block: writing it cannot change what a slot names. */
  ghost predicate NotIndirect(owner: map<nat, (nat, nat)>, x: nat)
  {
    x != 0 && (x in owner ==> owner[x].1 != NDIRECT)
  }

  lemma WriteKeepsSlot(img: Image, sb: Super, inodes: seq<Inode>, owner: map<nat, (nat, nat)>,
                       x: nat, data: Block, i: nat, s: nat)
    requires Named(img, sb, inodes, owner) && NotIndirect(owner, x) && x < |img|
    requires i < |inodes| && s < SLOTS
    ensures Shaped(inodes[i], |img|) && SlotVal(img[x := data], inodes[i], s) == SlotVal(img, inodes[i], s)
  {
    assert Credited(img, inodes, owner, i, s) && Credited(img, inodes, owner, i, NDIRECT);
  }

  lemma WriteKeepsNamed(img: Image, sb: Super, inodes: seq<Inode>, owner: map<nat, (nat, nat)>, x: nat, data: Block)
    requires Named(img, sb, inodes, owner) && NotIndirect(owner, x) && x < |img|
    ensures Named(img[x := data], sb, inodes, owner)
  {
    var out := img[x := data];
    forall b | b in owner ensures Names(out, inodes, b, owner[b]) {
      assert Names(img, inodes, b, owner[b]);
      WriteKeepsSlot(img, sb, inodes, owner, x, data, owner[b].0, owner[b].1);
    }
    forall i, s | 0 <= i < |inodes| && 0 <= s < SLOTS ensures Credited(out, inodes, owner, i, s) {
      assert Credited(img, inodes, owner, i, s);
      WriteKeepsSlot(img, sb, inodes, owner, x, data, i, s);
    }
  }

  /** Slot s of inode i starts to name block b. */
  function SetSlot(img: Image, inodes: seq<Inode>, i: nat, s: nat, b: Word): (Image, seq<Inode>)
    requires i < |inodes| && Shaped(inodes[i], |img|) && s < SLOTS
  {
    var ip := inodes[i];
    if s <= NDIRECT then (img, inodes[i := ip.(addrs := ip.addrs[s := b])])
    else (img[ip.addrs[NDIRECT] := PutWord(img[ip.addrs[NDIRECT]], s - NDIRECT - 1, b)], inodes)
  }

  /** What setting a slot does to all slots of all inodes. */
  lemma SetSlotChanges(img: Image, sb: Super, inodes: seq<Inode>, owner: map<nat, (nat, nat)>,
                       i: nat, s: nat, b: Word, j: nat, t: nat)
    requires Named(img, sb, inodes, owner) && i < |inodes| && s < SLOTS && j < |inodes| && t < SLOTS
    requires Shaped(inodes[i], |img|) && SlotVal(img, inodes[i], s) == 0 && b < |img|
    requires s > NDIRECT ==> inodes[i].addrs[NDIRECT] != 0
    requires s == NDIRECT ==> img[b] == ZeroBlock()
    ensures var (img', inodes') := SetSlot(img, inodes, i, s, b);
            && Shaped(inodes[j], |img|) && Shaped(inodes'[j], |img'|)
            && SlotVal(img', inodes'[j], t) == if (j, t) == (i, s) then b else SlotVal(img, inodes[j], t)
  {
    assert Credited(img, inodes, owner, j, t) && Credited(img, inodes, owner, j, NDIRECT);
    assert Credited(img, inodes, owner, i, NDIRECT);
    if s > NDIRECT {
      WordRoundTrip(img[inodes[i].addrs[NDIRECT]], s - NDIRECT - 1, b);
    }
    if s == NDIRECT && t > NDIRECT {
      ZeroWords(t - NDIRECT - 1);
    }
  }

  lemma SetSlotKeepsNamed(img: Image, sb: Super, inodes: seq<Inode>, owner: map<nat, (nat, nat)>, i: nat, s: nat,
                          b: Word)
    requires Named(img, sb, inodes, owner) && i < |inodes| && s < SLOTS
    requires Shaped(inodes[i], |img|) && SlotVal(img, inodes[i], s) == 0
    requires Laid(sb, |img|) && DataStart(sb) <= b < sb.size && b !in owner
    requires s > NDIRECT ==> inodes[i].addrs[NDIRECT] != 0
    requires s == NDIRECT ==> img[b] == ZeroBlock()
    ensures var (img', inodes') := SetSlot(img, inodes, i, s, b);
            Named(img', sb, inodes', owner[b := (i, s)])
  {
    hide SlotVal, SetSlot;
    var (img', inodes') := SetSlot(img, inodes, i, s, b);
    var owner' := owner[b := (i, s)];
    SetSlotShape(img, inodes, i, s, b);
    forall c | c in owner' ensures Names(img', inodes', c, owner'[c]) {
      assert c != b ==> Names(img, inodes, c, owner[c]);
      SetSlotChanges(img, sb, inodes, owner, i, s, b, owner'[c].0, owner'[c].1);
    }
    forall j, t | 0 <= j < |inodes'| && 0 <= t < SLOTS ensures Credited(img', inodes', owner', j, t) {
      assert Credited(img, inodes, owner, j, t);
      SetSlotChanges(img, sb, inodes, owner, i, s, b, j, t);
    }
  }

  lemma SetSlotShape(img: Image, inodes: seq<Inode>, i: nat, s: nat, b: Word)
    requires i < |inodes| && Shaped(inodes[i], |img|) && s < SLOTS
    ensures |SetSlot(img, inodes, i, s, b).0| == |img| && |SetSlot(img, inodes, i, s, b).1| == |inodes|
  {
  }

  /** Inode i is emptied; the blocks it owned are nobody's. */
  ghost function Disowned(owner: map<nat, (nat, nat)>, i: nat): (r: map<nat, (nat, nat)>)
    ensures forall b :: b in r <==> b in owner && owner[b].0 != i
    ensures forall b :: b in r ==> r[b] == owner[b]
  {
    map b | b in owner && owner[b].0 != i :: owner[b]
  }

  lemma EmptyKeepsNamed(img: Image, sb: Super, inodes: seq<Inode>, owner: map<nat, (nat, nat)>, i: nat)
    requires Named(img, sb, inodes, owner) && i < |inodes| && 0 < |img|
    ensures Named(img, sb, inodes[i := EMPTY], Disowned(owner, i))
  {
    hide Disowned;
    var inodes', owner' := inodes[i := EMPTY], Disowned(owner, i);
    forall b | b in owner' ensures Names(img, inodes', b, owner'[b]) {
      assert Names(img, inodes, b, owner[b]);
    }
    forall j, s | 0 <= j < |inodes'| && 0 <= s < SLOTS ensures Credited(img, inodes', owner', j, s) {
      assert Credited(img, inodes, owner, j, s);
    }
  }

  /** The image after balloc has taken block b. */
  function Balloced(img: Image, sb: Super, b: nat): (r: Image)
    requires Laid(sb, |img|) && b < sb.size && !Marked(img, sb, b)
    ensures |r| == |img|
  {
    AllocMap(img, sb, b)[b := ZeroBlock()]
  }

  lemma BallocKeeps(img: Image, sb: Super, inodes: seq<Inode>, owner: map<nat, (nat, nat)>, b: nat)
    requires MarksAre(img, sb, owner.Keys) && Named(img, sb, inodes, owner)
    requires b < sb.size && !Marked(img, sb, b)
    ensures DataStart(sb) <= b && b !in owner && 0 < DataStart(sb)
    ensures MarksAre(Balloced(img, sb, b), sb, owner.Keys + {b}) && Named(Balloced(img, sb, b), sb, inodes, owner)
    ensures Balloced(img, sb, b)[b] == ZeroBlock()
    ensures forall c :: DataStart(sb) <= c < |img| && c != b ==> Balloced(img, sb, b)[c] == img[c]
  {
    hide Named, SetBit, Marked;
    AllocMarks(img, sb, owner.Keys, b);
    WriteMarks(AllocMap(img, sb, b), sb, owner.Keys + {b}, b, ZeroBlock());
    var bb := BBlock(sb, b);
    assert bb < DataStart(sb) && bb !in owner && b !in owner;
    WriteKeepsNamed(img, sb, inodes, owner, bb, AllocMap(img, sb, b)[bb]);
    WriteKeepsNamed(AllocMap(img, sb, b), sb, inodes, owner, b, ZeroBlock());
  }

  lemma BallocKeepsSlot(img: Image, sb: Super, inodes: seq<Inode>, owner: map<nat, (nat, nat)>, b: nat, i: nat, s: nat)
    requires MarksAre(img, sb, owner.Keys) && Named(img, sb, inodes, owner)
    requires b < sb.size && !Marked(img, sb, b) && i < |inodes| && s < SLOTS
    ensures Shaped(inodes[i], |img|) && SlotVal(Balloced(img, sb, b), inodes[i], s) == SlotVal(img, inodes[i], s)
  {
    assert Credited(img, inodes, owner, i, s) && Credited(img, inodes, owner, i, NDIRECT);
    BallocKeeps(img, sb, inodes, owner, b);
  }

  /** The state after slot s of inode i has been given a newly allocated block b. */
  function Attached(img: Image, sb: Super, inodes: seq<Inode>, i: nat, s: nat, b: Word): (Image, seq<Inode>)
    requires Laid(sb, |img|) && b < sb.size && !Marked(img, sb, b)
    requires i < |inodes| && Shaped(inodes[i], |img|) && s < SLOTS
  {
    SetSlot(Balloced(img, sb, b), inodes, i, s, b)
  }

  ghost predicate CanAttach(img: Image, sb: Super, inodes: seq<Inode>, owner: map<nat, (nat, nat)>, i: nat, s: nat,
                            b: nat)
  {
    && Laid(sb, |img|) && MarksAre(img, sb, owner.Keys) && Named(img, sb, inodes, owner)
    && b < sb.size && !Marked(img, sb, b)
    && i < |inodes| && s < SLOTS && Shaped(inodes[i], |img|) && SlotVal(img, inodes[i], s) == 0
    && (s > NDIRECT ==> inodes[i].addrs[NDIRECT] != 0)
  }

  lemma AttachKeeps(img: Image, sb: Super, inodes: seq<Inode>, owner: map<nat, (nat, nat)>, i: nat, s: nat, b: Word)
    requires CanAttach(img, sb, inodes, owner, i, s, b)
    ensures var (img', inodes') := Attached(img, sb, inodes, i, s, b);
            && |img'| == |img| && |inodes'| == |inodes| && DataStart(sb) <= b && b !in owner
            && MarksAre(img', sb, owner.Keys + {b}) && Named(img', sb, inodes', owner[b := (i, s)])
  {
    hide MarksAre, Named, SlotVal, Balloced, SetSlot;
    BallocKeeps(img, sb, inodes, owner, b);
    BallocKeepsSlot(img, sb, inodes, owner, b, i, s);
    var mid := Balloced(img, sb, b);
    SetSlotKeepsNamed(mid, sb, inodes, owner, i, s, b);
    SetSlotMarks(mid, sb, inodes, owner, owner.Keys + {b}, i, s, b);
  }

  lemma SetSlotMarks(img: Image, sb: Super, inodes: seq<Inode>, owner: map<nat, (nat, nat)>, marks: set<nat>, i: nat,
                     s: nat, b: Word)
    requires MarksAre(img, sb, marks) && Named(img, sb, inodes, owner) && i < |inodes| && s < SLOTS
             && Shaped(inodes[i], |img|)
    requires s > NDIRECT ==> inodes[i].addrs[NDIRECT] != 0
    ensures var (img', inodes') := SetSlot(img, inodes, i, s, b);
            |img'| == |img| && |inodes'| == |inodes| && MarksAre(img', sb, marks)
  {
    hide MarksAre;
    if s > NDIRECT {
      var x := inodes[i].addrs[NDIRECT];
      assert Credited(img, inodes, owner, i, NDIRECT);
      WriteMarks(img, sb, marks, x, PutWord(img[x], s - NDIRECT - 1, b));
    }
  }

  lemma AttachKeepsData(img: Image, sb: Super, inodes: seq<Inode>, owner: map<nat, (nat, nat)>, i: nat, s: nat, b: Word)
    requires CanAttach(img, sb, inodes, owner, i, s, b)
    ensures KeepsData(img, Attached(img, sb, inodes, i, s, b).0, owner, i)
  {
    hide MarksAre, Balloced;
    BallocKeeps(img, sb, inodes, owner, b);
    assert Credited(img, inodes, owner, i, NDIRECT);
    forall c | c in owner && owner[c] != (i, NDIRECT) && c < |img|
      ensures Attached(img, sb, inodes, i, s, b).0[c] == img[c]
    {
      assert Names(img, inodes, c, owner[c]);
    }
  }

  // ----- What bmap may do -----

  /** The block map has grown: nothing that was named is renamed, and every new name is in one of
      the given slots of inode i. */
  ghost predicate Grows(owner: map<nat, (nat, nat)>, owner': map<nat, (nat, nat)>, i: nat, slots: set<nat>)
  {
    && (forall b :: b in owner ==> b in owner' && owner'[b] == owner[b])
    && (forall b :: b in owner' && b !in owner ==> owner'[b].0 == i && owner'[b].1 in slots)
  }

  /** Every block in use keeps its contents, but for the indirect block of inode i. */
  ghost predicate KeepsData(img: Image, img': Image, owner: map<nat, (nat, nat)>, i: nat)
  {
    && |img'| == |img|
    && forall b :: b in owner && owner[b] != (i, NDIRECT) && b < |img| ==> img'[b] == img[b]
  }

  ghost function NewBlocks(owner: map<nat, (nat, nat)>, owner': map<nat, (nat, nat)>): set<nat>
  {
    owner'.Keys - owner.Keys
  }

  /** The bitmap blocks of a set of blocks. */
  ghost function BitmapOf(sb: Super, blocks: set<nat>): set<nat>
  {
    set b | b in blocks :: BBlock(sb, b)
  }

  lemma BitmapMore(sb: Super, blocks: set<nat>, b: nat)
    ensures BitmapOf(sb, {}) == {} && BitmapOf(sb, blocks + {b}) == BitmapOf(sb, blocks) + {BBlock(sb, b)}
  {
  }

  /** The slots bmap may fill for block bn. */
  function BmapSlots(bn: nat): set<nat> {
    if bn < NDIRECT then {bn} else {NDIRECT, bn + 1}
  }

  lemma GrowsTransitive(o1: map<nat, (nat, nat)>, o2: map<nat, (nat, nat)>, o3: map<nat, (nat, nat)>,
                        i: nat, s1: set<nat>, s2: set<nat>)
    requires Grows(o1, o2, i, s1) && Grows(o2, o3, i, s2)
    ensures Grows(o1, o3, i, s1 + s2)
  {
  }

  lemma KeepsDataTransitive(img1: Image, img2: Image, img3: Image, o1: map<nat, (nat, nat)>, o2: map<nat, (nat, nat)>,
                            i: nat, slots: set<nat>)
    requires KeepsData(img1, img2, o1, i) && KeepsData(img2, img3, o2, i) && Grows(o1, o2, i, slots)
    ensures KeepsData(img1, img3, o1, i)
  {
  }

  /** The blocks of a chain of two growths. */
  lemma NewBlocksOfTwo(sb: Super, o1: map<nat, (nat, nat)>, o2: map<nat, (nat, nat)>, o3: map<nat, (nat, nat)>,
                       i: nat, s1: set<nat>, s2: set<nat>)
    requires Grows(o1, o2, i, s1) && Grows(o2, o3, i, s2)
    ensures NewBlocks(o1, o3) == NewBlocks(o1, o2) + NewBlocks(o2, o3)
    ensures BitmapOf(sb, NewBlocks(o1, o3)) == BitmapOf(sb, NewBlocks(o1, o2)) + BitmapOf(sb, NewBlocks(o2, o3))
  {
    var a, b, c := NewBlocks(o1, o2), NewBlocks(o2, o3), NewBlocks(o1, o3);
    assert c == a + b;
    forall x | x in BitmapOf(sb, c) ensures x in BitmapOf(sb, a) + BitmapOf(sb, b) {
      var y :| y in c && x == BBlock(sb, y);
      assert y in a || y in b;
    }
  }

  lemma GrowsByOne(owner: map<nat, (nat, nat)>, b: nat, i: nat, s: nat)
    requires b !in owner
    ensures Grows(owner, owner[b := (i, s)], i, {s}) && NewBlocks(owner, owner[b := (i, s)]) == {b}
  {
  }

  lemma SlotFacts(img: Image, sb: Super, inodes: seq<Inode>, owner: map<nat, (nat, nat)>, i: nat, s: nat)
    requires Named(img, sb, inodes, owner) && i < |inodes| && s < SLOTS
    ensures Shaped(inodes[i], |img|)
    ensures var v := SlotVal(img, inodes[i], s);
            v != 0 ==> v in owner && owner[v] == (i, s) && DataStart(sb) <= v < sb.size
  {
    assert Credited(img, inodes, owner, i, s);
  }

  lemma OwnerFacts(img: Image, sb: Super, inodes: seq<Inode>, owner: map<nat, (nat, nat)>, b: nat)
    requires Named(img, sb, inodes, owner) && b in owner && Laid(sb, |img|)
    ensures var (i, s) := owner[b];
            i < |inodes| && s < SLOTS && Shaped(inodes[i], |img|) && SlotVal(img, inodes[i], s) == b
    ensures 0 < DataStart(sb) <= b < sb.size <= |img|
  {
    assert Names(img, inodes, b, owner[b]);
  }

  /** Slots that named a block still name it. */
  lemma GrowsKeepsSlot(img: Image, img': Image, sb: Super, inodes: seq<Inode>, inodes': seq<Inode>,
                       owner: map<nat, (nat, nat)>, owner': map<nat, (nat, nat)>,
                       i: nat, slots: set<nat>, j: nat, t: nat)
    requires Named(img, sb, inodes, owner) && Named(img', sb, inodes', owner') && Grows(owner, owner', i, slots)
    requires j < |inodes| == |inodes'| && t < SLOTS && 0 < DataStart(sb)
    ensures Shaped(inodes[j], |img|) && Shaped(inodes'[j], |img'|)
    ensures SlotVal(img, inodes[j], t) != 0 ==> SlotVal(img', inodes'[j], t) == SlotVal(img, inodes[j], t)
    ensures SlotVal(img, inodes[j], t) == 0 && !(j == i && t in slots) ==> SlotVal(img', inodes'[j], t) == 0
  {
    hide SlotVal;
    assert Credited(img, inodes, owner, j, t) && Credited(img', inodes', owner', j, t);
    var v, v' := SlotVal(img, inodes[j], t), SlotVal(img', inodes'[j], t);
    assert v in owner ==> Names(img', inodes', v, owner'[v]);
    assert v' in owner ==> Names(img, inodes, v', owner[v']);
  }

  /** The block map, the contents and the log at one moment. */
  datatype Snapshot = Snapshot(img: Image, inodes: seq<Inode>, owner: map<nat, (nat, nat)>, logged: set<nat>)

  /** Between a and c only logged blocks have changed, and none of them below lo. */
  ghost predicate Traced(a: Snapshot, c: Snapshot, lo: nat)
  {
    && |c.img| == |a.img| && a.logged <= c.logged
    && forall b :: 0 <= b < |a.img| && c.img[b] != a.img[b] ==> b in c.logged && lo <= b
  }

  /** Attaching a block changes the free map, that block and perhaps the indirect block. */
  lemma AttachTraced(a: Snapshot, sb: Super, i: nat, s: nat, b: Word, c: Snapshot)
    requires CanAttach(a.img, sb, a.inodes, a.owner, i, s, b)
             && (c.img, c.inodes) == Attached(a.img, sb, a.inodes, i, s, b)
    requires c.logged == a.logged + {BBlock(sb, b), b} + (if s > NDIRECT then {a.inodes[i].addrs[NDIRECT]} else {})
    ensures Traced(a, c, sb.bmapstart)
  {
    hide Named, SetBit, Marked;
    AllocMarks(a.img, sb, a.owner.Keys, b);
    SlotFacts(a.img, sb, a.inodes, a.owner, i, NDIRECT);
  }

  lemma TracedNot(a: Snapshot, lo: nat)
    ensures Traced(a, a, lo)
  {
  }

  lemma TracedTransitive(a: Snapshot, b: Snapshot, c: Snapshot, lo: nat)
    requires Traced(a, b, lo) && Traced(b, c, lo)
    ensures Traced(a, c, lo)
  {
  }

  /** The indirect block of inode i, if it has one. */
  ghost function Indirects(owner: map<nat, (nat, nat)>, i: nat): set<nat>
  {
    set b | b in owner && owner[b] == (i, NDIRECT)
  }

  /** What bmap may do between a and b when it fills some of the given slots of inode i: it logs
      the new blocks, their bitmap blocks and the indirect block, and nothing else. */
  ghost predicate Mapped(sb: Super, a: Snapshot, b: Snapshot, i: nat, slots: set<nat>)
  {
    && i < |a.inodes| == |b.inodes|
    && b.inodes == a.inodes[i := b.inodes[i]] && b.inodes[i].size == a.inodes[i].size
    && Grows(a.owner, b.owner, i, slots) && KeepsData(a.img, b.img, a.owner, i)
    && b.logged <= a.logged + NewBlocks(a.owner, b.owner) + BitmapOf(sb, NewBlocks(a.owner, b.owner))
       + Indirects(b.owner, i)
  }

  lemma MappedNot(sb: Super, a: Snapshot, i: nat, slots: set<nat>)
    requires i < |a.inodes|
    ensures Mapped(sb, a, a, i, slots)
  {
  }

  lemma MappedTransitive(sb: Super, a: Snapshot, b: Snapshot, c: Snapshot, i: nat, s1: set<nat>, s2: set<nat>)
    requires Mapped(sb, a, b, i, s1) && Mapped(sb, b, c, i, s2)
    ensures Mapped(sb, a, c, i, s1 + s2)
  {
    hide NewBlocks, BitmapOf, Grows, KeepsData;
    GrowsTransitive(a.owner, b.owner, c.owner, i, s1, s2);
    KeepsDataTransitive(a.img, b.img, c.img, a.owner, b.owner, i, s1);
    NewBlocksOfTwo(sb, a.owner, b.owner, c.owner, i, s1, s2);
    IndirectsGrow(b.owner, c.owner, i, s2);
  }

  lemma IndirectsGrow(o1: map<nat, (nat, nat)>, o2: map<nat, (nat, nat)>, i: nat, slots: set<nat>)
    requires Grows(o1, o2, i, slots)
    ensures Indirects(o1, i) <= Indirects(o2, i)
  {
  }

  /** One allocation is a growth by one slot. */
  lemma MappedByOne(sb: Super, a: Snapshot, b: Snapshot, i: nat, s: nat, blk: nat)
    requires i < |a.inodes| == |b.inodes| && Shaped(a.inodes[i], |a.img|)
    requires b.inodes == a.inodes[i := b.inodes[i]] && b.inodes[i].size == a.inodes[i].size
    requires blk !in a.owner && b.owner == a.owner[blk := (i, s)] && KeepsData(a.img, b.img, a.owner, i)
    requires b.logged == a.logged + {BBlock(sb, blk), blk} + (if s > NDIRECT then {a.inodes[i].addrs[NDIRECT]} else {})
    requires s > NDIRECT ==> var ind := a.inodes[i].addrs[NDIRECT]; ind in a.owner && a.owner[ind] == (i, NDIRECT)
    ensures Mapped(sb, a, b, i, {s})
  {
    GrowsByOne(a.owner, blk, i, s);
    assert BBlock(sb, blk) in BitmapOf(sb, NewBlocks(a.owner, b.owner));
  }

  // ----- What itrunc does -----

  /** bfree leaves the block map and every data block alone. */
  lemma FreeKeeps(img: Image, sb: Super, inodes: seq<Inode>, owner: map<nat, (nat, nat)>, marks: set<nat>, b: nat)
    requires MarksAre(img, sb, marks) && Named(img, sb, inodes, owner) && b in marks
    ensures b < sb.size && Laid(sb, |img|) && Marked(img, sb, b)
    ensures MarksAre(FreeMap(img, sb, b), sb, marks - {b}) && Named(FreeMap(img, sb, b), sb, inodes, owner)
    ensures forall c :: 0 <= c < |img| && !(sb.bmapstart <= c < DataStart(sb)) ==> FreeMap(img, sb, b)[c] == img[c]
  {
    hide Named, ClearBit, Marked;
    FreeMarks(img, sb, marks, b);
    var bb := BBlock(sb, b);
    assert bb < DataStart(sb) && 0 < bb;
    assert bb !in owner by {
      if bb in owner {
        OwnerFacts(img, sb, inodes, owner, bb);
      }
    }
    WriteKeepsNamed(img, sb, inodes, owner, bb, FreeMap(img, sb, b)[bb]);
  }

  /** The blocks of inode i in the slots of done. */
  ghost function BlocksAt(owner: map<nat, (nat, nat)>, i: nat, done: set<nat>): set<nat>
  {
    set b | b in owner && owner[b].0 == i && owner[b].1 in done
  }

  /** The blocks of inode i. */
  ghost function BlocksOf(owner: map<nat, (nat, nat)>, i: nat): set<nat>
  {
    set b | b in owner && owner[b].0 == i
  }

  lemma BlocksAtNone(owner: map<nat, (nat, nat)>, i: nat)
    ensures BlocksAt(owner, i, {}) == {}
  {
  }

  lemma DirectSlot(img: Image, ip: Inode, s: nat)
    requires Shaped(ip, |img|) && s <= NDIRECT
    ensures SlotVal(img, ip, s) == ip.addrs[s]
  {
  }

  /** A slot that names nothing adds nothing. */
  lemma BlocksAtMore(img: Image, sb: Super, inodes: seq<Inode>, owner: map<nat, (nat, nat)>, i: nat, done: set<nat>,
                     s: nat)
    requires Named(img, sb, inodes, owner) && Laid(sb, |img|) && i < |inodes| && s < SLOTS && s !in done
    ensures Shaped(inodes[i], |img|)
    ensures var v := SlotVal(img, inodes[i], s);
            if v == 0 then BlocksAt(owner, i, done + {s}) == BlocksAt(owner, i, done)
            else v in owner && v !in BlocksAt(owner, i, done)
                 && BlocksAt(owner, i, done + {s}) == BlocksAt(owner, i, done) + {v}
  {
    hide SlotVal;
    SlotFacts(img, sb, inodes, owner, i, s);
    forall b | b in owner && owner[b] == (i, s) ensures b == SlotVal(img, inodes[i], s) && b != 0 {
      OwnerFacts(img, sb, inodes, owner, b);
    }
  }

  /** Once every slot that names a block is done, what is left belongs to other inodes. */
  lemma BlocksAtAll(img: Image, sb: Super, inodes: seq<Inode>, owner: map<nat, (nat, nat)>, i: nat, done: set<nat>)
    requires Named(img, sb, inodes, owner) && Laid(sb, |img|) && i < |inodes| && Shaped(inodes[i], |img|)
    requires forall s :: 0 <= s < SLOTS ==> s in done || SlotVal(img, inodes[i], s) == 0
    ensures owner.Keys - BlocksAt(owner, i, done) == Disowned(owner, i).Keys
    ensures BlocksAt(owner, i, done) == BlocksOf(owner, i)
  {
    hide Disowned, SlotVal;
    forall b | b in owner && owner[b].0 == i ensures owner[b].1 in done {
      OwnerFacts(img, sb, inodes, owner, b);
    }
  }
}
