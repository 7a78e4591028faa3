/** Inodes in the inode blocks: the size and the addresses of struct dinode, sixteen words to an
    inode, as iupdate stores them and ilock reads them. */
module Inodes {
  import opened Prelude
  import opened Blocks
  import opened FsSpec

  /** The word of the size of inode k of a block; the addresses follow it. */
  function SizeWord(k: nat): nat {
    16 * k + 2
  }

  function GetAddrs(b: Block, k: nat, n: nat): (r: seq<Word>)
    requires k < IPB && n <= NDIRECT + 1
    ensures |r| == n && forall i :: 0 <= i < n ==> r[i] == GetWord(b, SizeWord(k) + 1 + i)
  {
    if n == 0 then [] else GetAddrs(b, k, n - 1) + [GetWord(b, SizeWord(k) + n)]
  }

  function GetInode(b: Block, k: nat): (ip: Inode)
    requires k < IPB
    ensures |ip.addrs| == NDIRECT + 1
  {
    Inode(GetWord(b, SizeWord(k)), GetAddrs(b, k, NDIRECT + 1))
  }

  function PutAddrs(b: Block, k: nat, addrs: seq<Word>, n: nat): Block
    requires k < IPB && n <= |addrs| == NDIRECT + 1
  {
    if n == 0 then b else PutWord(PutAddrs(b, k, addrs, n - 1), SizeWord(k) + n, addrs[n - 1])
  }

  /** iupdate's assignments to the fields of the model. */
  function PutInode(b: Block, k: nat, ip: Inode): Block
    requires k < IPB && ip.size < 0x1_0000_0000 && |ip.addrs| == NDIRECT + 1
  {
    PutAddrs(PutWord(b, SizeWord(k), ip.size), k, ip.addrs, NDIRECT + 1)
  }

  lemma {:induction false} PutAddrsWords(b: Block, k: nat, addrs: seq<Word>, n: nat, w: nat)
    requires k < IPB && n <= |addrs| == NDIRECT + 1 && w < WORDS
    ensures GetWord(PutAddrs(b, k, addrs, n), w) ==
            if SizeWord(k) < w <= SizeWord(k) + n then addrs[w - SizeWord(k) - 1] else GetWord(b, w)
  {
    hide GetWord, PutWord;
    if n > 0 {
      PutAddrsWords(b, k, addrs, n - 1, w);
      WordRoundTrip(PutAddrs(b, k, addrs, n - 1), SizeWord(k) + n, addrs[n - 1]);
    }
  }

  /** Where an inode is stored: its size in word 2 of its sixteen, its addresses in words 3 to 15; the other
      words, those of type, device and link count among them, are kept. */
  lemma InodeWords(b: Block, k: nat, ip: Inode, w: nat)
    requires k < IPB && ip.size < 0x1_0000_0000 && |ip.addrs| == NDIRECT + 1 && w < WORDS
    ensures GetWord(PutInode(b, k, ip), w) ==
            if w == 16 * k + 2 then ip.size
            else if 16 * k + 3 <= w <= 16 * k + 15 then ip.addrs[w - (16 * k + 3)]
            else GetWord(b, w)
  {
    hide GetWord, PutWord, PutAddrs;
    WordRoundTrip(b, SizeWord(k), ip.size);
    PutAddrsWords(PutWord(b, SizeWord(k), ip.size), k, ip.addrs, NDIRECT + 1, w);
  }

  /** A stored inode reads back, and the other inodes of the block are untouched. */
  lemma InodeRoundTrip(b: Block, k: nat, ip: Inode, j: nat)
    requires k < IPB && j < IPB && ip.size < 0x1_0000_0000 && |ip.addrs| == NDIRECT + 1
    ensures GetInode(PutInode(b, k, ip), j) == if j == k then ip else GetInode(b, j)
  {
    hide GetWord, PutWord, PutAddrs, GetAddrs;
    var c := PutWord(b, SizeWord(k), ip.size);
    WordRoundTrip(b, SizeWord(k), ip.size);
    PutAddrsWords(c, k, ip.addrs, NDIRECT + 1, SizeWord(j));
    var got, want := GetInode(PutInode(b, k, ip), j), if j == k then ip else GetInode(b, j);
    forall i | 0 <= i <= NDIRECT ensures got.addrs[i] == want.addrs[i] {
      PutAddrsWords(c, k, ip.addrs, NDIRECT + 1, SizeWord(j) + 1 + i);
    }
    assert got.addrs == want.addrs;
  }

  /** Inode j as the inode blocks hold it. */
  function Stored(img: Image, sb: Super, j: nat): Inode
    requires IBlock(sb, j) < |img|
  {
    GetInode(img[IBlock(sb, j)], j % IPB)
  }

  lemma StoredAt(img: Image, sb: Super, j: nat)
    requires IBlock(sb, j) < |img|
    ensures var b, w := img[j / 8 + sb.inodestart], 16 * (j % 8);
            && Stored(img, sb, j).size == GetWord(b, w + 2)
            && forall i :: 0 <= i <= 12 ==> Stored(img, sb, j).addrs[i] == GetWord(b, w + 3 + i)
  {
    hide GetWord;
  }

  /** iupdate */
  function Updated(img: Image, sb: Super, j: nat, ip: Inode): (r: Image)
    requires IBlock(sb, j) < |img| && ip.size < 0x1_0000_0000 && |ip.addrs| == NDIRECT + 1
    ensures |r| == |img|
  {
    img[IBlock(sb, j) := PutInode(img[IBlock(sb, j)], j % IPB, ip)]
  }

  lemma UpdateStores(img: Image, sb: Super, i: nat, ip: Inode, j: nat)
    requires IBlock(sb, i) < |img| && IBlock(sb, j) < |img| && ip.size < 0x1_0000_0000 && |ip.addrs| == NDIRECT + 1
    ensures Stored(Updated(img, sb, i, ip), sb, j) == if j == i then ip else Stored(img, sb, j)
  {
    hide GetInode, PutInode;
    if IBlock(sb, i) == IBlock(sb, j) {
      assert i != j ==> i % IPB != j % IPB;
      InodeRoundTrip(img[IBlock(sb, i)], i % IPB, ip, j % IPB);
    }
  }

  /** The block map and the free map do not depend on the inode blocks. */
  lemma UpdateKeeps(img: Image, sb: Super, inodes: seq<Inode>, owner: map<nat, (nat, nat)>, j: nat, ip: Inode)
    requires MarksAre(img, sb, owner.Keys) && Named(img, sb, inodes, owner) && j < sb.ninodes
    requires ip.size < 0x1_0000_0000 && |ip.addrs| == NDIRECT + 1
    ensures sb.inodestart <= IBlock(sb, j) < sb.bmapstart && IBlock(sb, j) < |img|
    ensures MarksAre(Updated(img, sb, j, ip), sb, owner.Keys) && Named(Updated(img, sb, j, ip), sb, inodes, owner)
  {
    hide Named, PutInode;
    LaidOf(img, sb, owner.Keys);
    var x := IBlock(sb, j);
    assert x !in owner by {
      if x in owner {
        OwnerFacts(img, sb, inodes, owner, x);
      }
    }
    WriteKeepsNamed(img, sb, inodes, owner, x, Updated(img, sb, j, ip)[x]);
    WriteMarks(img, sb, owner.Keys, x, Updated(img, sb, j, ip)[x]);
  }
}
