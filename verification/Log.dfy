/** log.c on top of the buffer cache. Each method is proved to leave behind exactly the disk
    images LogSpec lists, or, when the source would panic for want of buffers, a prefix of them. */
module Log {
  import opened Prelude
  import opened Blocks
  import opened BufferCache
  import opened LogSpec

  ghost function Minus(pins: set<nat>, blocks: seq<nat>): set<nat>
  {
    set x | x in pins && x !in blocks
  }

  lemma MinusOne(pins: set<nat>, blocks: seq<nat>, k: nat)
    requires k < |blocks|
    ensures Minus(pins, blocks[..k + 1]) == Minus(pins, blocks[..k]) - {blocks[k]}
    ensures Distinct(blocks) && blocks[k] in pins ==> blocks[k] in Minus(pins, blocks[..k])
  {
    assert blocks[..k + 1] == blocks[..k] + [blocks[k]];
  }

  lemma InstallStarts(img: Image, view: Image, lay: Layout, blocks: seq<nat>, pins: set<nat>)
    requires Loggable(blocks, lay, |img|) && Loggable(blocks, lay, |view|)
    ensures Installed(img, lay, blocks, 0) == img && Installed(view, lay, blocks, 0) == view
    ensures Minus(pins, blocks[..0]) == pins
    ensures forall k :: 0 <= k < |blocks| ==> InstallImages(img, lay, blocks)[k] == Installed(img, lay, blocks, k + 1)
  {
  }

  // ----- A log as long as the cache -----

  function UpTo(n: nat): (r: set<nat>)
    ensures |r| == n && forall k :: k in r <==> 0 <= k < n
  {
    if n == 0 then {} else UpTo(n - 1) + {n - 1}
  }

  /** There is a buffer to recycle exactly while fewer are busy than there are. */
  lemma RoomIsCount(n: nat, m: Book)
    requires m.busy <= UpTo(n)
    ensures HasRoom(n, m) <==> |m.busy| < n
  {
    if |m.busy| < n {
      RoomByCount(n, m);
    } else if HasRoom(n, m) {
      var k :| 0 <= k < n && k !in m.busy;
      SubsetSize(m.busy + {k}, UpTo(n));
    }
  }

  /** Every cached block has a buffer with its label, so no two blocks share one. */
  ghost predicate Labelled(bufs: seq<Buf>, m: Book)
  {
    forall key :: key in m.where ==>
      m.where[key] < |bufs| && (bufs[m.where[key]].dev, bufs[m.where[key]].blockno) == key
  }

  lemma CoherentIsLabelled(bufs: seq<Buf>, disk: Image, m: Book)
    requires Coherent(bufs, disk, m)
    ensures Labelled(bufs, m) && m.busy <= UpTo(|bufs|)
  {
    hide Faithful;
  }

  lemma PinnedIsBusy(bufs: seq<Buf>, disk: Image, m: Book, blk: nat)
    requires Coherent(bufs, disk, m) && blk in m.pins
    ensures (DISK, blk) in m.where && m.where[(DISK, blk)] in m.busy
  {
    var k := m.where[(DISK, blk)];
    assert Faithful(k, bufs[k], disk, m);
  }

  ghost predicate Cached(m: Book, blocks: seq<nat>) {
    forall i :: 0 <= i < |blocks| ==> (DISK, blocks[i]) in m.where
  }

  ghost function BuffersOf(m: Book, blocks: seq<nat>): set<nat>
    requires Cached(m, blocks)
  {
    set i | 0 <= i < |blocks| :: m.where[(DISK, blocks[i])]
  }

  lemma {:induction false} BuffersOfSize(bufs: seq<Buf>, m: Book, blocks: seq<nat>)
    requires Labelled(bufs, m) && Distinct(blocks) && Cached(m, blocks)
    ensures |BuffersOf(m, blocks)| == |blocks| && BuffersOf(m, blocks) <= UpTo(|bufs|)
  {
    if blocks != [] {
      var n := |blocks| - 1;
      BuffersOfSize(bufs, m, blocks[..n]);
      assert BuffersOf(m, blocks) == BuffersOf(m, blocks[..n]) + {m.where[(DISK, blocks[n])]};
    }
  }

  /** As many blocks as buffers take every buffer. */
  lemma EveryBuffer(bufs: seq<Buf>, m: Book, blocks: seq<nat>, k: nat) returns (i: nat)
    requires Labelled(bufs, m) && Distinct(blocks) && Cached(m, blocks) && |blocks| == |bufs| && k < |bufs|
    ensures i < |blocks| && m.where[(DISK, blocks[i])] == k
  {
    BuffersOfSize(bufs, m, blocks);
    var used := BuffersOf(m, blocks);
    if k !in used {
      SubsetSize(used + {k}, UpTo(|bufs|));
    }
    i :| 0 <= i < |blocks| && m.where[(DISK, blocks[i])] == k;
  }

  /** When as many blocks are listed, and so pinned, as there are buffers, every buffer has one of them: there
      is none to recycle, and no other block is cached. */
  lemma FullLogHasNoBuffer(bufs: seq<Buf>, disk: Image, m: Book, blocks: seq<nat>, log: nat)
    requires Coherent(bufs, disk, m) && Distinct(blocks) && |blocks| == |bufs| && log !in blocks
    requires forall i :: 0 <= i < |blocks| ==> blocks[i] in m.pins
    ensures !HasRoom(|bufs|, m) && (DISK, log) !in m.where
  {
    hide Coherent, Faithful, Distinct;
    CoherentIsLabelled(bufs, disk, m);
    forall i | 0 <= i < |blocks| ensures (DISK, blocks[i]) in m.where && m.where[(DISK, blocks[i])] in m.busy {
      PinnedIsBusy(bufs, disk, m, blocks[i]);
    }
    forall k | 0 <= k < |bufs| ensures k in m.busy {
      var i := EveryBuffer(bufs, m, blocks, k);
    }
    if (DISK, log) in m.where {
      var i := EveryBuffer(bufs, m, blocks, m.where[(DISK, log)]);
    }
  }

  /** There is no buffer for a block of the log that nobody uses exactly when all are busy. */
  lemma StarvedWhen(bufs: seq<Buf>, disk: Image, m: Book, blocks: seq<nat>, log: nat)
    requires Coherent(bufs, disk, m) && Distinct(blocks) && log !in blocks
    requires forall i :: 0 <= i < |blocks| ==> blocks[i] in m.pins
    ensures var starved := (DISK, log) !in m.where && !HasRoom(|bufs|, m);
            && (((DISK, log) in m.where ==> m.where[(DISK, log)] !in m.busy) ==> (starved <==> |m.busy| >= |bufs|))
            && (|blocks| == |bufs| ==> starved)
  {
    hide Coherent, Faithful, Distinct;
    CoherentIsLabelled(bufs, disk, m);
    RoomIsCount(|bufs|, m);
    if |blocks| == |bufs| {
      FullLogHasNoBuffer(bufs, disk, m, blocks, log);
    }
  }

  class Log {
    const cache: Cache
    const lay: Layout
    /** log.lh.block[..log.lh.n] */
    var lh: seq<nat>
    /** How many operations are between begin_op and end_op. */
    var outstanding: nat

    constructor (c: Cache, layout: Layout)
      ensures cache == c && lay == layout && lh == [] && outstanding == 0
    {
      cache, lay, lh, outstanding := c, layout, [], 0;
    }

    /** Nobody but log.c uses the log area: its blocks are neither held nor pinned between the
        steps below, so the cache shows them as they are on disk. */
    ghost predicate AreaQuiet(disk: Image, m: Book)
    {
      && |m.view| == |disk|
      && forall blk: nat :: lay.InLog(blk) && blk < |disk| ==>
           (DISK, blk) !in m.held && blk !in m.pins && m.view[blk] == disk[blk]
    }

    ghost predicate Valid()
      reads this, cache, cache.bufs, cache.next, cache.prev
    {
      cache.Valid() && Loggable(lh, lay, |cache.disk|) && AreaQuiet(cache.disk, cache.m)
    }

    /** No buffer has the first block of the log, and none can be had for it. */
    ghost predicate Starved()
      reads this, cache
    {
      (DISK, lay.start + 1) !in cache.m.where && !HasRoom(cache.NBUF, cache.m)
    }

    /** bread of a log block, then of a home block. */
    method BreadTwo(log: nat, home: nat) returns (ok: bool, a: nat, b: nat)
      requires cache.Valid() && log != home && log < |cache.disk| && home < |cache.disk|
      requires (DISK, log) !in cache.m.held && (DISK, home) !in cache.m.held
      modifies cache, cache.bufs
      ensures cache.Valid()
      ensures cache.images == old(cache.images) && cache.disk == old(cache.disk)
      ensures ok ==> a < cache.NBUF == cache.bufs.Length && b < cache.NBUF && a != b
      ensures ok ==> && cache.bufs[a].locked && cache.bufs[a].valid && cache.bufs[a].dev == DISK
                     && cache.bufs[a].blockno == log && cache.bufs[a].data == cache.m.view[log]
                     && (cache.bufs[a].dirty <==> log in cache.m.pins)
      ensures ok ==> && cache.bufs[b].locked && cache.bufs[b].valid && cache.bufs[b].dev == DISK
                     && cache.bufs[b].blockno == home && cache.bufs[b].data == cache.m.view[home]
                     && (cache.bufs[b].dirty <==> home in cache.m.pins)
      ensures ok ==> cache.m == old(cache.m).(where := cache.m.where, busy := old(cache.m.busy) + {a, b},
                                               held := old(cache.m.held) + {(DISK, log), (DISK, home)})
      ensures ok && a !in old(cache.m.busy) ==> cache.bufs[a].refcnt == 1
      ensures ok && b !in old(cache.m.busy) ==> cache.bufs[b].refcnt == 1 && home !in cache.m.pins
      ensures |old(cache.m.busy)| + (if home in old(cache.m.pins) then 1 else 2) <= cache.NBUF ==> ok
      ensures (DISK, log) !in old(cache.m.where) && !HasRoom(cache.NBUF, old(cache.m)) ==> !ok
    {
      hide Cache.Valid;
      if |cache.m.busy| < cache.NBUF {
        RoomByCount(cache.NBUF, cache.m);
      }
      cache.PinsAreCached();
      ok, a := cache.Bread(DISK, log);
      if !ok { return false, a, a; }
      cache.PinsAreCached();
      if |cache.m.busy| < cache.NBUF {
        RoomByCount(cache.NBUF, cache.m);
      }
      ok, b := cache.Bread(DISK, home);
    }

    /** memmove(dst->data, src->data), bwrite(dst), brelse(src), brelse(dst). */
    method Transfer(dst: nat, src: nat)
      requires cache.Valid() && dst < cache.NBUF && src < cache.NBUF && dst != src
      requires cache.bufs[dst].locked && cache.bufs[dst].valid && cache.bufs[dst].dev == DISK
      requires cache.bufs[src].locked && cache.bufs[src].valid && cache.bufs[src].dev == DISK
      requires cache.bufs[dst].blockno != cache.bufs[src].blockno < |cache.disk|
      requires cache.bufs[src].dirty <==> cache.bufs[src].blockno in cache.m.pins
      requires cache.bufs[src].dirty || cache.bufs[src].data == cache.disk[cache.bufs[src].blockno]
      modifies cache, cache.bufs, cache.next, cache.prev
      ensures cache.Valid()
      ensures var d, s, data := old(cache.bufs[dst].blockno), old(cache.bufs[src].blockno), old(cache.bufs[src].data);
              && d < |old(cache.disk)| == |old(cache.m.view)|
              && cache.disk == old(cache.disk)[d := data]
              && cache.images == old(cache.images) + [cache.disk]
              && cache.m == old(cache.m).(view := old(cache.m.view)[d := data], busy := cache.m.busy,
                                          held := old(cache.m.held) - {(DISK, d), (DISK, s)},
                                          pins := old(cache.m.pins) - {d})
      ensures cache.m.busy <= old(cache.m.busy) + {dst, src}
      ensures old(cache.bufs[dst].refcnt) == 1 ==> dst !in cache.m.busy
      ensures old(cache.bufs[src].refcnt == 1 && !cache.bufs[src].dirty) ==> src !in cache.m.busy
    {
      hide Cache.Valid;
      cache.PinsAreCached();
      cache.Modify(dst, cache.bufs[src].data);
      cache.Bwrite(dst);
      cache.Brelse(src);
      cache.Brelse(dst);
    }

    /** The body of write_log's loop: copy a cached block into the log. */
    method LogOne(tail: nat) returns (ok: bool)
      requires Valid() && tail < |lh| && (DISK, lh[tail]) !in cache.m.held && lh[tail] in cache.m.pins
      modifies cache, cache.bufs, cache.next, cache.prev
      ensures !ok ==> cache.images == old(cache.images)
      ensures ok ==> Valid()
      ensures ok ==> cache.disk == old(cache.disk)[lay.start + tail + 1 := old(cache.m.view)[lh[tail]]]
      ensures ok ==> cache.images == old(cache.images) + [cache.disk]
      ensures ok ==> cache.m == old(cache.m).(
                         view := old(cache.m.view)[lay.start + tail + 1 := old(cache.m.view)[lh[tail]]],
                         where := cache.m.where, busy := cache.m.busy)
      ensures ok ==> cache.m.busy <= old(cache.m.busy)
      ensures |old(cache.m.busy)| < cache.NBUF ==> ok
      ensures (DISK, lay.start + tail + 1) !in old(cache.m.where) && !HasRoom(cache.NBUF, old(cache.m)) ==> !ok
    {
      hide Cache.Valid;
      var to, from;
      ok, to, from := BreadTwo(lay.start + tail + 1, lh[tail]);
      if !ok { return; }
      Transfer(to, from);
    }

    /** write_log. */
    method WriteLog() returns (ok: bool, ghost k: nat)
      requires Valid() && forall i :: 0 <= i < |lh| ==> (DISK, lh[i]) !in cache.m.held && lh[i] in cache.m.pins
      modifies cache, cache.bufs, cache.next, cache.prev
      ensures k <= |lh| && (ok ==> k == |lh|)
      ensures cache.images == old(cache.images) + LogImages(old(cache.disk), old(cache.m.view), lay, lh)[..k]
      ensures ok ==> Valid() && cache.disk == Logged(old(cache.disk), old(cache.m.view), lay, lh, |lh|)
      ensures ok ==> SameHome(cache.m.view, old(cache.m.view), lay)
      ensures ok ==> cache.m.held == old(cache.m.held) && cache.m.pins == old(cache.m.pins)
      ensures ok ==> cache.m.busy <= old(cache.m.busy)
      ensures |old(cache.m.busy)| < cache.NBUF ==> ok
      ensures lh != [] && old(Starved()) ==> !ok && k == 0
    {
      hide Cache.Valid;
      ghost var disk, view, starved := cache.disk, cache.m.view, Starved();
      ghost var imgs := LogImages(disk, view, lay, lh);
      for tail := 0 to |lh|
        invariant Valid() && lh == old(lh)
        invariant cache.disk == Logged(disk, view, lay, lh, tail)
        invariant cache.images == old(cache.images) + imgs[..tail]
        invariant SameHome(cache.m.view, view, lay)
        invariant cache.m.held == old(cache.m.held) && cache.m.pins == old(cache.m.pins)
        invariant cache.m.busy <= old(cache.m.busy)
        invariant tail == 0 ==> cache.m == old(cache.m)
        invariant tail > 0 ==> !starved
      {
        SubsetSize(cache.m.busy, old(cache.m.busy));
        ok := LogOne(tail);
        if !ok { return false, tail; }
        assert cache.disk == imgs[tail];
        assert imgs[..tail + 1] == imgs[..tail] + [imgs[tail]];
      }
      return true, |lh|;
    }

    /** The count and the block numbers, stored over the header block. */
    method EncodeHead(data: Block) returns (hb: Block)
      requires |lh| <= LOGSIZE && forall i :: 0 <= i < |lh| ==> lh[i] < 0x1_0000_0000
      ensures hb == Encoded(data, lh, |lh|)
    {
      hb := PutWord(data, 0, |lh|);
      for i := 0 to |lh|
        invariant hb == Encoded(data, lh, i)
      {
        hb := PutWord(hb, i + 1, lh[i]);
      }
    }

    /** write_head: the header block lists lh. */
    method WriteHead() returns (ok: bool)
      requires Valid()
      modifies cache, cache.bufs, cache.next, cache.prev
      ensures !ok ==> cache.images == old(cache.images)
      ensures ok ==> Valid()
      ensures ok ==> cache.disk == old(cache.disk)[lay.start := Encoded(old(cache.disk)[lay.start], lh, |lh|)]
      ensures ok ==> cache.images == old(cache.images) + [cache.disk]
      ensures ok ==> SameHome(cache.m.view, old(cache.m.view), lay)
      ensures ok ==> cache.m.held == old(cache.m.held) && cache.m.pins == old(cache.m.pins)
      ensures ok ==> cache.m.busy <= old(cache.m.busy)
      ensures HasRoom(cache.NBUF, old(cache.m)) ==> ok
    {
      hide Cache.Valid, Encoded;
      cache.PinsAreCached();
      var b;
      ok, b := cache.Bread(DISK, lay.start);
      if !ok { return; }
      var hb := EncodeHead(cache.bufs[b].data);
      cache.Modify(b, hb);
      cache.Bwrite(b);
      cache.Brelse(b);
    }

    /** The body of install_trans's loop: copy a log block to its home. */
    method InstallOne(tail: nat) returns (ok: bool)
      requires Valid() && tail < |lh| && (DISK, lh[tail]) !in cache.m.held
      modifies cache, cache.bufs, cache.next, cache.prev
      ensures !ok ==> cache.images == old(cache.images)
      ensures ok ==> Valid()
      ensures ok ==> cache.disk == old(cache.disk)[lh[tail] := old(cache.disk)[lay.start + tail + 1]]
      ensures ok ==> cache.images == old(cache.images) + [cache.disk]
      ensures ok ==> cache.m == old(cache.m).(
                         view := old(cache.m.view)[lh[tail] := old(cache.m.view)[lay.start + tail + 1]],
                         where := cache.m.where, busy := cache.m.busy, pins := old(cache.m.pins) - {lh[tail]})
      ensures ok ==> cache.m.busy <= old(cache.m.busy)
      ensures |old(cache.m.busy)| + (if lh[tail] in old(cache.m.pins) then 1 else 2) <= cache.NBUF ==> ok
    {
      hide Cache.Valid;
      var lbuf, dbuf;
      ok, lbuf, dbuf := BreadTwo(lay.start + tail + 1, lh[tail]);
      if !ok { return; }
      Transfer(dbuf, lbuf);
    }

    /** install_trans. */
    method InstallTrans() returns (ok: bool, ghost k: nat)
      requires Valid() && forall i :: 0 <= i < |lh| ==> (DISK, lh[i]) !in cache.m.held
      modifies cache, cache.bufs, cache.next, cache.prev
      ensures k <= |lh| && (ok ==> k == |lh|)
      ensures cache.images == old(cache.images) + InstallImages(old(cache.disk), lay, lh)[..k]
      ensures ok ==> Valid() && cache.disk == Installed(old(cache.disk), lay, lh, |lh|)
      ensures ok ==> cache.m.view == Installed(old(cache.m.view), lay, lh, |lh|)
      ensures ok ==> cache.m.held == old(cache.m.held)
      ensures ok ==> cache.m.pins == Minus(old(cache.m.pins), lh)
      ensures ok ==> cache.m.busy <= old(cache.m.busy)
      ensures |old(cache.m.busy)| + 2 <= cache.NBUF ==> ok
      ensures (&& Distinct(lh) && (forall i :: 0 <= i < |lh| ==> lh[i] in old(cache.m.pins))
               && |old(cache.m.busy)| < cache.NBUF) ==> ok
    {
      hide Cache.Valid, AreaQuiet, Installed, Minus, InstallImages;
      cache.PinsAreCached();
      ghost var disk := cache.disk;
      ghost var imgs := InstallImages(disk, lay, lh);
      InstallStarts(disk, cache.m.view, lay, lh, cache.m.pins);
      for tail := 0 to |lh|
        invariant Valid() && lh == old(lh)
        invariant |cache.disk| == |cache.m.view| && cache.disk == Installed(disk, lay, lh, tail)
        invariant cache.m.view == Installed(old(cache.m.view), lay, lh, tail)
        invariant cache.images == old(cache.images) + imgs[..tail]
        invariant cache.m.held == old(cache.m.held)
        invariant cache.m.pins == Minus(old(cache.m.pins), lh[..tail])
        invariant cache.m.busy <= old(cache.m.busy)
      {
        SubsetSize(cache.m.busy, old(cache.m.busy));
        MinusOne(old(cache.m.pins), lh, tail);
        InstallStep(disk, lay, lh, tail);
        InstallStep(old(cache.m.view), lay, lh, tail);
        ok := InstallOne(tail);
        if !ok { return false, tail; }
        assert cache.disk == imgs[tail];
        assert imgs[..tail + 1] == imgs[..tail] + [imgs[tail]];
      }
      assert lh[..|lh|] == lh;
      return true, |lh|;
    }

    /** read_head: lh becomes what the header block on disk lists. */
    method ReadHead() returns (ok: bool)
      requires cache.Valid() && AreaQuiet(cache.disk, cache.m) && Sound(cache.disk, lay)
      modifies this, cache, cache.bufs, cache.next, cache.prev
      ensures cache.images == old(cache.images) && cache.disk == old(cache.disk)
      ensures ok ==> Valid() && lh == Head(cache.disk[lay.start])
      ensures ok ==> cache.m == old(cache.m).(where := cache.m.where, busy := cache.m.busy)
      ensures ok ==> cache.m.busy <= old(cache.m.busy)
      ensures HasRoom(cache.NBUF, old(cache.m)) ==> ok
    {
      hide Cache.Valid;
      var b;
      ok, b := cache.Bread(DISK, lay.start);
      if !ok { return; }
      cache.PinsAreCached();
      var n := GetWord(cache.bufs[b].data, 0);
      var blocks: seq<nat> := [];
      for i := 0 to n
        invariant |blocks| == i && forall j :: 0 <= j < i ==> blocks[j] == GetWord(cache.bufs[b].data, 1 + j)
      {
        blocks := blocks + [GetWord(cache.bufs[b].data, 1 + i)];
      }
      assert blocks == Head(cache.disk[lay.start]);
      cache.Brelse(b);
      lh := blocks;
    }

    /** install_trans(); log.lh.n = 0; write_head(): how commit and recovery both end. */
    method InstallAndClear() returns (ok: bool, ghost k: nat)
      requires Valid() && forall i :: 0 <= i < |lh| ==> (DISK, lh[i]) !in cache.m.held
      modifies this, cache, cache.bufs, cache.next, cache.prev
      ensures k <= |old(lh)| + 1 && (ok ==> k == |old(lh)| + 1)
      ensures cache.images == old(cache.images) + ClearImages(old(cache.disk), lay, old(lh))[..k]
      ensures ok ==> Valid() && lh == [] && cache.disk == Cleared(old(cache.disk), lay, old(lh))
      ensures ok ==> SameHome(cache.m.view, Installed(old(cache.m.view), lay, old(lh), |old(lh)|), lay)
      ensures ok ==> cache.m.held == old(cache.m.held) && cache.m.pins == Minus(old(cache.m.pins), old(lh))
      ensures |old(cache.m.busy)| + 2 <= cache.NBUF ==> ok
      ensures (&& Distinct(old(lh)) && (forall i :: 0 <= i < |old(lh)| ==> old(lh)[i] in old(cache.m.pins))
               && |old(cache.m.busy)| < cache.NBUF) ==> ok
    {
      hide Cache.Valid, AreaQuiet;
      ghost var imgs := ClearImages(cache.disk, lay, lh);
      ghost var busy := cache.m.busy;
      ok, k := InstallTrans();
      assert imgs[..k] == InstallImages(old(cache.disk), lay, old(lh))[..k];
      if !ok { return; }
      SubsetSize(cache.m.busy, busy);
      if |cache.m.busy| < cache.NBUF {
        RoomByCount(cache.NBUF, cache.m);
      }
      InstalledKeepsLog(old(cache.disk), lay, lh, |lh|);
      lh := [];
      ok := WriteHead();
      if !ok { return; }
      k := k + 1;
      assert imgs == imgs[..k - 1] + [imgs[k - 1]];
    }

    /** recover_from_log, run at boot on any disk that a crash of commit or of recovery can leave. */
    method RecoverFromLog() returns (ok: bool, ghost k: nat)
      requires cache.Valid() && AreaQuiet(cache.disk, cache.m) && Sound(cache.disk, lay)
      requires cache.m.held == {}
      modifies this, cache, cache.bufs, cache.next, cache.prev
      ensures k <= |RecoveryImages(old(cache.disk), lay)| && (ok ==> k == |RecoveryImages(old(cache.disk), lay)|)
      ensures cache.images == old(cache.images) + RecoveryImages(old(cache.disk), lay)[..k]
      ensures ok ==> Valid() && lh == [] && cache.disk == Recovered(old(cache.disk), lay)
      ensures ok ==> cache.m.held == {}
      ensures |old(cache.m.busy)| + 2 <= cache.NBUF ==> ok
    {
      hide Cache.Valid, AreaQuiet, Loggable;
      ghost var busy := cache.m.busy;
      if |cache.m.busy| < cache.NBUF {
        RoomByCount(cache.NBUF, cache.m);
      }
      ok := ReadHead();
      if !ok { return false, 0; }
      SubsetSize(cache.m.busy, busy);
      ok, k := InstallAndClear();
    }

    /** The state commit starts from and ends in: the header on disk is empty, and exactly the
        blocks of the current transaction are pinned, none of them in use. */
    ghost predicate Quiescent()
      reads this, cache, cache.bufs, cache.next, cache.prev
    {
      && Valid() && Distinct(lh)
      && GetWord(cache.disk[lay.start], 0) == 0
      && forall i :: 0 <= i < |lh| ==> (DISK, lh[i]) !in cache.m.held && lh[i] in cache.m.pins
    }

    /** commit. Whatever write it is stopped after, the disk recovers to the old home blocks or
        to the new ones; run to its end, it leaves the new ones, with an empty log. If nobody else uses
        the first block of the log, it runs out of buffers exactly when none is free to begin with,
        and then it has written nothing; it does so when it has as many blocks as the cache. */
    method Commit() returns (ok: bool, ghost k: nat)
      requires Quiescent()
      modifies this, cache, cache.bufs, cache.next, cache.prev
      ensures k <= |CommitImages(old(cache.disk), old(cache.m.view), lay, old(lh))|
      ensures cache.images == old(cache.images) + CommitImages(old(cache.disk), old(cache.m.view), lay, old(lh))[..k]
      ensures ok ==> k == |CommitImages(old(cache.disk), old(cache.m.view), lay, old(lh))|
      ensures ok ==> Quiescent() && lh == []
      ensures ok ==> SameHome(cache.disk, NewHome(old(cache.disk), old(cache.m.view), old(lh)), lay)
      ensures ok ==> SameHome(cache.m.view, old(cache.m.view), lay)
      ensures ok ==> cache.m.held == old(cache.m.held) && cache.m.pins == Minus(old(cache.m.pins), old(lh))
      ensures |old(cache.m.busy)| < cache.NBUF ==> ok
      ensures old(lh) == [] ==> ok
      ensures old(lh) != [] && old(Unused(cache.m)) ==> (ok <==> |old(cache.m.busy)| < cache.NBUF) && (!ok ==> k == 0)
      ensures |old(lh)| == cache.NBUF > 0 ==> !ok && k == 0
    {
      hide Cache.Valid, AreaQuiet, Loggable, Installed, Logged, Encoded, Committed, LogImages, InstallImages,
           SealImages, ClearImages;
      if lh == [] {
        return true, 0;
      }
      WhenStarved();
      ok, k := CommitBlocks();
    }

    /** Nobody has a reference to the first block of the log. */
    ghost predicate Unused(m: Book) {
      (DISK, lay.start + 1) in m.where ==> m.where[(DISK, lay.start + 1)] !in m.busy
    }

    lemma WhenStarved()
      requires Quiescent()
      ensures Unused(cache.m) ==> (Starved() <==> |cache.m.busy| >= cache.NBUF)
      ensures |lh| == cache.NBUF > 0 ==> Starved()
    {
      hide Linked, Covers, Ordered, Coherent, HasRoom, AreaQuiet, Distinct;
      StarvedWhen(cache.bufs[..], cache.disk, cache.m, lh, lay.start + 1);
    }

    /** commit, when there is something to commit. */
    method CommitBlocks() returns (ok: bool, ghost k: nat)
      requires Quiescent() && lh != []
      modifies this, cache, cache.bufs, cache.next, cache.prev
      ensures k <= |CommitImages(old(cache.disk), old(cache.m.view), lay, old(lh))|
      ensures cache.images == old(cache.images) + CommitImages(old(cache.disk), old(cache.m.view), lay, old(lh))[..k]
      ensures ok ==> k == |CommitImages(old(cache.disk), old(cache.m.view), lay, old(lh))|
      ensures ok ==> Quiescent() && lh == []
      ensures ok ==> SameHome(cache.disk, NewHome(old(cache.disk), old(cache.m.view), old(lh)), lay)
      ensures ok ==> SameHome(cache.m.view, old(cache.m.view), lay)
      ensures ok ==> cache.m.held == old(cache.m.held) && cache.m.pins == Minus(old(cache.m.pins), old(lh))
      ensures |old(cache.m.busy)| < cache.NBUF ==> ok
      ensures old(Starved()) ==> !ok && k == 0
    {
      hide Cache.Valid, AreaQuiet, Loggable, Installed, Logged, Encoded, Committed, LogImages, InstallImages,
           SealImages, ClearImages, NewHome;
      cache.PinsAreCached();
      ghost var disk, view, blocks, busy := cache.disk, cache.m.view, lh, cache.m.busy;
      ghost var seal, clear := SealImages(disk, view, lay, blocks),
                               ClearImages(Committed(disk, view, lay, blocks), lay, blocks);
      ok, k := Seal();
      Prefixes(seal, clear, k);
      if !ok { return; }
      SubsetSize(cache.m.busy, busy);
      ghost var j;
      ok, j := InstallAndClear();
      Prefixes(seal, clear, k + j);
      k := k + j;
      CommitFinishes(disk, view, lay, blocks);
    }

    /** The first half of commit, up to and including the commit point. */
    method Seal() returns (ok: bool, ghost k: nat)
      requires Quiescent()
      modifies cache, cache.bufs, cache.next, cache.prev
      ensures k <= |lh| + 1 && (ok ==> k == |lh| + 1)
      ensures cache.images == old(cache.images) + SealImages(old(cache.disk), old(cache.m.view), lay, lh)[..k]
      ensures ok ==> Valid() && cache.disk == Committed(old(cache.disk), old(cache.m.view), lay, lh)
      ensures ok ==> SameHome(cache.m.view, old(cache.m.view), lay)
      ensures ok ==> Installed(cache.m.view, lay, lh, |lh|) == cache.m.view
      ensures ok ==> cache.m.held == old(cache.m.held) && cache.m.pins == old(cache.m.pins)
      ensures ok ==> cache.m.busy <= old(cache.m.busy)
      ensures |old(cache.m.busy)| < cache.NBUF ==> ok
      ensures lh != [] && old(Starved()) ==> !ok && k == 0
    {
      hide Cache.Valid, Logged, Encoded, Installed;
      ghost var disk, view, busy := cache.disk, cache.m.view, cache.m.busy;
      ok, k := WriteLog();
      Prefixes(LogImages(disk, view, lay, lh), [Committed(disk, view, lay, lh)], k);
      if !ok { return; }
      SubsetSize(cache.m.busy, busy);
      if |busy| < cache.NBUF {
        RoomByCount(cache.NBUF, cache.m);
      }
      ok := WriteHead();
      if !ok { return; }
      k := k + 1;
      assert cache.disk == Committed(disk, view, lay, lh);
      InstallSame(cache.m.view, lay, lh, |lh|);
    }

    /** log_write on a held buffer, when no other call overlaps it: its block is listed once, however
        often it is written, and stays in the cache. The source panics when ok is false. */
    method LogWrite(b: nat) returns (ok: bool)
      requires cache.Valid() && Valid() && b < cache.NBUF
      requires cache.bufs[b].locked && cache.bufs[b].valid && cache.bufs[b].dev == DISK
      requires cache.bufs[b].blockno < |cache.disk| && !lay.InLog(cache.bufs[b].blockno)
      modifies this`lh, cache, cache.bufs
      ensures ok <==> |old(lh)| < LOGSIZE && |old(lh)| < lay.size - 1 && outstanding >= 1
      ensures !ok ==> lh == old(lh) && cache.m == old(cache.m)
      ensures Valid()
      ensures cache.disk == old(cache.disk) && cache.images == old(cache.images)
      ensures var blk := old(cache.bufs[b].blockno);
              ok ==> && lh == (if blk in old(lh) then old(lh) else old(lh) + [blk])
                     && cache.m == old(cache.m).(pins := old(cache.m.pins) + {blk})
                     && cache.bufs[..] == old(cache.bufs[..])[b := old(cache.bufs[b]).(dirty := true)]
      ensures old(Distinct(lh)) ==> Distinct(lh)
    {
      hide Cache.Valid;
      if |lh| >= LOGSIZE || |lh| >= lay.size - 1 {
        return false;
      }
      if outstanding < 1 {
        return false;
      }
      cache.PinsAreCached();
      var i := 0;
      while i < |lh| && lh[i] != cache.bufs[b].blockno
        invariant 0 <= i <= |lh| && cache.bufs[b].blockno !in lh[..i]
      {
        i := i + 1;
      }
      if i == |lh| {
        lh := lh + [cache.bufs[b].blockno];
      } else {
        lh := lh[i := cache.bufs[b].blockno];
      }
      cache.Pin(b);
      ok := true;
    }
  }
}
