/** The buffer cache of bio.c: NBUF buffers on one doubly linked ring in order of last
    release, over a disk with atomic block writes (memide.c).

    Operations are the critical sections of the source, so any interleaving of processes
    is a sequence of calls: a process takes a reference (Bget), then owns the buffer's
    sleep lock (Lock), then reads, modifies, writes or releases the buffer. */
module BufferCache {
  import opened Prelude
  import opened Blocks

  /** struct buf without its two links, which are kept in arrays of their own. */
  datatype Buf = Buf(valid: bool, dirty: bool, dev: nat, blockno: nat,
                     locked: bool, refcnt: nat, data: Block)

  /** The one device that iderw serves. */
  const DISK: nat := 1

  /** May bget recycle this buffer? */
  predicate Recyclable(b: Buf) {
    b.refcnt == 0 && !b.dirty
  }

  // ----- The ring -----

  function Succ(i: nat, n: nat): nat
    requires i < n
  {
    if i + 1 < n then i + 1 else 0
  }

  function Pred(i: nat, n: nat): nat
    requires i < n
  {
    if i == 0 then n - 1 else i - 1
  }

  ghost predicate DistinctBelow(ring: seq<nat>, bound: nat)
  {
    && (forall i :: 0 <= i < |ring| ==> ring[i] < bound)
    && (forall i, j :: 0 <= i < j < |ring| ==> ring[i] != ring[j])
  }

  ghost predicate Covers(ring: seq<nat>, n: nat)
  {
    forall k :: 0 <= k <= n ==> k in ring
  }

  /** After the head, the ring runs from the most to the least recently released buffer. */
  ghost predicate Ordered(ring: seq<nat>, stamp: seq<nat>, clock: nat)
    requires DistinctBelow(ring, |stamp|) && 0 < |ring|
  {
    && (forall i, j :: 1 <= i < j < |ring| ==> stamp[ring[i]] > stamp[ring[j]])
    && (forall k :: 0 <= k < |stamp| && k != ring[0] ==> stamp[k] < clock)
  }

  lemma MovedIsOrdered(ring: seq<nat>, k: nat, stamp: seq<nat>, clock: nat)
    requires 1 <= k < |ring| && DistinctBelow(ring, |stamp|) && Ordered(ring, stamp, clock)
    ensures var ring' := [ring[0], ring[k]] + Without(ring, k)[1..];
            DistinctBelow(ring', |stamp|) && Ordered(ring', stamp[ring[k] := clock], clock + 1)
  {
    var ring' := [ring[0], ring[k]] + Without(ring, k)[1..];
    forall i | 0 <= i < |ring|
      ensures ring'[i] == ring[if i == 1 then k else if 2 <= i <= k then i - 1 else i]
    {
    }
  }

  lemma MovedCovers(ring: seq<nat>, k: nat, n: nat)
    requires Covers(ring, n) && 1 <= k < |ring|
    ensures ring[k] !in Without(ring, k) <==> forall i :: 0 <= i < |ring| && i != k ==> ring[i] != ring[k]
    ensures Covers([ring[0], ring[k]] + Without(ring, k)[1..], n)
  {
    var rest := Without(ring, k);
    var ring' := [ring[0], ring[k]] + rest[1..];
    forall i | 0 <= i < |ring| && i != k ensures ring[i] in rest {
      assert rest[if i < k then i else i - 1] == ring[i];
    }
    forall x | 0 <= x <= n ensures x in ring' {
      assert x in ring;
      var i :| 0 <= i < |ring| && ring[i] == x;
      assert ring'[if i == 0 then 0 else if i == k then 1 else if i < k then i + 1 else i] == x;
    }
  }

  /** The ring after binit has pushed the first b of n buffers. */
  ghost function Stacked(n: nat, b: nat): (ring: seq<nat>)
    requires b <= n
    ensures |ring| == b + 1 && ring[0] == n && forall i :: 1 <= i <= b ==> ring[i] == b - i
  {
    [n] + seq(b, i requires 0 <= i < b => (b - 1 - i) as nat)
  }

  lemma StackedIsOrdered(n: nat)
    ensures Covers(Stacked(n, n), n)
    ensures DistinctBelow(Stacked(n, n), n + 1)
    ensures Ordered(Stacked(n, n), seq(n + 1, k => k), n)
  {
    forall k | 0 <= k <= n ensures k in Stacked(n, n) {
      assert Stacked(n, n)[n - k] == k || k == n;
    }
  }

  /** next[x] is the ring successor of x for every x on the ring. */
  ghost predicate StepsForward(next: seq<nat>, ring: seq<nat>)
    requires DistinctBelow(ring, |next|)
  {
    forall i :: 0 <= i < |ring| ==> next[ring[i]] == ring[Succ(i, |ring|)]
  }

  ghost predicate StepsBack(prev: seq<nat>, ring: seq<nat>)
    requires DistinctBelow(ring, |prev|)
  {
    forall i :: 0 <= i < |ring| ==> prev[ring[i]] == ring[Pred(i, |ring|)]
  }

  /** ring lists distinct buffers, and next and prev step through it in the two directions. */
  ghost predicate Linked(next: seq<nat>, prev: seq<nat>, ring: seq<nat>)
  {
    && |next| == |prev| && 0 < |ring|
    && DistinctBelow(ring, |next|) && StepsForward(next, ring) && StepsBack(prev, ring)
  }

  lemma UnlinkForward(next: seq<nat>, ring: seq<nat>, k: nat)
    requires DistinctBelow(ring, |next|) && StepsForward(next, ring) && 1 <= k < |ring|
    ensures DistinctBelow(Without(ring, k), |next|)
    ensures StepsForward(next[ring[Pred(k, |ring|)] := next[ring[k]]], Without(ring, k))
  {
    var n, rest := |ring|, Without(ring, k);
    var next' := next[ring[Pred(k, n)] := next[ring[k]]];
    forall i | 0 <= i < |rest|
      ensures next'[rest[i]] == rest[Succ(i, |rest|)]
    {
      if i == k - 1 {
        assert rest[i] == ring[Pred(k, n)];
      } else {
        var j := if i < k then i else i + 1;
        assert rest[i] == ring[j] && next'[ring[j]] == next[ring[j]];
      }
    }
  }

  lemma UnlinkBack(prev: seq<nat>, ring: seq<nat>, k: nat)
    requires DistinctBelow(ring, |prev|) && StepsBack(prev, ring) && 1 <= k < |ring|
    ensures DistinctBelow(Without(ring, k), |prev|)
    ensures StepsBack(prev[ring[Succ(k, |ring|)] := prev[ring[k]]], Without(ring, k))
  {
    var n, rest := |ring|, Without(ring, k);
    var prev' := prev[ring[Succ(k, n)] := prev[ring[k]]];
    forall i | 0 <= i < |rest|
      ensures prev'[rest[i]] == rest[Pred(i, |rest|)]
    {
      if i == (if k + 1 < n then k else 0) {
        assert rest[i] == ring[Succ(k, n)];
      } else {
        var j := if i < k then i else i + 1;
        assert rest[i] == ring[j] && prev'[ring[j]] == prev[ring[j]];
      }
    }
  }

  lemma UnlinkKeepsRing(next: seq<nat>, prev: seq<nat>, ring: seq<nat>, k: nat)
    requires Linked(next, prev, ring) && 1 <= k < |ring|
    ensures next[ring[k]] < |next| && prev[ring[k]] < |prev|
    ensures Linked(next[prev[ring[k]] := next[ring[k]]], prev[next[ring[k]] := prev[ring[k]]], Without(ring, k))
  {
    UnlinkForward(next, ring, k);
    UnlinkBack(prev, ring, k);
    assert next[ring[k]] == ring[Succ(k, |ring|)] && prev[ring[k]] == ring[Pred(k, |ring|)];
  }

  lemma PushFrontKeepsRing(next: seq<nat>, prev: seq<nat>, ring: seq<nat>, b: nat)
    requires Linked(next, prev, ring) && b < |next| && b !in ring
    ensures next[ring[0]] < |next|
    ensures Linked(next[b := next[ring[0]]][ring[0] := b], prev[b := ring[0]][next[ring[0]] := b],
                   [ring[0], b] + ring[1..])
  {
    var n := |ring|;
    var head := ring[0];
    assert next[head] == ring[Succ(0, n)];
    var next', prev' := next[b := next[head]][head := b], prev[b := head][next[head] := b];
    var more := [head, b] + ring[1..];
    forall i | 0 <= i < |more|
      ensures next'[more[i]] == more[Succ(i, |more|)]
    {
      if i > 1 {
        assert more[i] == ring[i - 1] && next[ring[i - 1]] == ring[Succ(i - 1, n)];
      }
    }
    forall i | 0 <= i < |more|
      ensures prev'[more[i]] == more[Pred(i, |more|)]
    {
      if i != 1 {
        var j := if i == 0 then 0 else i - 1;
        assert more[i] == ring[j] && prev[ring[j]] == ring[Pred(j, n)];
      }
    }
  }

  // ----- Contents -----

  /** The abstract state of the cache.
      view:  the latest contents of every block, which is what a reader must see;
      where: the buffer of each cached (dev, blockno);
      held:  the (dev, blockno) whose buffer someone holds;
      pins:  the blocks whose buffer is B_DIRTY, kept until the log has written it;
      busy:  the buffers that may not be recycled. */
  datatype Book = Book(view: Image, where: map<(nat, nat), nat>, held: set<(nat, nat)>, pins: set<nat>, busy: set<nat>)

  /** What buffer k promises: its label leads back to it, so no block has two buffers; if valid
      it holds the latest contents of its block; and if nobody holds or pins it, it agrees
      with the disk. */
  ghost predicate Faithful(k: nat, b: Buf, disk: Image, m: Book)
    requires |m.view| == |disk|
  {
    && (b.dev >= 1 ==> (b.dev, b.blockno) in m.where && m.where[(b.dev, b.blockno)] == k)
    && (b.locked ==> b.refcnt > 0)
    && (b.dirty ==> b.valid)
    && (b.valid ==>
          && b.dev == DISK && b.blockno < |disk|
          && b.data == m.view[b.blockno]
          && (!b.locked && !b.dirty ==> b.data == disk[b.blockno]))
    && (b.dev >= 1 ==> (b.locked <==> (b.dev, b.blockno) in m.held))
    && (b.dev == DISK ==> (b.dirty <==> b.blockno in m.pins))
    && (Recyclable(b) <==> k !in m.busy)
  }

  ghost predicate Coherent(bufs: seq<Buf>, disk: Image, m: Book)
  {
    && |m.view| == |disk|
    && (forall k :: 0 <= k < |bufs| ==> Faithful(k, bufs[k], disk, m))
    && (forall key :: key in m.where ==>
          && m.where[key] < |bufs| && key.0 >= 1
          && (bufs[m.where[key]].dev, bufs[m.where[key]].blockno) == key)
    && (forall key :: key in m.held ==> key in m.where)
    && (forall blk :: blk in m.pins ==> (DISK, blk) in m.where)
    && (forall k :: k in m.busy ==> k < |bufs|)
    && (forall blk :: 0 <= blk < |disk| && m.view[blk] != disk[blk] ==>
          (DISK, blk) in m.where && bufs[m.where[(DISK, blk)]].valid)
  }

  /** Is there a buffer that may be recycled? */
  ghost predicate HasRoom(n: nat, m: Book)
  {
    exists k :: 0 <= k < n && k !in m.busy
  }

  lemma {:induction false} FreeIndex(n: nat, used: set<nat>) returns (k: nat)
    requires |used| < n
    ensures k < n && k !in used
  {
    if n - 1 in used {
      k := FreeIndex(n - 1, used - {n - 1});
    } else {
      k := n - 1;
    }
  }

  /** Fewer busy buffers than buffers leave one to recycle. */
  lemma RoomByCount(n: nat, m: Book)
    requires |m.busy| < n
    ensures HasRoom(n, m)
  {
    var k := FreeIndex(n, m.busy);
  }

  ghost function Toggle<T>(s: set<T>, x: T, on: bool): set<T>
  {
    if on then s + {x} else s - {x}
  }

  /** The book after buffer k became nb under the same label. */
  ghost function Rebook(m: Book, k: nat, nb: Buf): Book
  {
    m.(held := if nb.dev >= 1 then Toggle(m.held, (nb.dev, nb.blockno), nb.locked) else m.held,
       pins := if nb.dev == DISK then Toggle(m.pins, nb.blockno, nb.dirty) else m.pins,
       busy := Toggle(m.busy, k, !Recyclable(nb)))
  }

  /** What a buffer may become without the disk or the latest contents changing. */
  ghost predicate MayBecome(b: Buf, nb: Buf, disk: Image, m: Book)
    requires |m.view| == |disk|
  {
    && nb.dev == b.dev && nb.blockno == b.blockno
    && (nb.locked ==> nb.refcnt > 0)
    && (nb.dirty ==> nb.valid) && (b.valid ==> nb.valid)
    && (nb.valid ==>
          && nb.dev == DISK && nb.blockno < |disk| && nb.data == m.view[nb.blockno]
          && (!nb.locked && !nb.dirty ==> nb.data == disk[nb.blockno]))
  }

  lemma UpdateKeepsCoherent(bufs: seq<Buf>, disk: Image, m: Book, b: nat, nb: Buf)
    requires Coherent(bufs, disk, m) && b < |bufs| && MayBecome(bufs[b], nb, disk, m)
    ensures Coherent(bufs[b := nb], disk, Rebook(m, b, nb))
  {
    assert Faithful(b, bufs[b], disk, m);
    forall k | 0 <= k < |bufs| && k != b ensures Faithful(k, bufs[k], disk, Rebook(m, b, nb)) {
      assert Faithful(k, bufs[k], disk, m);
    }
  }

  function Recycled(b: Buf, dev: nat, blockno: nat): Buf {
    b.(dev := dev, blockno := blockno, valid := false, dirty := false, refcnt := 1)
  }

  ghost function Relabel(m: Book, b: nat, dev: nat, blockno: nat): Book
  {
    m.(where := (map key | key in m.where && m.where[key] != b :: m.where[key])[(dev, blockno) := b],
       busy := m.busy + {b})
  }

  /** Recycling loses nothing: the victim agrees with the disk. */
  lemma RecycleKeepsCoherent(bufs: seq<Buf>, disk: Image, m: Book, b: nat, dev: nat, blockno: nat)
    requires Coherent(bufs, disk, m) && b < |bufs| && Recyclable(bufs[b])
    requires dev >= 1 && (dev, blockno) !in m.where
    ensures Coherent(bufs[b := Recycled(bufs[b], dev, blockno)], disk, Relabel(m, b, dev, blockno))
  {
    assert Faithful(b, bufs[b], disk, m);
    forall k | 0 <= k < |bufs| && k != b ensures Faithful(k, bufs[k], disk, Relabel(m, b, dev, blockno)) {
      assert Faithful(k, bufs[k], disk, m);
    }
  }

  /** The holder of a lock changes its buffer; the disk lags behind until it is written. */
  lemma ModifyKeepsCoherent(bufs: seq<Buf>, disk: Image, m: Book, b: nat, data: Block)
    requires Coherent(bufs, disk, m) && b < |bufs| && bufs[b].locked && bufs[b].valid
    ensures bufs[b].blockno < |disk|
    ensures Coherent(bufs[b := bufs[b].(data := data)], disk, m.(view := m.view[bufs[b].blockno := data]))
  {
    assert Faithful(b, bufs[b], disk, m);
    var m' := m.(view := m.view[bufs[b].blockno := data]);
    forall k | 0 <= k < |bufs| && k != b ensures Faithful(k, bufs[k], disk, m') {
      assert Faithful(k, bufs[k], disk, m);
    }
  }

  /** Writing a held buffer brings the disk up to date with it. */
  lemma WriteKeepsCoherent(bufs: seq<Buf>, disk: Image, m: Book, b: nat)
    requires Coherent(bufs, disk, m) && b < |bufs| && bufs[b].locked && bufs[b].valid
    ensures bufs[b].blockno < |disk|
    ensures Coherent(bufs[b := bufs[b].(dirty := false)], disk[bufs[b].blockno := bufs[b].data],
                     m.(pins := m.pins - {bufs[b].blockno}))
  {
    assert Faithful(b, bufs[b], disk, m);
    var disk' := disk[bufs[b].blockno := bufs[b].data];
    var m' := m.(pins := m.pins - {bufs[b].blockno});
    forall k | 0 <= k < |bufs| && k != b ensures Faithful(k, bufs[k], disk', m') {
      assert Faithful(k, bufs[k], disk, m);
    }
  }

  class Cache {
    const NBUF: nat
    const bufs: array<Buf>
    const next: array<nat>
    const prev: array<nat>
    var disk: Image

    /** Every image the disk has held, one per block write. */
    ghost var images: seq<Image>
    ghost var m: Book
    /** The buffers in next order from the head, and when each was last released. */
    ghost var ring: seq<nat>
    ghost var stamp: seq<nat>
    ghost var clock: nat

    ghost predicate RingOk()
      reads this, next, prev
    {
      && next.Length == prev.Length == |ring| == |stamp| == NBUF + 1
      && next != prev
      && Linked(next[..], prev[..], ring)
      && ring[0] == NBUF
      && Covers(ring, NBUF)
      && Ordered(ring, stamp, clock)
    }

    ghost predicate Valid()
      reads this, bufs, next, prev
    {
      && bufs.Length == NBUF
      && RingOk()
      && Coherent(bufs[..], disk, m)
    }

    /** Pinned blocks stay in the cache. */
    lemma PinsAreCached()
      requires Valid()
      ensures bufs.Length == NBUF && |m.view| == |disk|
      ensures forall blk :: blk in m.pins ==> (DISK, blk) in m.where
    {
    }

    /** binit: every buffer is pushed at the front of a ring that starts as the head alone. */
    constructor (n: nat, image: Image)
      ensures Valid() && NBUF == n && fresh(bufs) && fresh(next) && fresh(prev)
      ensures disk == image && images == [] && m == Book(image, map[], {}, {}, {})
    {
      NBUF := n;
      bufs := new Buf[n](_ => Buf(false, false, 0, 0, false, 0, ZeroBlock()));
      next := new nat[n + 1](_ => n);
      prev := new nat[n + 1](_ => n);
      disk, images, m := image, [], Book(image, map[], {}, {}, {});
      ring, stamp, clock := Stacked(n, n), seq(n + 1, k => k), n;
      new;
      LinkAll();
      StackedIsOrdered(n);
    }

    /** binit's loop. */
    method LinkAll()
      requires next != prev && next.Length == prev.Length == NBUF + 1 && next[NBUF] == prev[NBUF] == NBUF
      modifies next, prev
      ensures Linked(next[..], prev[..], Stacked(NBUF, NBUF))
    {
      for b := 0 to NBUF
        invariant Linked(next[..], prev[..], Stacked(NBUF, b))
      {
        assert b !in Stacked(NBUF, b);
        PutFirst(b, Stacked(NBUF, b));
        assert [NBUF, b] + Stacked(NBUF, b)[1..] == Stacked(NBUF, b + 1);
      }
    }

    /** bget's first loop: the buffer labelled (dev, blockno), if any. */
    method FindCached(dev: nat, blockno: nat) returns (b: nat)
      requires Valid() && dev >= 1
      ensures b == if (dev, blockno) in m.where then m.where[(dev, blockno)] else NBUF
    {
      b := next[NBUF];
      ghost var i := 1;
      assert next[..][ring[0]] == ring[Succ(0, |ring|)];
      while b != NBUF
        invariant 1 <= i <= NBUF + 1
        invariant b == if i <= NBUF then ring[i] else NBUF
        invariant forall j :: 1 <= j < i ==> (bufs[ring[j]].dev, bufs[ring[j]].blockno) != (dev, blockno)
        decreases NBUF + 1 - i
      {
        assert b == ring[i] != ring[0];
        if bufs[b].dev == dev && bufs[b].blockno == blockno {
          assert Faithful(b, bufs[b], disk, m);
          return;
        }
        assert next[..][ring[i]] == ring[Succ(i, |ring|)];
        b := next[b];
        i := i + 1;
      }
      forall k | 0 <= k < NBUF
        ensures (bufs[k].dev, bufs[k].blockno) != (dev, blockno)
      {
        assert k in ring;
      }
    }

    /** bget's second loop: the least recently released buffer that may be recycled. */
    method FindVictim() returns (b: nat)
      requires Valid()
      ensures b <= NBUF && (b < NBUF <==> HasRoom(NBUF, m))
      ensures b < NBUF ==> Recyclable(bufs[b]) && b !in m.busy
      ensures b < NBUF ==> forall k :: 0 <= k < NBUF && k !in m.busy ==> stamp[b] <= stamp[k]
    {
      ghost var n := NBUF + 1;
      ghost var i := NBUF;
      b := prev[NBUF];
      assert prev[..][ring[0]] == ring[Pred(0, n)];
      while b != NBUF
        invariant 0 <= i <= NBUF && b == ring[i] <= NBUF
        invariant forall j :: i < j <= NBUF ==> !Recyclable(bufs[ring[j]])
        decreases i
      {
        assert b != ring[0] || i == 0;
        if bufs[b].refcnt == 0 && !bufs[b].dirty {
          assert Faithful(b, bufs[b], disk, m);
          forall k | 0 <= k < NBUF && k !in m.busy ensures stamp[b] <= stamp[k] {
            assert Faithful(k, bufs[k], disk, m);
            assert k in ring;
          }
          return;
        }
        assert prev[..][ring[i]] == ring[Pred(i, n)];
        b := prev[b];
        i := i - 1;
      }
      forall k | 0 <= k < NBUF ensures k in m.busy {
        assert Faithful(k, bufs[k], disk, m);
        assert k in ring;
      }
    }

    /** bget up to the sleep lock: takes a reference to the buffer of (dev, blockno), recycling
        the least recently released free buffer if the block is not cached. The source
        panics when ok is false. */
    method Bget(dev: nat, blockno: nat) returns (ok: bool, b: nat)
      requires Valid() && dev >= 1
      modifies this`m, bufs
      ensures Valid()
      ensures ok <==> (dev, blockno) in old(m.where) || HasRoom(NBUF, old(m))
      ensures !ok ==> bufs[..] == old(bufs[..]) && m == old(m)
      ensures ok ==> b < NBUF && (dev, blockno) in m.where && m.where[(dev, blockno)] == b
      ensures ok ==> m == old(m).(where := m.where, busy := old(m.busy) + {b})
      ensures (dev, blockno) in old(m.where) ==>
                && m.where == old(m.where)
                && bufs[..] == old(bufs[..])[b := old(bufs[b]).(refcnt := old(bufs[b].refcnt) + 1)]
      ensures ok && (dev, blockno) !in old(m.where) ==>
                && bufs[..] == old(bufs[..])[b := Recycled(old(bufs[b]), dev, blockno)]
                && b !in old(m.busy)
                && forall k :: 0 <= k < NBUF && k !in old(m.busy) ==> stamp[b] <= stamp[k]
    {
      hide Linked, Covers, Ordered;
      b := FindCached(dev, blockno);
      if b < NBUF {
        assert Faithful(b, bufs[b], disk, m);
        Update(b, bufs[b].(refcnt := bufs[b].refcnt + 1));
        return true, b;
      }
      b := FindVictim();
      if b == NBUF {
        return false, b;
      }
      Recycle(b, dev, blockno);
      ok := true;
    }

    method Recycle(b: nat, dev: nat, blockno: nat)
      requires Valid() && b < NBUF && Recyclable(bufs[b]) && dev >= 1 && (dev, blockno) !in m.where
      modifies this`m, bufs
      ensures Valid() && m == Relabel(old(m), b, dev, blockno)
      ensures bufs[..] == old(bufs[..])[b := Recycled(old(bufs[b]), dev, blockno)]
    {
      RecycleKeepsCoherent(bufs[..], disk, m, b, dev, blockno);
      ghost var expected := bufs[..][b := Recycled(bufs[b], dev, blockno)];
      m := Relabel(m, b, dev, blockno);
      bufs[b] := Recycled(bufs[b], dev, blockno);
      assert bufs[..] == expected;
    }

    method Update(b: nat, nb: Buf)
      requires Valid() && b < NBUF && MayBecome(bufs[b], nb, disk, m)
      modifies this`m, bufs
      ensures Valid() && bufs[..] == old(bufs[..])[b := nb] && m == Rebook(old(m), b, nb)
    {
      UpdateKeepsCoherent(bufs[..], disk, m, b, nb);
      ghost var expected := bufs[..][b := nb];
      m := Rebook(m, b, nb);
      bufs[b] := nb;
      assert bufs[..] == expected;
    }

    /** The read half of iderw; the source panics when ok is false. */
    method Fill(b: nat) returns (ok: bool)
      requires Valid() && b < NBUF && bufs[b].locked && bufs[b].dev >= 1
      modifies this`m, bufs
      ensures Valid() && m == old(m)
      ensures ok <==> old(bufs[b].dev == DISK && bufs[b].blockno < |disk|)
      ensures ok ==> bufs[b] == old(bufs[b]).(valid := true, data := m.view[bufs[b].blockno])
      ensures forall k :: 0 <= k < NBUF && k != b ==> bufs[k] == old(bufs[k])
    {
      assert Faithful(b, bufs[b], disk, m);
      if bufs[b].valid {
        return true;
      }
      if bufs[b].dev != DISK || bufs[b].blockno >= |disk| {
        return false;
      }
      Update(b, bufs[b].(data := disk[bufs[b].blockno], valid := true));
      ok := true;
    }

    /** bread, called once the block's sleep lock can be had: the caller then holds the buffer,
        and the buffer has the latest contents whatever was recycled since they were written. */
    method Bread(dev: nat, blockno: nat) returns (ok: bool, b: nat)
      requires Valid() && dev >= 1
      requires (dev, blockno) !in m.held
      modifies this`m, bufs
      ensures Valid()
      ensures ok <==> && dev == DISK && blockno < |disk|
                      && ((dev, blockno) in old(m.where) || HasRoom(NBUF, old(m)))
      ensures ok ==> b < NBUF && (dev, blockno) in m.where && m.where[(dev, blockno)] == b
      ensures ok ==> bufs[b].locked && bufs[b].valid && bufs[b].dev == dev && bufs[b].blockno == blockno
      ensures ok ==> bufs[b].data == m.view[blockno] && (bufs[b].dirty <==> blockno in m.pins)
      ensures ok ==> !old(bufs[b].locked)
      ensures ok && b !in old(m.busy) ==> bufs[b].refcnt == 1 && blockno !in m.pins
      ensures ok ==> m == old(m).(where := m.where, held := old(m.held) + {(dev, blockno)}, busy := old(m.busy) + {b})
      ensures ok && (dev, blockno) in old(m.where) ==> m.where == old(m.where)
      ensures ok ==> forall k :: 0 <= k < NBUF && k != b ==> bufs[k] == old(bufs[k])
    {
      hide Linked, Covers, Ordered;
      ok, b := Bget(dev, blockno);
      if !ok {
        return;
      }
      assert Faithful(b, bufs[b], disk, m);
      Lock(b);
      ok := Fill(b);
    }

    /** acquiresleep on a buffer whose lock is free, by a process that has a reference. */
    method Lock(b: nat)
      requires Valid() && b < NBUF && bufs[b].refcnt > 0 && !bufs[b].locked && bufs[b].dev >= 1
      modifies this`m, bufs
      ensures Valid() && bufs[..] == old(bufs[..])[b := old(bufs[b]).(locked := true)]
      ensures m == old(m).(held := old(m.held) + {(bufs[b].dev, bufs[b].blockno)})
    {
      assert Faithful(b, bufs[b], disk, m);
      Update(b, bufs[b].(locked := true));
    }

    /** The holder of a buffer overwrites its data. */
    method Modify(b: nat, data: Block)
      requires Valid() && b < NBUF && bufs[b].locked && bufs[b].valid
      modifies this`m, bufs
      ensures Valid()
      ensures bufs[..] == old(bufs[..])[b := old(bufs[b]).(data := data)]
      ensures bufs[b].blockno < |old(m.view)| && m == old(m).(view := old(m.view)[bufs[b].blockno := data])
    {
      ModifyKeepsCoherent(bufs[..], disk, m, b, data);
      ghost var expected := bufs[..][b := bufs[b].(data := data)];
      m := m.(view := m.view[bufs[b].blockno := data]);
      bufs[b] := bufs[b].(data := data);
      assert bufs[..] == expected;
    }

    /** log_write's B_DIRTY: the buffer may not be recycled before the log has written it. */
    method Pin(b: nat)
      requires Valid() && b < NBUF && bufs[b].locked && bufs[b].valid
      modifies this`m, bufs
      ensures Valid()
      ensures bufs[..] == old(bufs[..])[b := old(bufs[b]).(dirty := true)]
      ensures m == old(m).(pins := old(m.pins) + {bufs[b].blockno})
    {
      assert Faithful(b, bufs[b], disk, m);
      Update(b, bufs[b].(dirty := true));
    }

    /** bwrite: one atomic block write, which also unpins the buffer. */
    method Bwrite(b: nat)
      requires Valid() && b < NBUF && bufs[b].locked && bufs[b].valid
      modifies this`disk, this`images, this`m, bufs
      ensures Valid()
      ensures bufs[..] == old(bufs[..])[b := old(bufs[b]).(dirty := false)]
      ensures bufs[b].blockno < |old(disk)| && disk == old(disk)[bufs[b].blockno := bufs[b].data]
      ensures images == old(images) + [disk]
      ensures m == old(m).(pins := old(m.pins) - {bufs[b].blockno})
    {
      WriteKeepsCoherent(bufs[..], disk, m, b);
      ghost var expected := bufs[..][b := bufs[b].(dirty := false)];
      disk := disk[bufs[b].blockno := bufs[b].data];
      images := images + [disk];
      m := m.(pins := m.pins - {bufs[b].blockno});
      bufs[b] := bufs[b].(dirty := false);
      assert bufs[..] == expected;
    }

    /** brelse: gives the lock and the reference back; with the last reference the buffer
        becomes the most recently released one. The holder must have handed every change to
        bwrite or to the log. */
    method Brelse(b: nat)
      requires Valid() && b < NBUF && bufs[b].locked && bufs[b].valid
      requires bufs[b].dirty || bufs[b].data == disk[bufs[b].blockno]
      modifies this`m, this`ring, this`stamp, this`clock, bufs, next, prev
      ensures Valid()
      ensures bufs[..] == old(bufs[..])[b := old(bufs[b]).(locked := false, refcnt := old(bufs[b].refcnt) - 1)]
      ensures m == Rebook(old(m), b, bufs[b])
      ensures bufs[b].refcnt > 0 ==> ring == old(ring) && stamp == old(stamp)
      ensures bufs[b].refcnt == 0 ==>
                forall k :: 0 <= k < NBUF && k != b ==> stamp[k] == old(stamp[k]) < stamp[b]
    {
      assert Faithful(b, bufs[b], disk, m);
      Update(b, bufs[b].(locked := false, refcnt := bufs[b].refcnt - 1));
      if bufs[b].refcnt == 0 {
        MoveToFront(b);
      }
    }

    /** brelse's pointer surgery. */
    method MoveToFront(b: nat)
      requires Valid() && b < NBUF
      modifies this`ring, this`stamp, this`clock, next, prev
      ensures Valid()
      ensures |stamp| == |old(stamp)|
      ensures forall k :: 0 <= k < NBUF && k != b ==> stamp[k] == old(stamp[k]) < stamp[b]
    {
      assert b in ring;
      ghost var k :| 0 <= k < |ring| && ring[k] == b;
      assert k != 0;
      MovedIsOrdered(ring, k, stamp, clock);
      MovedCovers(ring, k, NBUF);
      ghost var rest := Without(ring, k);
      TakeOut(b, ring, k);
      PutFirst(b, rest);
      ring := [NBUF, b] + rest[1..];
      stamp := stamp[b := clock];
      clock := clock + 1;
    }

    method TakeOut(b: nat, ghost r: seq<nat>, ghost k: nat)
      requires next != prev && next.Length == prev.Length
      requires Linked(next[..], prev[..], r) && 1 <= k < |r| && r[k] == b
      modifies next, prev
      ensures Linked(next[..], prev[..], Without(r, k))
    {
      UnlinkKeepsRing(next[..], prev[..], r, k);
      ghost var n1: seq<nat>, p1: seq<nat> := next[..][prev[b] := next[b]], prev[..][next[b] := prev[b]];
      prev[next[b]] := prev[b];
      next[prev[b]] := next[b];
      assert next[..] == n1 && prev[..] == p1;
    }

    method PutFirst(b: nat, ghost r: seq<nat>)
      requires next != prev && next.Length == prev.Length == NBUF + 1
      requires Linked(next[..], prev[..], r) && r[0] == NBUF && b < NBUF && b !in r
      modifies next, prev
      ensures Linked(next[..], prev[..], [NBUF, b] + r[1..])
    {
      PushFrontKeepsRing(next[..], prev[..], r, b);
      ghost var n1: seq<nat>, p1: seq<nat> := next[..][b := next[NBUF]], prev[..][b := NBUF];
      ghost var first := next[NBUF];
      next[b] := next[NBUF];
      prev[b] := NBUF;
      assert next[..] == n1 && prev[..] == p1;
      prev[next[NBUF]] := b;
      next[NBUF] := b;
      assert next[..] == n1[NBUF := b] && prev[..] == p1[first := b];
    }
  }
}
