/** The Kernighan and Ritchie allocator of umalloc.c.

    Memory is an array of header-sized units. The free list is circular and in address order,
    starts at the empty block base, which lies below the heap, and is entered at freep. */
module Umalloc {
  import opened Prelude

  datatype Header = Header(ptr: nat, size: nat)

  const NULL: nat := 0
  const UNIT: nat := 8
  const MORECORE: nat := 4096

  // ----- The partition of the memory obtained from sbrk -----

  ghost predicate Owns(owner: map<nat, nat>, b: nat, n: nat)
  {
    n >= 1 && forall u :: b <= u < b + n ==> u in owner && owner[u] == b
  }

  ghost predicate Housed(blk: map<nat, nat>, u: nat, b: nat)
  {
    b in blk && b <= u < b + blk[b]
  }

  /** blk gives every block, free or live, its size; owner gives every unit its block. So
      blocks are disjoint and no unit is lost. */
  ghost predicate Partition(blk: map<nat, nat>, owner: map<nat, nat>)
  {
    && (forall b :: b in blk ==> Owns(owner, b, blk[b]))
    && (forall u :: u in owner ==> Housed(blk, u, owner[u]))
  }

  /** The units from lo to hi change hands. */
  ghost function Reown(owner: map<nat, nat>, lo: nat, hi: nat, b: nat): (r: map<nat, nat>)
    ensures r.Keys == owner.Keys
    ensures forall u :: u in owner ==> r[u] == if lo <= u < hi then b else owner[u]
  {
    map u | u in owner :: if lo <= u < hi then b else owner[u]
  }

  /** Two blocks never overlap. */
  lemma Disjoint(blk: map<nat, nat>, owner: map<nat, nat>, b: nat, c: nat)
    requires Partition(blk, owner) && b in blk && c in blk && b < c
    ensures b + blk[b] <= c
  {
    assert Owns(owner, b, blk[b]) && Owns(owner, c, blk[c]);
    assert owner[c] == c;
  }

  lemma OthersKeep(blk: map<nat, nat>, owner: map<nat, nat>, b: nat, lo: nat, hi: nat, to: nat, c: nat)
    requires Partition(blk, owner) && b in blk && c in blk && c != b && b <= lo && hi <= b + blk[b]
    ensures Owns(Reown(owner, lo, hi, to), c, blk[c])
  {
    assert Owns(owner, b, blk[b]) && Owns(owner, c, blk[c]);
  }

  lemma SplitKeepsPartition(blk: map<nat, nat>, owner: map<nat, nat>, b: nat, k: nat)
    requires Partition(blk, owner) && b in blk && 1 <= k < blk[b]
    ensures b + k !in blk
    ensures Partition(blk[b := k][b + k := blk[b] - k], Reown(owner, b + k, b + blk[b], b + k))
  {
    hide Reown;
    assert Owns(owner, b, blk[b]);
    assert owner[b + k] == b;
    forall c | c in blk ensures c != b + k {
      assert Owns(owner, c, blk[c]);
    }
    var owner' := Reown(owner, b + k, b + blk[b], b + k);
    assert Owns(owner', b, k) && Owns(owner', b + k, blk[b] - k);
    forall c | c in blk && c != b ensures Owns(owner', c, blk[c]) {
      OthersKeep(blk, owner, b, b + k, b + blk[b], b + k, c);
    }
    hide Owns;
    forall u | u in owner ensures Housed(blk[b := k][b + k := blk[b] - k], u, owner'[u]) {
      assert Housed(blk, u, owner[u]);
    }
  }

  lemma MergeHouses(blk: map<nat, nat>, owner: map<nat, nat>, b: nat, c: nat, u: nat)
    requires Partition(blk, owner) && b in blk && c in blk && b + blk[b] == c && u in owner
    ensures Housed((blk - {c})[b := blk[b] + blk[c]], u, Reown(owner, c, c + blk[c], b)[u])
  {
    assert Housed(blk, u, owner[u]);
  }

  lemma MergeKeepsPartition(blk: map<nat, nat>, owner: map<nat, nat>, b: nat, c: nat)
    requires Partition(blk, owner) && b in blk && c in blk && b + blk[b] == c
    ensures Partition((blk - {c})[b := blk[b] + blk[c]], Reown(owner, c, c + blk[c], b))
  {
    hide Reown, Housed;
    var owner' := Reown(owner, c, c + blk[c], b);
    forall u | u in owner ensures Housed((blk - {c})[b := blk[b] + blk[c]], u, owner'[u]) {
      MergeHouses(blk, owner, b, c, u);
    }
    forall d | d in blk && d != b && d != c ensures Owns(owner', d, blk[d]) {
      OthersKeep(blk, owner, c, c, c + blk[c], b, d);
    }
    assert Owns(owner', b, blk[b] + blk[c]) by {
      assert Owns(owner, b, blk[b]) && Owns(owner, c, blk[c]);
    }
  }

  ghost function Grown(owner: map<nat, nat>, b: nat, n: nat): (r: map<nat, nat>)
    ensures forall u :: u in r <==> u in owner || b <= u < b + n
    ensures forall u :: u in r ==> r[u] == if b <= u < b + n then b else owner[u]
  {
    if n == 0 then owner else Grown(owner, b, n - 1)[b + n - 1 := b]
  }

  lemma GrowKeepsPartition(blk: map<nat, nat>, owner: map<nat, nat>, b: nat, n: nat)
    requires Partition(blk, owner) && n >= 1 && forall u :: u in owner ==> u < b
    ensures b !in blk && (forall c :: c in blk ==> c + blk[c] <= b)
    ensures Partition(blk[b := n], Grown(owner, b, n))
  {
    hide Grown;
    var owner' := Grown(owner, b, n);
    forall c | c in blk ensures c < b && c + blk[c] <= b && Owns(owner', c, blk[c]) {
      assert Owns(owner, c, blk[c]);
      assert c in owner && c + blk[c] - 1 in owner;
    }
    assert Owns(owner', b, n);
    hide Owns;
    forall u | u in owner' ensures Housed(blk[b := n], u, owner'[u]) {
      assert u in owner ==> Housed(blk, u, owner[u]);
    }
  }

  // ----- The free list -----

  /** Position i of the ring: the block is linked to the next one, which starts beyond its end
      with a gap in between, and the last one back to base. */
  ghost predicate Good(mem: seq<Header>, ring: seq<nat>, i: nat)
  {
    && i < |ring| && ring[i] < |mem|
    && mem[ring[i]].ptr == ring[After(i, ring)]
    && (i + 1 < |ring| ==> ring[i] + mem[ring[i]].size < ring[i + 1])
  }

  /** The ring of free blocks: in address order from base, no two abutting, with one wrap. */
  ghost predicate IsRing(mem: seq<Header>, base: nat, ring: seq<nat>)
  {
    && 0 < |ring| && ring[0] == base && base < |mem| && mem[base].size == 0
    && (forall i :: 0 <= i < |ring| ==> Good(mem, ring, i))
  }

  function After(i: nat, ring: seq<nat>): nat {
    if i + 1 < |ring| then i + 1 else 0
  }

  ghost predicate Strictly(ring: seq<nat>)
  {
    forall i, j :: 0 <= i < j < |ring| ==> ring[i] < ring[j]
  }

  lemma {:induction false} Ascending(mem: seq<Header>, base: nat, ring: seq<nat>, i: nat, j: nat)
    requires IsRing(mem, base, ring) && i < j < |ring|
    ensures ring[i] < ring[j]
  {
    if i + 1 < j {
      Ascending(mem, base, ring, i, j - 1);
    }
    assert Good(mem, ring, j - 1);
  }

  lemma RingAscends(mem: seq<Header>, base: nat, ring: seq<nat>)
    requires IsRing(mem, base, ring)
    ensures Strictly(ring)
  {
    forall i, j | 0 <= i < j < |ring| ensures ring[i] < ring[j] {
      Ascending(mem, base, ring, i, j);
    }
  }

  /** Does bp belong right after position t of the ring? */
  ghost predicate Slot(ring: seq<nat>, t: nat, bp: nat)
  {
    t < |ring| && ring[t] < bp && (t + 1 < |ring| ==> bp < ring[t + 1])
  }

  /** free's first assignments: bp takes over p's successor, merging with it if they abut. */
  function JoinUpper(mem: seq<Header>, p: nat, bp: nat): (r: seq<Header>)
    requires p < |mem| && bp < |mem| && mem[p].ptr < |mem|
    ensures |r| == |mem|
  {
    var q := mem[p].ptr;
    mem[bp := if bp + mem[bp].size == q then Header(mem[q].ptr, mem[bp].size + mem[q].size)
              else Header(q, mem[bp].size)]
  }

  /** free's last assignments: p is followed by bp, or swallows it if they abut. */
  function JoinLower(mem: seq<Header>, p: nat, bp: nat): (r: seq<Header>)
    requires p < |mem| && bp < |mem|
    ensures |r| == |mem|
  {
    mem[p := if p + mem[p].size == bp then Header(mem[bp].ptr, mem[p].size + mem[bp].size)
             else Header(bp, mem[p].size)]
  }

  ghost predicate MergesUpper(mem: seq<Header>, ring: seq<nat>, t: nat, bp: nat)
    requires bp < |mem|
  {
    t + 1 < |ring| && bp + mem[bp].size == ring[t + 1]
  }

  ghost predicate MergesLower(mem: seq<Header>, ring: seq<nat>, t: nat, bp: nat)
    requires t < |ring| && ring[t] < |mem|
  {
    ring[t] + mem[ring[t]].size == bp
  }

  /** Where position i of the ring goes when bp is inserted after position t. */
  function Moved(i: nat, t: nat, upper: bool, lower: bool): int {
    if i <= t then i else i + (if lower then 0 else 1) - (if upper then 1 else 0)
  }

  /** The ring after free has inserted bp after position t. */
  ghost function Inserted(ring: seq<nat>, t: nat, bp: nat, upper: bool, lower: bool): (r: seq<nat>)
    requires t < |ring| && (upper ==> t + 1 < |ring|)
    ensures |r| == |ring| + (if lower then 0 else 1) - (if upper then 1 else 0)
    ensures !lower ==> r[t + 1] == bp
    ensures forall i :: 0 <= i < |ring| && !(upper && i == t + 1) ==> r[Moved(i, t, upper, lower)] == ring[i]
  {
    ring[..t + 1] + (if lower then [] else [bp]) + ring[if upper then t + 2 else t + 1..]
  }

  /** Every position of the new ring is bp's or comes from an old one. */
  lemma Origin(i: nat, t: nat, n: nat, upper: bool, lower: bool) returns (k: nat)
    requires t < n && (upper ==> t + 1 < n)
    requires i < n + (if lower then 0 else 1) - (if upper then 1 else 0) && !(i == t + 1 && !lower)
    ensures k < n && !(upper && k == t + 1) && Moved(k, t, upper, lower) == i
  {
    k := if i <= t then i else i - (if lower then 0 else 1) + (if upper then 1 else 0);
  }

  /** bp may be freed into the slot after position t. */
  ghost predicate CanInsert(mem: seq<Header>, base: nat, ring: seq<nat>, t: nat, bp: nat)
  {
    && IsRing(mem, base, ring) && Slot(ring, t, bp) && base < bp < |mem| && mem[bp].size >= 1
    && ring[t] < |mem|
    && ring[t] + mem[ring[t]].size <= bp
    && (t + 1 < |ring| ==> bp + mem[bp].size <= ring[t + 1])
  }

  lemma InsertPosition(mem: seq<Header>, base: nat, ring: seq<nat>, t: nat, bp: nat, i: nat)
    requires CanInsert(mem, base, ring, t, bp) && Strictly(ring) && mem[ring[t]].ptr < |mem|
    requires i < |Inserted(ring, t, bp, MergesUpper(mem, ring, t, bp), MergesLower(mem, ring, t, bp))|
    ensures var ring' := Inserted(ring, t, bp, MergesUpper(mem, ring, t, bp), MergesLower(mem, ring, t, bp));
            Good(JoinLower(JoinUpper(mem, ring[t], bp), ring[t], bp), ring', i)
  {
    hide Inserted, Strictly;
    var p := ring[t];
    assert Good(mem, ring, t) && (t + 1 < |ring| ==> Good(mem, ring, t + 1));
    var out := JoinLower(JoinUpper(mem, p, bp), p, bp);
    var upper, lower := MergesUpper(mem, ring, t, bp), MergesLower(mem, ring, t, bp);
    var ring' := Inserted(ring, t, bp, upper, lower);
    var succ := After(if upper then t + 1 else t, ring);
    assert mem[ring[if upper then t + 1 else t]].ptr == ring[succ] == ring'[Moved(succ, t, upper, lower)];
    if i == t + 1 && !lower {
      assert out[bp].ptr == ring[succ];
      assert After(i, ring') == Moved(succ, t, upper, lower);
    } else {
      var k := Origin(i, t, |ring|, upper, lower);
      assert ring'[i] == ring[k];
      assert Good(mem, ring, k);
      if k != t {
        InsertLeaves(mem, base, ring, t, bp, k);
        assert out[ring[k]].ptr == ring[After(k, ring)];
        assert After(i, ring') == Moved(After(k, ring), t, upper, lower);
        assert ring'[Moved(After(k, ring), t, upper, lower)] == ring[After(k, ring)];
      } else if lower {
        assert out[p].ptr == ring[succ];
        assert After(i, ring') == Moved(succ, t, upper, lower);
      } else {
        assert out[p].ptr == bp;
      }
    }
  }

  lemma InsertLeaves(mem: seq<Header>, base: nat, ring: seq<nat>, t: nat, bp: nat, k: nat)
    requires CanInsert(mem, base, ring, t, bp) && Strictly(ring) && mem[ring[t]].ptr < |mem|
    requires k < |ring| && k != t && ring[k] < |mem|
    ensures ring[k] != bp && JoinLower(JoinUpper(mem, ring[t], bp), ring[t], bp)[ring[k]] == mem[ring[k]]
  {
  }

  lemma BaseStaysEmpty(mem: seq<Header>, base: nat, ring: seq<nat>, t: nat, bp: nat)
    requires CanInsert(mem, base, ring, t, bp) && Strictly(ring) && mem[ring[t]].ptr < |mem|
    ensures JoinLower(JoinUpper(mem, ring[t], bp), ring[t], bp)[base].size == 0
  {
    if t != 0 {
      InsertLeaves(mem, base, ring, t, bp, 0);
    }
  }

  lemma InsertKeepsRing(mem: seq<Header>, base: nat, ring: seq<nat>, t: nat, bp: nat)
    requires CanInsert(mem, base, ring, t, bp)
    ensures mem[ring[t]].ptr < |mem|
    ensures IsRing(JoinLower(JoinUpper(mem, ring[t], bp), ring[t], bp), base,
                   Inserted(ring, t, bp, MergesUpper(mem, ring, t, bp), MergesLower(mem, ring, t, bp)))
  {
    hide Inserted, JoinLower, JoinUpper, Strictly;
    assert Good(mem, ring, t) && Good(mem, ring, After(t, ring));
    RingAscends(mem, base, ring);
    BaseStaysEmpty(mem, base, ring, t, bp);
    var ring' := Inserted(ring, t, bp, MergesUpper(mem, ring, t, bp), MergesLower(mem, ring, t, bp));
    forall i | 0 <= i < |ring'| ensures Good(JoinLower(JoinUpper(mem, ring[t], bp), ring[t], bp), ring', i) {
      InsertPosition(mem, base, ring, t, bp, i);
    }
    assert ring'[Moved(0, t, MergesUpper(mem, ring, t, bp), MergesLower(mem, ring, t, bp))] == ring[0];
  }

  // ----- The whole state -----

  /** The free blocks: everything on the ring but base. */
  ghost function FreeSet(ring: seq<nat>): set<nat>
  {
    set i | 1 <= i < |ring| :: ring[i]
  }

  ghost predicate Sized(mem: seq<Header>, blk: map<nat, nat>)
  {
    forall b :: b in blk ==> b < |mem| && mem[b].size == blk[b]
  }

  /** Every block is free, live or loose, and only one of them. */
  ghost predicate Tied(free: set<nat>, live: map<nat, nat>, blk: map<nat, nat>, loose: set<nat>)
  {
    && blk.Keys == free + live.Keys + loose
    && free !! live.Keys && free !! loose && live.Keys !! loose
    && forall a :: a in live ==> live[a] == blk[a]
  }

  /** live maps each block handed out by malloc and not yet freed to its size; loose holds a block
      on its way into the free list. Every unit obtained from sbrk is in exactly one block, and
      every block is on the ring, live or loose, with its header saying how big it is. */
  ghost predicate Consistent(mem: seq<Header>, base: nat, ring: seq<nat>, live: map<nat, nat>,
                             blk: map<nat, nat>, owner: map<nat, nat>, loose: set<nat>)
  {
    && 1 <= base && IsRing(mem, base, ring) && Partition(blk, owner)
    && (forall u :: u in owner ==> base < u < |mem|)
    && Sized(mem, blk) && Tied(FreeSet(ring), live, blk, loose)
  }

  ghost function Merge(blk: map<nat, nat>, b: nat, c: nat, on: bool): map<nat, nat>
    requires on ==> b in blk && c in blk
  {
    if on then (blk - {c})[b := blk[b] + blk[c]] else blk
  }

  ghost function MergeOwner(blk: map<nat, nat>, owner: map<nat, nat>, b: nat, c: nat, on: bool): (r: map<nat, nat>)
    requires on ==> c in blk
    ensures r.Keys == owner.Keys
  {
    if on then Reown(owner, c, c + blk[c], b) else owner
  }

  lemma MergeMaybe(blk: map<nat, nat>, owner: map<nat, nat>, b: nat, c: nat, on: bool)
    requires Partition(blk, owner) && (on ==> b in blk && c in blk && b + blk[b] == c)
    ensures Partition(Merge(blk, b, c, on), MergeOwner(blk, owner, b, c, on))
  {
    if on {
      MergeKeepsPartition(blk, owner, b, c);
    }
  }

  /** The block with a slot on the ring has room there: its neighbours do not overlap it. */
  lemma SlotHasRoom(mem: seq<Header>, base: nat, ring: seq<nat>, live: map<nat, nat>,
                    blk: map<nat, nat>, owner: map<nat, nat>, bp: nat, t: nat)
    requires Consistent(mem, base, ring, live, blk, owner, {bp}) && Slot(ring, t, bp)
    ensures CanInsert(mem, base, ring, t, bp)
    ensures bp in blk && ring[t] != bp && (t > 0 ==> ring[t] in blk) && (t + 1 < |ring| ==> ring[t + 1] in blk)
  {
    assert Good(mem, ring, t);
    assert Owns(owner, bp, blk[bp]);
    assert bp in owner;
    assert t > 0 ==> ring[t] in FreeSet(ring);
    if t > 0 {
      Disjoint(blk, owner, ring[t], bp);
    }
    if t + 1 < |ring| {
      assert ring[t + 1] in FreeSet(ring);
      Disjoint(blk, owner, bp, ring[t + 1]);
    }
  }

  lemma {:induction false} FindSlot(ring: seq<nat>, bp: nat, k: nat) returns (t: nat)
    requires k < |ring| && ring[0] < bp && bp !in ring && (k + 1 < |ring| ==> bp < ring[k + 1])
    ensures t <= k && Slot(ring, t, bp)
  {
    if ring[k] < bp {
      t := k;
    } else {
      assert ring[k] != bp;
      t := FindSlot(ring, bp, k - 1);
    }
  }

  lemma InsertedSet(ring: seq<nat>, t: nat, bp: nat, upper: bool, lower: bool)
    requires t < |ring| && (upper ==> t + 1 < |ring|) && Strictly(ring) && bp !in ring
    ensures FreeSet(Inserted(ring, t, bp, upper, lower)) ==
            FreeSet(ring) - (if upper then {ring[t + 1]} else {}) + (if lower then {} else {bp})
  {
    hide Inserted;
    var ring' := Inserted(ring, t, bp, upper, lower);
    forall i | 1 <= i < |ring'|
      ensures (ring'[i] == bp && !lower) || (ring'[i] in FreeSet(ring) && !(upper && ring'[i] == ring[t + 1]))
    {
      if !(i == t + 1 && !lower) {
        var k := Origin(i, t, |ring|, upper, lower);
        assert ring'[i] == ring[k];
      }
    }
    forall k | 1 <= k < |ring| && !(upper && k == t + 1) ensures ring[k] in FreeSet(ring') {
      assert ring'[Moved(k, t, upper, lower)] == ring[k];
    }
    assert !lower ==> ring'[t + 1] in FreeSet(ring');
  }

  lemma InsertKeepsSized(mem: seq<Header>, blk: map<nat, nat>, base: nat, ring: seq<nat>, t: nat, bp: nat)
    requires CanInsert(mem, base, ring, t, bp) && mem[ring[t]].ptr < |mem| && Sized(mem, blk) && Good(mem, ring, t)
    requires bp in blk && base !in blk && (t > 0 ==> ring[t] in blk) && (t + 1 < |ring| ==> ring[t + 1] in blk)
    ensures var p, q := ring[t], if t + 1 < |ring| then ring[t + 1] else 0;
            var upper, lower := MergesUpper(mem, ring, t, bp), MergesLower(mem, ring, t, bp);
            && (lower ==> p in blk)
            && Sized(JoinLower(JoinUpper(mem, p, bp), p, bp), Merge(Merge(blk, bp, q, upper), p, bp, lower))
  {
  }

  lemma InsertKeepsTied(free: set<nat>, live: map<nat, nat>, blk: map<nat, nat>, p: nat, bp: nat, q: nat, upper: bool,
                        lower: bool)
    requires Tied(free, live, blk, {bp}) && (lower ==> p in free) && (upper ==> q in free && q != p)
    ensures Tied(free - (if upper then {q} else {}) + (if lower then {} else {bp}), live,
                 Merge(Merge(blk, bp, q, upper), p, bp, lower), {})
  {
  }

  /** The block sizes and unit owners after free has inserted bp after position t. */
  ghost function BlkAfter(mem: seq<Header>, ring: seq<nat>, t: nat, bp: nat, blk: map<nat, nat>): map<nat, nat>
    requires t < |ring| && ring[t] < |mem| && bp < |mem| && bp in blk
    requires (MergesLower(mem, ring, t, bp) ==> ring[t] in blk) && (t + 1 < |ring| ==> ring[t + 1] in blk)
  {
    Merge(Merge(blk, bp, if t + 1 < |ring| then ring[t + 1] else 0, MergesUpper(mem, ring, t, bp)),
          ring[t], bp, MergesLower(mem, ring, t, bp))
  }

  ghost function OwnerAfter(mem: seq<Header>, ring: seq<nat>, t: nat, bp: nat, blk: map<nat, nat>,
                            owner: map<nat, nat>): (r: map<nat, nat>)
    requires t < |ring| && ring[t] < |mem| && bp < |mem| && bp in blk
    requires (MergesLower(mem, ring, t, bp) ==> ring[t] in blk) && (t + 1 < |ring| ==> ring[t + 1] in blk)
    ensures r.Keys == owner.Keys
  {
    var q, upper := if t + 1 < |ring| then ring[t + 1] else 0, MergesUpper(mem, ring, t, bp);
    MergeOwner(Merge(blk, bp, q, upper), MergeOwner(blk, owner, bp, q, upper),
               ring[t], bp, MergesLower(mem, ring, t, bp))
  }

  lemma InsertKeepsPartition(mem: seq<Header>, ring: seq<nat>, t: nat, bp: nat, blk: map<nat, nat>,
                             owner: map<nat, nat>)
    requires t < |ring| && ring[t] < |mem| && bp < |mem| && bp in blk && ring[t] < bp
    requires (MergesLower(mem, ring, t, bp) ==> ring[t] in blk)
             && (t + 1 < |ring| ==> ring[t] < ring[t + 1] && ring[t + 1] in blk)
    requires Sized(mem, blk) && Partition(blk, owner)
    ensures Partition(BlkAfter(mem, ring, t, bp, blk), OwnerAfter(mem, ring, t, bp, blk, owner))
  {
    hide Partition, MergeOwner;
    var p, q := ring[t], if t + 1 < |ring| then ring[t + 1] else 0;
    var upper, lower := MergesUpper(mem, ring, t, bp), MergesLower(mem, ring, t, bp);
    MergeMaybe(blk, owner, bp, q, upper);
    MergeMaybe(Merge(blk, bp, q, upper), MergeOwner(blk, owner, bp, q, upper), p, bp, lower);
  }

  /** free puts a loose block on the ring and loses nothing. */
  lemma InsertKeepsConsistent(mem: seq<Header>, base: nat, ring: seq<nat>, live: map<nat, nat>,
                              blk: map<nat, nat>, owner: map<nat, nat>, bp: nat, t: nat)
    requires Consistent(mem, base, ring, live, blk, owner, {bp}) && Slot(ring, t, bp)
    ensures bp < |mem| && ring[t] < |mem| && mem[ring[t]].ptr < |mem| && bp in blk
    ensures (MergesLower(mem, ring, t, bp) ==> ring[t] in blk) && (t + 1 < |ring| ==> ring[t + 1] in blk)
    ensures Consistent(JoinLower(JoinUpper(mem, ring[t], bp), ring[t], bp), base,
                       Inserted(ring, t, bp, MergesUpper(mem, ring, t, bp), MergesLower(mem, ring, t, bp)), live,
                       BlkAfter(mem, ring, t, bp, blk), OwnerAfter(mem, ring, t, bp, blk, owner), {})
  {
    hide Inserted, JoinLower, JoinUpper, Good, IsRing, Partition, Sized, Tied, Merge, MergeOwner, Strictly, FreeSet;
    var p, q := ring[t], if t + 1 < |ring| then ring[t + 1] else 0;
    SlotHasRoom(mem, base, ring, live, blk, owner, bp, t);
    InsertFacts(mem, base, ring, live, blk, owner, bp, t);
    var upper, lower := MergesUpper(mem, ring, t, bp), MergesLower(mem, ring, t, bp);
    RingAscends(mem, base, ring);
    InsertKeepsRing(mem, base, ring, t, bp);
    InsertedSet(ring, t, bp, upper, lower);
    InsertKeepsSized(mem, blk, base, ring, t, bp);
    InsertKeepsTied(FreeSet(ring), live, blk, p, bp, q, upper, lower);
    InsertKeepsPartition(mem, ring, t, bp, blk, owner);
  }

  lemma InsertFacts(mem: seq<Header>, base: nat, ring: seq<nat>, live: map<nat, nat>,
                    blk: map<nat, nat>, owner: map<nat, nat>, bp: nat, t: nat)
    requires Consistent(mem, base, ring, live, blk, owner, {bp}) && Slot(ring, t, bp)
    ensures base !in blk && bp !in ring && Good(mem, ring, t) && mem[ring[t]].ptr < |mem|
    ensures t > 0 ==> ring[t] in FreeSet(ring) && (t + 1 < |ring| ==> ring[t] != ring[t + 1])
    ensures t + 1 < |ring| ==> ring[t] < ring[t + 1] && ring[t + 1] in FreeSet(ring)
    ensures MergesLower(mem, ring, t, bp) ==> t > 0
  {
    assert Good(mem, ring, t) && Good(mem, ring, After(t, ring));
    assert base in blk ==> Owns(owner, base, blk[base]);
    forall i | 0 <= i < |ring| ensures ring[i] != bp {
      assert i >= 1 ==> ring[i] in FreeSet(ring);
    }
  }

  // ----- What malloc does to the state -----

  /** malloc takes a whole block off the ring. */
  lemma TakeKeepsRing(mem: seq<Header>, base: nat, ring: seq<nat>, j: nat)
    requires IsRing(mem, base, ring) && 1 <= j < |ring|
    ensures ring[j] < |mem| && ring[j - 1] < |mem|
    ensures IsRing(mem[ring[j - 1] := mem[ring[j - 1]].(ptr := mem[ring[j]].ptr)], base, Without(ring, j))
  {
    assert Good(mem, ring, j) && Good(mem, ring, j - 1);
    RingAscends(mem, base, ring);
    hide Without;
    var out, ring' := mem[ring[j - 1] := mem[ring[j - 1]].(ptr := mem[ring[j]].ptr)], Without(ring, j);
    forall i | 0 <= i < |ring'| ensures Good(out, ring', i) {
      assert Good(mem, ring, if i < j then i else i + 1);
    }
  }

  lemma WithoutSet(ring: seq<nat>, j: nat)
    requires Strictly(ring) && 1 <= j < |ring|
    ensures ring[j] in FreeSet(ring) && FreeSet(Without(ring, j)) == FreeSet(ring) - {ring[j]}
  {
    hide Without;
    var ring' := Without(ring, j);
    forall i | 1 <= i < |ring| && i != j ensures ring[i] in FreeSet(ring') {
      assert ring'[if i < j then i else i - 1] == ring[i];
    }
  }

  lemma TakeKeepsConsistent(mem: seq<Header>, base: nat, ring: seq<nat>, live: map<nat, nat>,
                            blk: map<nat, nat>, owner: map<nat, nat>, j: nat)
    requires Consistent(mem, base, ring, live, blk, owner, {}) && 1 <= j < |ring|
    ensures ring[j] < |mem| && ring[j - 1] < |mem| && ring[j] in blk && ring[j] !in live
    ensures Consistent(mem[ring[j - 1] := mem[ring[j - 1]].(ptr := mem[ring[j]].ptr)], base, Without(ring, j),
                       live[ring[j] := blk[ring[j]]], blk, owner, {})
  {
    hide IsRing, Partition, Without, Strictly, FreeSet;
    TakeKeepsRing(mem, base, ring, j);
    RingAscends(mem, base, ring);
    WithoutSet(ring, j);
  }

  lemma CutKeepsRing(mem: seq<Header>, base: nat, ring: seq<nat>, j: nat, n: nat)
    requires IsRing(mem, base, ring) && 1 <= j < |ring| && ring[j] < |mem| && 1 <= n < mem[ring[j]].size
    requires ring[j] + mem[ring[j]].size - n < |mem| && ring[j] + mem[ring[j]].size - n !in ring
    ensures var p, rest := ring[j], mem[ring[j]].size - n;
            IsRing(mem[p := mem[p].(size := rest)][p + rest := mem[p + rest].(size := n)], base, ring)
  {
    RingAscends(mem, base, ring);
    var p, rest := ring[j], mem[ring[j]].size - n;
    var out := mem[p := mem[p].(size := rest)][p + rest := mem[p + rest].(size := n)];
    forall i | 0 <= i < |ring| ensures Good(out, ring, i) {
      assert Good(mem, ring, i);
    }
  }

  /** malloc cuts the tail of a bigger block off. */
  lemma CutKeepsConsistent(mem: seq<Header>, base: nat, ring: seq<nat>, live: map<nat, nat>,
                           blk: map<nat, nat>, owner: map<nat, nat>, j: nat, n: nat)
    requires Consistent(mem, base, ring, live, blk, owner, {}) && 1 <= j < |ring| && ring[j] in blk
    requires 1 <= n < blk[ring[j]]
    ensures var p, rest := ring[j], blk[ring[j]] - n;
            && p + rest < |mem| && p + rest !in live && p + rest !in blk
            && Consistent(mem[p := mem[p].(size := rest)][p + rest := mem[p + rest].(size := n)], base, ring,
                          live[p + rest := n], blk[p := rest][p + rest := n],
                          Reown(owner, p + rest, p + blk[p], p + rest), {})
  {
    hide IsRing, Partition, FreeSet, Reown, Sized, Tied;
    var p, rest := ring[j], blk[ring[j]] - n;
    CutFacts(mem, base, ring, live, blk, owner, j, rest);
    SplitKeepsPartition(blk, owner, p, rest);
    CutKeepsRing(mem, base, ring, j, n);
    CutKeepsSized(mem, blk, p, rest, n);
    CutKeepsTied(FreeSet(ring), live, blk, p, rest, n);
    var out := mem[p := mem[p].(size := rest)][p + rest := mem[p + rest].(size := n)];
    assert IsRing(out, base, ring) && Sized(out, blk[p := rest][p + rest := n]);
  }

  lemma CutFacts(mem: seq<Header>, base: nat, ring: seq<nat>, live: map<nat, nat>,
                 blk: map<nat, nat>, owner: map<nat, nat>, j: nat, rest: nat)
    requires Consistent(mem, base, ring, live, blk, owner, {}) && 1 <= j < |ring| && ring[j] in blk
    requires 1 <= rest < blk[ring[j]]
    ensures ring[j] in FreeSet(ring) && ring[j] < |mem| && mem[ring[j]].size == blk[ring[j]]
    ensures ring[j] + rest in owner && ring[j] + rest !in blk && ring[j] + rest !in ring && ring[j] + rest !in live
  {
    assert Owns(owner, ring[j], blk[ring[j]]);
    assert ring[j] + rest in owner;
    SplitKeepsPartition(blk, owner, ring[j], rest);
    forall i | 0 <= i < |ring| ensures ring[i] != ring[j] + rest {
      assert i >= 1 ==> ring[i] in FreeSet(ring);
    }
  }

  lemma CutKeepsSized(mem: seq<Header>, blk: map<nat, nat>, p: nat, rest: nat, n: nat)
    requires Sized(mem, blk) && p in blk && p + rest < |mem|
    ensures Sized(mem[p := mem[p].(size := rest)][p + rest := mem[p + rest].(size := n)], blk[p := rest][p + rest := n])
  {
  }

  lemma CutKeepsTied(free: set<nat>, live: map<nat, nat>, blk: map<nat, nat>, p: nat, rest: nat, n: nat)
    requires Tied(free, live, blk, {}) && p in free && p + rest !in blk
    ensures Tied(free, live[p + rest := n], blk[p := rest][p + rest := n], {})
  {
  }

  lemma LoosenKeepsConsistent(mem: seq<Header>, base: nat, ring: seq<nat>, live: map<nat, nat>,
                              blk: map<nat, nat>, owner: map<nat, nat>, bp: nat)
    requires Consistent(mem, base, ring, live, blk, owner, {}) && bp in live
    ensures bp < |mem| && mem[bp].size == live[bp]
    ensures Consistent(mem, base, ring, live - {bp}, blk, owner, {bp})
  {
    hide IsRing, Partition, FreeSet;
  }

  /** sbrk has returned fresh memory at a. */
  ghost predicate Fresh(base: nat, owner: map<nat, nat>, a: nat, n: nat, limit: nat)
  {
    base < a && a + n <= limit && forall u :: u in owner ==> u < a
  }

  lemma GrowKeepsConsistent(mem: seq<Header>, base: nat, ring: seq<nat>, live: map<nat, nat>,
                            blk: map<nat, nat>, owner: map<nat, nat>, a: nat, n: nat)
    requires Consistent(mem, base, ring, live, blk, owner, {}) && n >= 1 && Fresh(base, owner, a, n, |mem|)
    ensures Consistent(mem[a := mem[a].(size := n)], base, ring, live, blk[a := n], Grown(owner, a, n), {a})
  {
    hide Partition, Grown, IsRing, FreeSet;
    GrowKeepsPartition(blk, owner, a, n);
    GrowKeepsRing(mem, base, ring, live, blk, owner, a, n);
  }

  lemma GrowKeepsRing(mem: seq<Header>, base: nat, ring: seq<nat>, live: map<nat, nat>,
                      blk: map<nat, nat>, owner: map<nat, nat>, a: nat, n: nat)
    requires Consistent(mem, base, ring, live, blk, owner, {}) && n >= 1 && Fresh(base, owner, a, n, |mem|)
    ensures IsRing(mem[a := mem[a].(size := n)], base, ring)
  {
    hide Partition;
    GrowKeepsPartition(blk, owner, a, n);
    var out := mem[a := mem[a].(size := n)];
    forall i | 0 <= i < |ring| ensures Good(out, ring, i) {
      assert i >= 1 ==> ring[i] in FreeSet(ring);
      assert Good(mem, ring, i);
    }
  }

  // ----- What users have in their blocks -----

  /** The units behind the headers of the live blocks have kept their contents. */
  ghost predicate Untouched(mem: seq<Header>, mem': seq<Header>, live: map<nat, nat>)
  {
    && |mem'| == |mem|
    && forall b, u :: b in live && b < u < b + live[b] && u < |mem| ==> mem'[u] == mem[u]
  }

  /** A unit that is a header, or no part of a live block. */
  ghost predicate NotInside(live: map<nat, nat>, blk: map<nat, nat>, owner: map<nat, nat>, u: nat)
  {
    u in blk || u !in owner || owner[u] !in live
  }

  lemma WritesOutside(mem: seq<Header>, mem': seq<Header>, base: nat, ring: seq<nat>, live: map<nat, nat>,
                      blk: map<nat, nat>, owner: map<nat, nat>, loose: set<nat>, x: nat, y: nat)
    requires Consistent(mem, base, ring, live, blk, owner, loose) && |mem'| == |mem|
    requires forall u :: 0 <= u < |mem| && u != x && u != y ==> mem'[u] == mem[u]
    requires NotInside(live, blk, owner, x) && NotInside(live, blk, owner, y)
    ensures Untouched(mem, mem', live)
  {
    hide IsRing, Sized, FreeSet;
    forall b, u | b in live && b < u < b + live[b] && u < |mem| ensures mem'[u] == mem[u] {
      assert Owns(owner, b, blk[b]) && owner[u] == b;
    }
  }

  lemma RingIsOutside(mem: seq<Header>, base: nat, ring: seq<nat>, live: map<nat, nat>,
                      blk: map<nat, nat>, owner: map<nat, nat>, loose: set<nat>, p: nat)
    requires Consistent(mem, base, ring, live, blk, owner, loose) && p in ring
    ensures NotInside(live, blk, owner, p)
  {
    hide Partition, Sized;
    var i :| 0 <= i < |ring| && ring[i] == p;
    assert i >= 1 ==> p in FreeSet(ring);
  }

  lemma LooseIsOutside(mem: seq<Header>, base: nat, ring: seq<nat>, live: map<nat, nat>,
                       blk: map<nat, nat>, owner: map<nat, nat>, bp: nat)
    requires Consistent(mem, base, ring, live, blk, owner, {bp})
    ensures NotInside(live, blk, owner, bp)
  {
    hide IsRing, Partition, Sized;
  }

  lemma FreshIsOutside(base: nat, live: map<nat, nat>, blk: map<nat, nat>, owner: map<nat, nat>, a: nat, n: nat,
                       limit: nat)
    requires Fresh(base, owner, a, n, limit)
    ensures NotInside(live, blk, owner, a)
  {
  }

  lemma SameIsUntouched(mem: seq<Header>, live: map<nat, nat>)
    ensures Untouched(mem, mem, live)
  {
  }

  lemma CutIsOutside(mem: seq<Header>, base: nat, ring: seq<nat>, live: map<nat, nat>,
                     blk: map<nat, nat>, owner: map<nat, nat>, j: nat, rest: nat)
    requires Consistent(mem, base, ring, live, blk, owner, {}) && 1 <= j < |ring| && ring[j] in blk
    requires 1 <= rest < blk[ring[j]]
    ensures NotInside(live, blk, owner, ring[j] + rest)
  {
    hide IsRing, Sized;
    assert ring[j] in FreeSet(ring);
    assert Owns(owner, ring[j], blk[ring[j]]);
  }

  lemma UntouchedOn(a: seq<Header>, b: seq<Header>, c: seq<Header>, live: map<nat, nat>)
    requires Untouched(a, b, live) && Untouched(b, c, live)
    ensures Untouched(a, c, live)
  {
  }

  // ----- The allocator -----

  /** The size computation of malloc, in 32-bit arithmetic. */
  function Units(nbytes: nat): (n: nat)
    ensures n >= 1
  {
    (nbytes + UNIT - 1) % 0x1_0000_0000 / UNIT + 1
  }

  /** The units morecore asks for and enters in the header of the new block. */
  function Grant(nunits: nat): (n: nat)
    ensures n >= nunits && n >= MORECORE && (n == nunits || n == MORECORE)
  {
    Max(nunits, MORECORE)
  }

  /** The argument of sbrk for n units: nu * sizeof(Header) in 32 bits, taken as an int. */
  function SbrkArg(n: nat): int
  {
    var bytes := n * UNIT % 0x1_0000_0000;
    if bytes < 0x8000_0000 then bytes else bytes - 0x1_0000_0000
  }

  /** sbrk is asked for the units that the header will say it gave. */
  predicate AskedInFull(nbytes: nat) {
    SbrkArg(Grant(Units(nbytes))) == Grant(Units(nbytes)) * UNIT
  }

  /** The block has room for nbytes, and the memory for it has been asked for, exactly up to
      0x7FFF_FFF0 bytes. */
  lemma RequestServed(nbytes: nat)
    requires nbytes < 0x1_0000_0000
    ensures (Units(nbytes) - 1) * UNIT >= nbytes && AskedInFull(nbytes) <==> nbytes <= 0x7FFF_FFF0
    ensures (Units(nbytes) - 1) * UNIT >= nbytes <==> nbytes <= 0xFFFF_FFF8
    ensures nbytes <= 0xFFFF_FFF8 ==> (Units(nbytes) - 2) * UNIT < nbytes || nbytes == 0
    ensures AskedInFull(nbytes) <==> nbytes <= 0x7FFF_FFF0 || nbytes > 0xFFFF_FFF8
  {
    var n := Units(nbytes);
    if nbytes <= 0xFFFF_FFF8 {
      assert n == (nbytes + UNIT - 1) / UNIT + 1;
    } else {
      assert n == 1;
    }
  }

  /** Three requests that fail in three ways: nothing is asked for, the break moves down, and the
      block is too small. */
  lemma HugeRequests()
    ensures Units(0xFFFF_FFF8) == 0x2000_0000 && SbrkArg(Grant(Units(0xFFFF_FFF8))) == 0
    ensures Units(0x7FFF_FFF1) == 0x1000_0000 && SbrkArg(Grant(Units(0x7FFF_FFF1))) == -0x8000_0000
    ensures Units(0xFFFF_FFF9) == 1
  {
  }

  /** sbrk does its part: it gives as many fresh units as its argument says. */
  ghost predicate Answered(base: nat, owner: map<nat, nat>, sbrk: Option<nat>, n: nat, limit: nat)
  {
    sbrk.Some? && SbrkArg(n) > 0 ==> Fresh(base, owner, sbrk.value, SbrkArg(n) / UNIT, limit)
  }

  function Wrap(x: nat, n: nat): (r: nat)
    requires x < 2 * n
    ensures r < n
  {
    if x < n then x else x - n
  }

  class Allocator {
    const mem: array<Header>
    const base: nat
    var freep: nat

    ghost var ring: seq<nat>
    ghost var live: map<nat, nat>
    ghost var blk: map<nat, nat>
    ghost var owner: map<nat, nat>

    ghost predicate Ready(loose: set<nat>)
      reads this, mem
    {
      Consistent(mem[..], base, ring, live, blk, owner, loose) && freep in ring
    }

    /** Before the first malloc freep is null and nothing has been obtained. */
    ghost predicate Valid()
      reads this, mem
    {
      if freep == NULL then 1 <= base < mem.Length && ring == [base] && live == blk == owner == map[]
      else Ready({})
    }

    constructor (memory: array<Header>, baseAddress: nat)
      requires 1 <= baseAddress < memory.Length
      ensures Valid() && mem == memory && base == baseAddress && live == owner == map[]
    {
      mem, base, freep := memory, baseAddress, NULL;
      ring, live, blk, owner := [baseAddress], map[], map[], map[];
    }

    /** free's search: the ring position after which bp belongs. It ends on every ring. */
    method Search(bp: nat) returns (p: nat, ghost t: nat)
      requires Ready({bp})
      ensures Slot(ring, t, bp) && NULL < p == ring[t] < mem.Length
      ensures p in ring && p < bp && forall q :: q in ring && q < bp ==> q <= p
    {
      hide Partition, Sized, Strictly;
      ghost var n := |ring|;
      SearchFacts(mem[..], base, ring, live, blk, owner, bp);
      ghost var target := FindSlot(ring, bp, n - 1);
      p := freep;
      ghost var k :| 0 <= k < n && ring[k] == p;
      assert Good(mem[..], ring, k);
      while !(bp > p && bp < mem[p].ptr)
        invariant 0 <= k < n && p == ring[k] < mem.Length && Good(mem[..], ring, k)
        decreases if k <= target then target - k else target - k + n
      {
        SlotIsUnique(mem[..], base, ring, bp, target, k);
        if p >= mem[p].ptr && (bp > p || bp < mem[p].ptr) {
          break;
        }
        p := mem[p].ptr;
        k := After(k, ring);
        assert Good(mem[..], ring, k);
      }
      SlotIsUnique(mem[..], base, ring, bp, target, k);
      AboveBase(mem[..], base, ring, k);
      GreatestBelow(mem[..], base, ring, k, bp);
      t := k;
    }

    /** The body of free, for a block that is not on the ring. */
    method Insert(bp: nat)
      requires Ready({bp}) && freep != NULL
      modifies this`freep, this`ring, this`blk, this`owner, mem
      ensures Ready({}) && freep != NULL
      ensures live == old(live) && owner.Keys == old(owner.Keys)
      ensures Fits(mem[..], ring, old(mem[bp].size))
      ensures Untouched(old(mem[..]), mem[..], live)
    {
      hide Consistent, Inserted, BlkAfter, OwnerAfter;
      var p; ghost var t;
      p, t := Search(bp);
      ghost var before := mem[..];
      InsertKeepsConsistent(before, base, ring, live, blk, owner, bp, t);
      InsertFacts(before, base, ring, live, blk, owner, bp, t);
      if bp + mem[bp].size == mem[p].ptr {
        mem[bp] := Header(mem[mem[p].ptr].ptr, mem[bp].size + mem[mem[p].ptr].size);
      } else {
        mem[bp] := mem[bp].(ptr := mem[p].ptr);
      }
      assert mem[..] == JoinUpper(before, p, bp);
      if p + mem[p].size == bp {
        mem[p] := Header(mem[bp].ptr, mem[p].size + mem[bp].size);
      } else {
        mem[p] := mem[p].(ptr := bp);
      }
      assert mem[..] == JoinLower(JoinUpper(before, p, bp), p, bp);
      freep := p;
      RingIsOutside(before, base, ring, live, blk, owner, {bp}, p);
      LooseIsOutside(before, base, ring, live, blk, owner, bp);
      WritesOutside(before, mem[..], base, ring, live, blk, owner, {bp}, bp, p);
      ghost var upper, lower := MergesUpper(before, ring, t, bp), MergesLower(before, ring, t, bp);
      ghost var ring' := Inserted(ring, t, bp, upper, lower);
      assert ring'[Moved(t, t, upper, lower)] == p;
      ghost var w := if lower then t else t + 1;
      blk, owner := BlkAfter(before, ring, t, bp, blk), OwnerAfter(before, ring, t, bp, blk, owner);
      ring := ring';
      assert mem[ring[w]].size >= before[bp].size;
    }

    /** free: the block stops being live and no unit is lost. */
    method Free(ap: nat)
      requires Valid() && ap >= 1 && ap - 1 in live
      modifies this, mem
      ensures Valid() && live == old(live) - {ap - 1} && owner.Keys == old(owner.Keys)
      ensures Untouched(old(mem[..]), mem[..], live)
    {
      hide Consistent;
      LoosenKeepsConsistent(mem[..], base, ring, live, blk, owner, ap - 1);
      live := live - {ap - 1};
      Insert(ap - 1);
    }

    /** morecore, with what sbrk answers as a parameter. When sbrk has not been asked for all the
        units, the source enters a block that does not exist: overrun says so, and the model stops. */
    method Morecore(nu: nat, sbrk: Option<nat>) returns (p: nat, overrun: bool)
      requires Ready({}) && freep != NULL && nu >= 1
      requires Answered(base, owner, sbrk, Grant(nu), mem.Length)
      modifies this, mem
      ensures Ready({}) && freep != NULL && live == old(live)
      ensures overrun <==> sbrk.Some? && SbrkArg(Grant(nu)) != Grant(nu) * UNIT
      ensures p == NULL <==> sbrk.None? || overrun
      ensures p == NULL ==> mem[..] == old(mem[..]) && freep == old(freep) && ring == old(ring) && owner == old(owner)
      ensures p != NULL ==> p == freep && owner.Keys == Grown(old(owner), sbrk.value, Grant(nu)).Keys
      ensures p != NULL ==> Fits(mem[..], ring, nu)
      ensures Untouched(old(mem[..]), mem[..], live)
    {
      hide Consistent, Grown, Untouched;
      SameIsUntouched(mem[..], live);
      if sbrk.None? {
        return NULL, false;
      }
      var hp, n := sbrk.value, Grant(nu);
      if SbrkArg(n) != n * UNIT {
        return NULL, true;
      }
      GrowKeepsConsistent(mem[..], base, ring, live, blk, owner, hp, n);
      ghost var expected := mem[..][hp := mem[hp].(size := n)];
      FreshIsOutside(base, live, blk, owner, hp, n, mem.Length);
      WritesOutside(mem[..], expected, base, ring, live, blk, owner, {}, hp, hp);
      mem[hp] := mem[hp].(size := n);
      assert mem[..] == expected;
      blk, owner := blk[hp := n], Grown(owner, hp, n);
      Insert(hp);
      UntouchedOn(old(mem[..]), expected, mem[..], live);
      return freep, false;
    }

    /** malloc's two ways of taking n units from the block at ring position j. */
    method Carve(prevp: nat, p: nat, n: nat, ghost j: nat) returns (q: nat)
      requires Ready({}) && freep != NULL && 1 <= j < |ring| && ring[j] == p < mem.Length && ring[j - 1] == prevp
      requires 1 <= n <= mem[p].size
      modifies this, mem
      ensures Ready({}) && freep != NULL && q !in old(live) && live == old(live)[q := n]
              && owner.Keys == old(owner.Keys)
      ensures q == p + old(mem[p].size) - n
      ensures Untouched(old(mem[..]), mem[..], old(live))
    {
      hide Consistent, Without, Reown, Untouched, NotInside;
      CarveFacts(mem[..], base, ring, live, blk, owner, j);
      RingIsOutside(mem[..], base, ring, live, blk, owner, {}, prevp);
      RingIsOutside(mem[..], base, ring, live, blk, owner, {}, p);
      ghost var before := mem[..];
      if mem[p].size == n {
        WritesOutside(before, before[prevp := before[prevp].(ptr := before[p].ptr)], base, ring, live, blk, owner, {},
                      prevp, prevp);
        TakeKeepsConsistent(before, base, ring, live, blk, owner, j);
        mem[prevp] := mem[prevp].(ptr := mem[p].ptr);
        assert mem[..] == before[prevp := before[prevp].(ptr := before[p].ptr)];
        ring, live := Without(ring, j), live[p := blk[p]];
        assert ring[j - 1] == prevp;
        q := p;
      } else {
        CutKeepsConsistent(before, base, ring, live, blk, owner, j, n);
        ghost var rest := mem[p].size - n;
        CutIsOutside(before, base, ring, live, blk, owner, j, rest);
        WritesOutside(before, before[p := before[p].(size := rest)][p + rest := before[p + rest].(size := n)],
                      base, ring, live, blk, owner, {}, p, p + rest);
        mem[p] := mem[p].(size := mem[p].size - n);
        q := p + mem[p].size;
        mem[q] := mem[q].(size := n);
        assert mem[..] == before[p := before[p].(size := rest)][q := before[q].(size := n)];
        owner := Reown(owner, q, p + blk[p], q);
        live, blk := live[q := n], blk[p := rest][q := n];
      }
      freep := prevp;
    }

    /** malloc. A block of the right size is handed out, disjoint from all others by Valid; it
        is null only if no free block was big enough and sbrk failed; and sbrk is asked at
        most once, and only when no free block was big enough. What overrun stands for happens
        exactly when sbrk then answers a request from 0x7FFF_FFF1 to 0xFFFF_FFF8 bytes. */
    method Malloc(nbytes: nat, sbrk: Option<nat>) returns (r: nat, overrun: bool, ghost grew: bool)
      requires Valid() && nbytes < 0x1_0000_0000
      requires Answered(base, owner, sbrk, Grant(Units(nbytes)), mem.Length)
      modifies this, mem
      ensures Valid()
      ensures r == NULL ==> live == old(live) && (sbrk.None? || overrun)
      ensures r == NULL ==> NoneFits(mem[..], ring, Units(nbytes)) && ring == old(ring)
      ensures r != NULL ==> !overrun && r - 1 !in old(live) && live == old(live)[r - 1 := Units(nbytes)]
      ensures overrun <==> && sbrk.Some? && 0x7FFF_FFF0 < nbytes <= 0xFFFF_FFF8
                           && (old(freep) == NULL || NoneFits(old(mem[..]), old(ring), Units(nbytes)))
      ensures grew ==> sbrk.Some? && (old(freep) == NULL || NoneFits(old(mem[..]), old(ring), Units(nbytes)))
      ensures owner.Keys == if grew then Grown(old(owner), sbrk.value, Grant(Units(nbytes))).Keys else old(owner.Keys)
      ensures Untouched(old(mem[..]), mem[..], old(live))
    {
      hide Untouched, Scanning, Consistent, Grown, Units, NoneFits, Fits, Grant, SbrkArg;
      var nunits := Units(nbytes);
      RequestServed(nbytes);
      SameIsUntouched(mem[..], live);
      if freep == NULL {
        Initialise();
        BaseIsSmall(mem[..], ring, base, nunits);
      }
      grew := false;
      ghost var mem0, ring0, owner0 := mem[..], ring, owner;
      ghost var f: nat := StartScan(nunits);
      ghost var c: nat := 0;
      var prevp: nat := freep;
      var p: nat := mem[prevp].ptr;
      while true
        invariant Ready({}) && freep != NULL && live == old(live) && f < |ring| && c < |ring|
        invariant Scanning(f, c, prevp, nunits) && prevp < mem.Length && p == mem[prevp].ptr
        invariant !grew ==> mem[..] == mem0 && ring == ring0 && owner == owner0
        invariant Untouched(old(mem[..]), mem[..], live)
        invariant grew ==> AskedInFull(nbytes)
        invariant grew ==> sbrk.Some? && NoneFits(mem0, ring0, nunits) && Fits(mem[..], ring, nunits)
        invariant grew ==> owner.Keys == Grown(owner0, sbrk.value, Grant(nunits)).Keys
        decreases !grew, |ring| - c
      {
        ghost var j := Examine(f, c, prevp, nunits);
        if mem[p].size >= nunits {
          OneFits(mem[..], ring, j, nunits);
          ghost var mem1 := mem[..];
          var q := Carve(prevp, p, nunits, j);
          UntouchedOn(old(mem[..]), mem1, mem[..], old(live));
          return q + 1, false, grew;
        }
        Advance(f, c, prevp, nunits);
        if p == freep {
          ghost var mem1 := mem[..];
          var more, over := Morecore(nunits, sbrk);
          UntouchedOn(old(mem[..]), mem1, mem[..], live);
          if more == NULL {
            return NULL, over, grew;
          }
          p := more;
          grew := true;
          f := StartScan(nunits);
          c := 0;
        } else {
          c := c + 1;
        }
        prevp := p;
        p := mem[p].ptr;
      }
    }

    /** malloc stands at prevp, c positions after freep, and has found the blocks in between too
        small. */
    ghost predicate Scanning(f: nat, c: nat, prevp: nat, n: nat)
      reads this, mem
    {
      && f < |ring| && c < |ring| && freep == ring[f] && prevp == ring[Wrap(f + c, |ring|)]
      && Small(mem[..], ring, f, c, n)
    }

    lemma StartScan(n: nat) returns (f: nat)
      requires Ready({})
      ensures f < |ring| && 0 < |ring| && Scanning(f, 0, freep, n) && freep < mem.Length
    {
      hide Partition, Sized, Tied;
      f :| 0 <= f < |ring| && ring[f] == freep;
      RingStep(mem[..], base, ring, live, blk, owner, f);
    }

    lemma Examine(f: nat, c: nat, prevp: nat, n: nat) returns (j: nat)
      requires Ready({}) && Scanning(f, c, prevp, n)
      ensures j < |ring| && prevp < mem.Length && mem[prevp].ptr == ring[j] < mem.Length
      ensures j >= 1 ==> ring[j - 1] == prevp
      ensures j == 0 ==> mem[ring[j]].size == 0
    {
      hide Consistent, Small;
      j := Wrap(f + c + 1, |ring|);
      RingStep(mem[..], base, ring, live, blk, owner, Wrap(f + c, |ring|));
      RingStep(mem[..], base, ring, live, blk, owner, j);
    }

    lemma Advance(f: nat, c: nat, prevp: nat, n: nat)
      requires Ready({}) && Scanning(f, c, prevp, n) && prevp < mem.Length
      requires mem[prevp].ptr < mem.Length && mem[mem[prevp].ptr].size < n
      ensures mem[prevp].ptr == freep ==> NoneFits(mem[..], ring, n) && !Fits(mem[..], ring, n)
      ensures mem[prevp].ptr != freep ==> c + 1 < |ring| && Scanning(f, c + 1, mem[prevp].ptr, n)
    {
      hide Consistent, Small, NoneFits, Fits;
      RingStep(mem[..], base, ring, live, blk, owner, Wrap(f + c, |ring|));
      SmallMore(mem[..], ring, f, c, n);
      if mem[prevp].ptr == freep {
        FullCircle(mem[..], base, ring, live, blk, owner, f, c + 1, n);
      }
    }

    method Initialise()
      requires Valid() && freep == NULL
      modifies this`freep, mem
      ensures Ready({}) && freep == base != NULL && base < mem.Length && mem[base].size == 0
      ensures Untouched(old(mem[..]), mem[..], live)
    {
      mem[base] := Header(base, 0);
      freep := base;
      assert Good(mem[..], ring, 0);
    }
  }

  ghost predicate NoneFits(mem: seq<Header>, ring: seq<nat>, n: nat)
  {
    forall i :: 0 <= i < |ring| ==> ring[i] < |mem| && mem[ring[i]].size < n
  }

  ghost predicate Fits(mem: seq<Header>, ring: seq<nat>, n: nat)
  {
    exists w :: 0 <= w < |ring| && ring[w] < |mem| && mem[ring[w]].size >= n
  }

  lemma BaseIsSmall(mem: seq<Header>, ring: seq<nat>, base: nat, n: nat)
    requires ring == [base] && base < |mem| && mem[base].size == 0 && n >= 1
    ensures NoneFits(mem, ring, n)
  {
  }

  lemma OneFits(mem: seq<Header>, ring: seq<nat>, j: nat, n: nat)
    requires j < |ring| && ring[j] < |mem| && mem[ring[j]].size >= n
    ensures !NoneFits(mem, ring, n)
  {
  }

  /** The c ring positions after f are too small. */
  ghost predicate Small(mem: seq<Header>, ring: seq<nat>, f: nat, c: nat, n: nat)
    requires f < |ring|
  {
    forall x :: f < x <= f + c && x < 2 * |ring| ==>
      ring[Wrap(x, |ring|)] < |mem| && mem[ring[Wrap(x, |ring|)]].size < n
  }

  lemma SmallMore(mem: seq<Header>, ring: seq<nat>, f: nat, c: nat, n: nat)
    requires f < |ring| && c < |ring| && Small(mem, ring, f, c, n)
    requires ring[Wrap(f + c + 1, |ring|)] < |mem| && mem[ring[Wrap(f + c + 1, |ring|)]].size < n
    ensures Small(mem, ring, f, c + 1, n)
  {
  }

  lemma RingStep(mem: seq<Header>, base: nat, ring: seq<nat>, live: map<nat, nat>,
                 blk: map<nat, nat>, owner: map<nat, nat>, k: nat)
    requires Consistent(mem, base, ring, live, blk, owner, {}) && k < |ring|
    ensures ring[k] < |mem| && mem[ring[k]].ptr == ring[Wrap(k + 1, |ring|)] < |mem|
    ensures k == 0 ==> mem[ring[k]].size == 0
  {
    assert Good(mem, ring, k) && Good(mem, ring, After(k, ring));
  }

  /** Back at freep, every free block has been looked at. */
  lemma FullCircle(mem: seq<Header>, base: nat, ring: seq<nat>, live: map<nat, nat>,
                   blk: map<nat, nat>, owner: map<nat, nat>, f: nat, c: nat, n: nat)
    requires Consistent(mem, base, ring, live, blk, owner, {}) && f < |ring| && c <= |ring|
    requires Small(mem, ring, f, c, n) && ring[Wrap(f + c, |ring|)] == ring[f] && c >= 1
    ensures NoneFits(mem, ring, n) && !Fits(mem, ring, n)
  {
    RingAscends(mem, base, ring);
    forall i | 0 <= i < |ring| ensures ring[i] < |mem| && mem[ring[i]].size < n {
      assert Wrap(if i <= f then i + |ring| else i, |ring|) == i;
    }
  }

  lemma CarveFacts(mem: seq<Header>, base: nat, ring: seq<nat>, live: map<nat, nat>,
                   blk: map<nat, nat>, owner: map<nat, nat>, j: nat)
    requires Consistent(mem, base, ring, live, blk, owner, {}) && 1 <= j < |ring|
    ensures ring[j] < |mem| && ring[j] in blk && mem[ring[j]].size == blk[ring[j]] && NULL < ring[j - 1] < |mem|
    ensures ring[j - 1] != ring[j]
  {
    assert ring[j] in FreeSet(ring);
    assert Good(mem, ring, j) && Good(mem, ring, j - 1);
    AboveBase(mem, base, ring, j - 1);
  }

  lemma AboveBase(mem: seq<Header>, base: nat, ring: seq<nat>, k: nat)
    requires IsRing(mem, base, ring) && k < |ring|
    ensures ring[k] >= base && (ring[k] == base <==> k == 0)
  {
    if k > 0 {
      Ascending(mem, base, ring, 0, k);
    }
  }

  lemma SearchFacts(mem: seq<Header>, base: nat, ring: seq<nat>, live: map<nat, nat>,
                    blk: map<nat, nat>, owner: map<nat, nat>, bp: nat)
    requires Consistent(mem, base, ring, live, blk, owner, {bp})
    ensures base < bp && bp !in ring
  {
    assert Owns(owner, bp, blk[bp]);
    assert bp in owner;
    forall i | 0 <= i < |ring| ensures ring[i] != bp {
      assert i >= 1 ==> ring[i] in FreeSet(ring);
    }
  }

  lemma GreatestBelow(mem: seq<Header>, base: nat, ring: seq<nat>, t: nat, bp: nat)
    requires IsRing(mem, base, ring) && Slot(ring, t, bp)
    ensures forall q :: q in ring && q < bp ==> q <= ring[t]
  {
    RingAscends(mem, base, ring);
  }

  /** The loop test and the wrap test of free recognise the slot and nothing else. */
  lemma SlotIsUnique(mem: seq<Header>, base: nat, ring: seq<nat>, bp: nat, t: nat, k: nat)
    requires IsRing(mem, base, ring) && Slot(ring, t, bp) && base < bp && bp !in ring && k < |ring|
    requires Good(mem, ring, k)
    ensures var p, next := ring[k], mem[ring[k]].ptr;
            k == t <==> (bp > p && bp < next) || (p >= next && (bp > p || bp < next))
  {
    RingAscends(mem, base, ring);
    assert ring[k] != bp && (k + 1 < |ring| ==> ring[k + 1] != bp);
  }
}
