/** Page tables and the page pool as values (vm.c, kalloc.c, mmu.h).

    Memory is a sequence of pages of 1024 words. Every page has one use; the uses record who a page
    belongs to, and Ok says that they agree with what the page tables in memory say. */
module VmSpec {
  import opened Prelude

  const PGSIZE: nat := 4096
  const ENTRIES: nat := 1024
  /** Page numbers of virtual addresses: below USER is the user part, below KERNBASE. */
  const USER: nat := 0x8_0000
  const VPAGES: nat := 0x10_0000

  const PTE_W: nat := 2
  const PTE_U: nat := 4

  type Page = s: seq<Word> | |s| == ENTRIES witness seq(ENTRIES, _ => 0)

  function ZeroPage(): (r: Page)
    ensures forall i :: 0 <= i < ENTRIES ==> r[i] == 0
  {
    seq(ENTRIES, _ => 0)
  }

  /** What kfree fills a page with; as a page table, every entry would be present. */
  function JunkPage(): Page
  {
    seq(ENTRIES, _ => 0x0101_0101)
  }

  // ----- Entries -----

  predicate Present(e: Word) { e % 2 == 1 }

  function Addr(e: Word): nat { e / 4096 }

  function Flags(e: Word): nat { e % 4096 }

  /** perm | PTE_P */
  function FlagsOf(perm: nat): nat {
    if perm % 2 == 1 then perm else perm + 1
  }

  /** pa | perm | PTE_P, for the page-aligned pa of page p */
  function Make(p: nat, perm: nat): Word
    requires p < VPAGES && perm < 4096
  {
    p * 4096 + FlagsOf(perm)
  }

  lemma MakeParts(p: nat, perm: nat)
    requires p < VPAGES && perm < 4096
    ensures Present(Make(p, perm)) && Addr(Make(p, perm)) == p
    ensures Flags(Make(p, perm)) == FlagsOf(perm)
  {
    Parts(p, FlagsOf(perm));
    assert FlagsOf(perm) % 2 == 1;
  }

  /** The entry in bits: present, writable and user as asked for, and the page above them. */
  lemma EntryBits(p: nat, perm: nat)
    requires p < VPAGES && perm < 4096
    ensures var e := Make(p, perm);
            e / 4096 == p && e % 2 == 1 && e / 2 % 2048 == perm / 2 % 2048
    ensures Make(p, PTE_W + PTE_U) == p * 4096 + 7
  {
    Parts(p, FlagsOf(perm));
    assert (p * 4096 + FlagsOf(perm)) / 2 == p * 2048 + FlagsOf(perm) / 2;
  }

  lemma Parts(p: nat, f: nat)
    requires f < 4096
    ensures (p * 4096 + f) / 4096 == p && (p * 4096 + f) % 4096 == f && (p * 4096 + f) % 2 == f % 2
  {
    assert p * 4096 + f == 2 * (2048 * p + f / 2) + f % 2;
  }

  /** How many of the first n entries are present. */
  ghost function Count(page: Page, n: nat): (c: nat)
    requires n <= ENTRIES
    ensures c <= n
  {
    if n == 0 then 0 else Count(page, n - 1) + (if Present(page[n - 1]) then 1 else 0)
  }

  lemma {:induction false} CountOneMore(page: Page, i: nat, e: Word, n: nat)
    requires i < ENTRIES && !Present(page[i]) && Present(e) && n <= ENTRIES
    ensures Count(page[i := e], n) == Count(page, n) + if i < n then 1 else 0
  {
    if n > 0 {
      CountOneMore(page, i, e, n - 1);
    }
  }

  lemma {:induction false} CountSome(page: Page, i: nat, n: nat)
    requires i < n <= ENTRIES && Present(page[i])
    ensures Count(page, n) >= 1
  {
    if i < n - 1 {
      CountSome(page, i, n - 1);
    }
  }

  lemma {:induction false} CountNone(n: nat)
    requires n <= ENTRIES
    ensures Count(ZeroPage(), n) == 0
  {
    if n > 0 {
      CountNone(n - 1);
    }
  }

  function Row(v: nat): nat { v / ENTRIES }

  function Col(v: nat): (c: nat)
    ensures c < ENTRIES
  {
    v % ENTRIES
  }

  // ----- The invariant -----

  /** What a page is used for: not for allocation, free, handed out by kalloc, a page directory, the
      table for entry i of directory d, or the page at v in the user part of directory d. */
  datatype Use = Kernel | Free | Held | Dir | Table(d: nat, i: nat) | Leaf(d: nat, v: nat)

  datatype State = State(m: seq<Page>, use: seq<Use>, free: seq<nat>)

  /** The entry for page v in directory d; 0 where there is no table. */
  function Pte(m: seq<Page>, d: nat, v: nat): Word
    requires d < |m| && v < VPAGES
  {
    var pde := m[d][Row(v)];
    if Present(pde) && Addr(pde) < |m| then m[Addr(pde)][Col(v)] else 0
  }

  /** The entry in the processor's terms: ten bits of the address pick the table, the next ten the entry, and
      an odd entry names a page in its upper twenty bits. */
  lemma Translation(m: seq<Page>, d: nat, va: Word)
    requires d < |m|
    ensures var pde := m[d][va / 0x40_0000];
            Pte(m, d, va / 0x1000)
            == if pde % 2 == 1 && pde / 0x1000 < |m| then m[pde / 0x1000][va / 0x1000 % 0x400] else 0
  {
    assert va / 0x1000 / 0x400 == va / 0x40_0000;
  }

  ghost predicate IsDir(s: State, d: nat)
  {
    d < |s.m| == |s.use| && s.use[d] == Dir
  }

  ghost predicate TableUsed(s: State, d: nat, i: nat)
  {
    IsDir(s, d) && i < ENTRIES && Present(s.m[d][i]) ==>
      Addr(s.m[d][i]) < |s.m| && s.use[Addr(s.m[d][i])] == Table(d, i)
  }

  ghost predicate LeafUsed(s: State, d: nat, v: nat)
  {
    IsDir(s, d) && v < USER && Present(Pte(s.m, d, v)) ==>
      Addr(Pte(s.m, d, v)) < |s.m| && s.use[Addr(Pte(s.m, d, v))] == Leaf(d, v)
  }

  /** A page used as a table or by a process is where its use says, so nothing is lost. */
  ghost predicate Found(s: State, p: nat)
  {
    p < |s.m| == |s.use| ==>
      match s.use[p]
      case Table(d, i) => IsDir(s, d) && i < ENTRIES && Present(s.m[d][i]) && Addr(s.m[d][i]) == p
      case Leaf(d, v) => IsDir(s, d) && v < USER && Present(Pte(s.m, d, v)) && Addr(Pte(s.m, d, v)) == p
      case _ => true
  }

  ghost predicate FreeOk(s: State)
  {
    && |s.m| == |s.use|
    && (forall i, j :: 0 <= i < j < |s.free| ==> s.free[i] != s.free[j])
    && (forall p :: p in s.free ==> p < |s.m|)
    && (forall p :: 0 <= p < |s.m| ==> (s.use[p] == Free <==> p in s.free))
  }

  ghost predicate Ok(s: State)
  {
    && |s.m| == |s.use| <= VPAGES
    && FreeOk(s)
    && (forall d, i :: 0 <= d < |s.m| && 0 <= i < ENTRIES ==> TableUsed(s, d, i))
    && (forall d, v :: 0 <= d < |s.m| && 0 <= v < USER ==> LeafUsed(s, d, v))
    && (forall p :: 0 <= p < |s.m| ==> Found(s, p))
  }

  // ----- Single steps -----

  /** kalloc */
  ghost function Taken(s: State): State
    requires s.free != [] && s.free[0] < |s.use|
  {
    s.(use := s.use[s.free[0] := Held], free := s.free[1..])
  }

  lemma TakenOk(s: State)
    requires Ok(s) && s.free != []
    ensures s.free[0] < |s.use| == |s.m| && s.use[s.free[0]] == Free && Ok(Taken(s))
  {
    hide Present, Addr, Row, Col;
    var p := s.free[0];
    assert p in s.free;
    var r := Taken(s);
    assert forall q :: q in r.free ==> q in s.free;
    forall q | 0 <= q < |s.m| && q in s.free && q != p ensures q in r.free {
      var k :| 0 <= k < |s.free| && s.free[k] == q;
      assert r.free[k - 1] == q;
    }
    SameUses(s, r);
  }

  predicate Structural(u: Use) { u.Dir? || u.Table? || u.Leaf? }

  /** Uses that matter are the same, and so are directories and tables. */
  ghost predicate Similar(s: State, r: State)
  {
    && |r.m| == |s.m| == |r.use| == |s.use|
    && (forall p :: 0 <= p < |s.m| && (Structural(s.use[p]) || Structural(r.use[p])) ==> r.use[p] == s.use[p])
    && (forall p :: 0 <= p < |s.m| && (s.use[p].Dir? || s.use[p].Table?) ==> r.m[p] == s.m[p])
  }

  lemma SamePte(s: State, r: State, d: nat, v: nat)
    requires Ok(s) && Similar(s, r) && IsDir(s, d) && v < VPAGES
    ensures Pte(r.m, d, v) == Pte(s.m, d, v)
  {
    hide Present, Addr, Col;
    assert TableUsed(s, d, Row(v));
  }

  lemma SameUses(s: State, r: State)
    requires Ok(s) && Similar(s, r) && FreeOk(r)
    ensures Ok(r)
  {
    hide Present, Addr, Row, Col, Pte;
    forall d, i | 0 <= d < |s.m| && 0 <= i < ENTRIES ensures TableUsed(r, d, i) {
      assert TableUsed(s, d, i);
    }
    forall d, v | 0 <= d < |s.m| && 0 <= v < USER ensures LeafUsed(r, d, v) {
      assert LeafUsed(s, d, v);
      if IsDir(s, d) {
        SamePte(s, r, d, v);
      }
    }
    forall p | 0 <= p < |s.m| ensures Found(r, p) {
      assert Found(s, p);
      if s.use[p].Leaf? {
        SamePte(s, r, s.use[p].d, s.use[p].v);
      }
    }
  }

  /** kfree */
  ghost function Given(s: State, p: nat): State
    requires p < |s.m| == |s.use|
  {
    State(s.m[p := JunkPage()], s.use[p := Free], [p] + s.free)
  }

  lemma GivenOk(s: State, p: nat)
    requires Ok(s) && p < |s.m| && s.use[p] == Held
    ensures Ok(Given(s, p))
  {
    hide Present, Addr, Row, Col, Pte, JunkPage;
    var r := Given(s, p);
    assert p !in s.free;
    SameUses(s, r);
  }

  /** walkpgdir puts page p in as a table, zeroed, for entry i of d. */
  ghost function WithTable(s: State, d: nat, i: nat, p: nat): State
    requires p < |s.m| == |s.use| <= VPAGES && d < |s.m| && i < ENTRIES
  {
    var m := s.m[p := ZeroPage()];
    s.(m := m[d := m[d][i := Make(p, PTE_W + PTE_U)]], use := s.use[p := Table(d, i)])
  }

  lemma WithTablePte(s: State, d: nat, i: nat, p: nat, e: nat, v: nat)
    requires Ok(s) && IsDir(s, d) && i < ENTRIES && !Present(s.m[d][i]) && p < |s.m| && s.use[p] == Held
    requires IsDir(s, e) && v < VPAGES
    ensures IsDir(WithTable(s, d, i, p), e) && Pte(WithTable(s, d, i, p).m, e, v) == Pte(s.m, e, v)
  {
    hide Present, Addr, Make;
    MakeParts(p, PTE_W + PTE_U);
    assert TableUsed(s, e, Row(v));
  }

  lemma WithTableOk(s: State, d: nat, i: nat, p: nat)
    requires Ok(s) && IsDir(s, d) && i < ENTRIES && !Present(s.m[d][i]) && p < |s.m| && s.use[p] == Held
    ensures Ok(WithTable(s, d, i, p))
  {
    hide Present, Addr, Row, Col, Pte, Make;
    var r := WithTable(s, d, i, p);
    MakeParts(p, PTE_W + PTE_U);
    forall e, k | 0 <= e < |s.m| && 0 <= k < ENTRIES ensures TableUsed(r, e, k) {
      assert TableUsed(s, e, k);
    }
    forall e, v | 0 <= e < |s.m| && 0 <= v < USER ensures LeafUsed(r, e, v) {
      assert LeafUsed(s, e, v);
      if IsDir(s, e) {
        WithTablePte(s, d, i, p, e, v);
      }
    }
    forall q | 0 <= q < |s.m| ensures Found(r, q) {
      assert Found(s, q);
      if s.use[q].Leaf? {
        WithTablePte(s, d, i, p, s.use[q].d, s.use[q].v);
      }
    }
  }

  /** Memory once entry v of d, whose table is there, has been set to e. */
  ghost function WithEntry(m: seq<Page>, d: nat, v: nat, e: Word): (r: seq<Page>)
    requires d < |m| && v < VPAGES && Addr(m[d][Row(v)]) < |m|
    ensures |r| == |m|
  {
    var t := Addr(m[d][Row(v)]);
    m[t := m[t][Col(v) := e]]
  }

  lemma RowCol(v: nat, w: nat)
    requires Row(v) == Row(w) && Col(v) == Col(w)
    ensures v == w
  {
  }

  lemma WithEntryPte(s: State, d: nat, v: nat, e: Word, d2: nat, w: nat)
    requires Ok(s) && IsDir(s, d) && v < VPAGES && Present(s.m[d][Row(v)]) && IsDir(s, d2) && w < VPAGES
    ensures Addr(s.m[d][Row(v)]) < |s.m|
    ensures var m := WithEntry(s.m, d, v, e);
            m[d2] == s.m[d2] && Pte(m, d2, w) == if d2 == d && w == v then e else Pte(s.m, d2, w)
  {
    hide Present, Addr, Row, Col;
    RowBound(v);
    RowBound(w);
    assert TableUsed(s, d, Row(v)) && TableUsed(s, d2, Row(w));
    if Row(v) == Row(w) && Col(v) == Col(w) {
      RowCol(v, w);
    }
  }

  lemma RowBound(v: nat)
    requires v < VPAGES
    ensures Row(v) < ENTRIES
  {
  }

  /** The new entry and uses fit together. */
  ghost predicate EntryFits(s: State, d: nat, v: nat, e: Word, use: seq<Use>)
  {
    && |use| == |s.use| && |s.m| == |s.use|
    && (forall p :: 0 <= p < |use| && (s.use[p].Dir? || s.use[p].Table? || use[p].Dir? || use[p].Table?) ==>
          use[p] == s.use[p])
    && (forall p :: 0 <= p < |use| && s.use[p].Leaf? && s.use[p] != Leaf(d, v) ==> use[p] == s.use[p])
    && (forall p :: 0 <= p < |use| && use[p].Leaf? && use[p] != Leaf(d, v) ==> use[p] == s.use[p])
    && (forall p :: 0 <= p < |use| && use[p] == Leaf(d, v) ==> v < USER && Present(e) && Addr(e) == p)
    && (Present(e) && v < USER ==> Addr(e) < |use| && use[Addr(e)] == Leaf(d, v))
  }

  lemma WithEntryOk(s: State, d: nat, v: nat, e: Word, r: State)
    requires Ok(s) && IsDir(s, d) && v < VPAGES && Present(s.m[d][Row(v)]) && Addr(s.m[d][Row(v)]) < |s.m|
    requires EntryFits(s, d, v, e, r.use) && r.m == WithEntry(s.m, d, v, e) && FreeOk(r)
    ensures Ok(r)
  {
    hide Present, Addr, Row, Col, Pte, WithEntry;
    forall d2 | 0 <= d2 < |s.m| && IsDir(r, d2) ensures r.m[d2] == s.m[d2] {
      WithEntryPte(s, d, v, e, d2, 0);
    }
    forall d2, k | 0 <= d2 < |s.m| && 0 <= k < ENTRIES ensures TableUsed(r, d2, k) {
      assert TableUsed(s, d2, k);
    }
    forall d2, w | 0 <= d2 < |s.m| && 0 <= w < USER ensures LeafUsed(r, d2, w) {
      assert LeafUsed(s, d2, w);
      if IsDir(s, d2) {
        WithEntryPte(s, d, v, e, d2, w);
      }
    }
    forall p | 0 <= p < |s.m| ensures Found(r, p) {
      assert Found(s, p);
      if r.use[p].Leaf? {
        var u := r.use[p];
        WithEntryPte(s, d, v, e, if u == Leaf(d, v) then d else u.d, if u == Leaf(d, v) then v else u.v);
      }
    }
  }

  // ----- Growing and shrinking one address space -----

  ghost predicate TableOf(u: Use, d: nat) { u.Table? && u.d == d }

  ghost predicate LeafIn(u: Use, d: nat, lo: nat, hi: nat) { u.Leaf? && u.d == d && lo <= u.v < hi }

  /** The entry for v where there is one, and 0 elsewhere. */
  function View(m: seq<Page>, d: nat, v: nat): Word
    requires d < |m| && v < VPAGES
  {
    if Present(Pte(m, d, v)) then Pte(m, d, v) else 0
  }

  /** Pages in use, other than d and its tables, hold what they held. */
  ghost predicate Framed(s: State, r: State, d: nat)
  {
    && |r.m| == |s.m| == |r.use| == |s.use| && IsDir(s, d) && IsDir(r, d)
    && forall q :: 0 <= q < |s.m| && s.use[q] != Free && q != d && !TableOf(s.use[q], d) ==> r.m[q] == s.m[q]
  }

  /** mappages of one page: the entry for v is set, and perhaps a free page has become its table. */
  ghost predicate Maps(s: State, r: State, d: nat, v: nat, p: nat, perm: nat)
  {
    && Framed(s, r, d) && v < VPAGES && p < VPAGES && perm < 4096
    && (v < USER ==> p < |s.use| && r.use[p] == Leaf(d, v))
    && (forall q :: 0 <= q < |s.use| && (v < USER ==> q != p) ==>
          r.use[q] == s.use[q] || (s.use[q] == Free && r.use[q] == Table(d, Row(v))))
    && (forall w :: 0 <= w < VPAGES ==> Pte(r.m, d, w) == if w == v then Make(p, perm) else Pte(s.m, d, w))
  }

  /** What a page is to hold, and with which permissions. */
  datatype Want = Want(perm: nat, page: Page)

  /** Page w is mapped as wanted, to a page that was free in s, and was not mapped in s. */
  ghost predicate Holds(s: State, r: State, d: nat, w: nat, want: Want)
  {
    && |r.m| == |s.use| == |s.m| && d < |r.m| && w < VPAGES && !Present(Pte(s.m, d, w))
    && var e := Pte(r.m, d, w);
       Present(e) && Flags(e) == FlagsOf(want.perm) && Addr(e) < |r.m| && s.use[Addr(e)] == Free
         && r.m[Addr(e)] == want.page
  }

  /** From s to r, d has gained the pages from lo on, and tables for them. */
  ghost predicate Extended(s: State, r: State, d: nat, lo: nat, want: seq<Want>)
  {
    && Framed(s, r, d) && lo + |want| <= USER
    && (forall q :: 0 <= q < |s.use| ==>
          r.use[q] == s.use[q] || (s.use[q] == Free && (TableOf(r.use[q], d) || LeafIn(r.use[q], d, lo, lo + |want|))))
    && (forall k :: 0 <= k < |want| ==> Holds(s, r, d, lo + k, want[k]))
    && (forall w :: 0 <= w < VPAGES && !(lo <= w < lo + |want|) ==> Pte(r.m, d, w) == Pte(s.m, d, w))
  }

  lemma ExtendNone(s: State, d: nat, lo: nat)
    requires IsDir(s, d) && lo <= USER
    ensures Extended(s, s, d, lo, [])
  {
  }

  /** One turn of a loop that allocates page p, fills it and maps it. */
  lemma ExtendUses(s: State, r: State, d: nat, lo: nat, want: seq<Want>, p: nat, f: State, t: State, one: Want)
    requires Extended(s, r, d, lo, want) && lo + |want| < USER && one.perm < 4096
    requires p < |r.m| && r.use[p] == Free
    requires f.m == r.m[p := one.page] && f.use == r.use[p := Held]
    requires Maps(f, t, d, lo + |want|, p, one.perm)
    ensures forall q :: 0 <= q < |s.use| ==>
          t.use[q] == s.use[q]
            || (s.use[q] == Free && (TableOf(t.use[q], d) || LeafIn(t.use[q], d, lo, lo + |want| + 1)))
    ensures Framed(s, t, d)
  {
    hide Holds, Pte, Make, Row;
  }

  lemma FilledPte(r: State, d: nat, p: nat, page: Page, w: nat)
    requires Ok(r) && IsDir(r, d) && p < |r.m| && !r.use[p].Dir? && !r.use[p].Table? && w < VPAGES
    ensures Pte(r.m[p := page], d, w) == Pte(r.m, d, w)
  {
    hide Present, Addr, Col;
    RowBound(w);
    assert TableUsed(r, d, Row(w));
  }

  lemma ExtendMore(s: State, r: State, d: nat, lo: nat, want: seq<Want>, p: nat, f: State, t: State, one: Want)
    requires Ok(s) && Ok(r) && Extended(s, r, d, lo, want) && lo + |want| < USER && one.perm < 4096
    requires p < |r.m| && r.use[p] == Free && !Present(Pte(r.m, d, lo + |want|))
    requires f.m == r.m[p := one.page] && f.use == r.use[p := Held]
    requires Maps(f, t, d, lo + |want|, p, one.perm)
    ensures Extended(s, t, d, lo, want + [one])
  {
    hide Present, Addr, Flags, Pte, Make, Row;
    var v := lo + |want|;
    ExtendUses(s, r, d, lo, want, p, f, t, one);
    MakeParts(p, one.perm);
    forall w | 0 <= w < VPAGES && w != v ensures Pte(t.m, d, w) == Pte(r.m, d, w) {
      FilledPte(r, d, p, one.page, w);
    }
    forall k | 0 <= k < |want| ensures Holds(s, t, d, lo + k, want[k]) {
      assert Holds(s, r, d, lo + k, want[k]);
      assert LeafUsed(r, d, lo + k);
    }
    assert Pte(t.m, d, v) == Make(p, one.perm);
    assert Holds(s, t, d, v, one);
  }

  /** From s to r, d has lost the pages from lo up to hi, and nothing else has changed. */
  ghost predicate Shrunk(s: State, r: State, d: nat, lo: nat, hi: nat)
  {
    && |r.m| == |s.m| == |r.use| == |s.use| && IsDir(s, d) && r.m[d] == s.m[d]
    && (forall q :: 0 <= q < |s.use| ==> r.use[q] == if LeafIn(s.use[q], d, lo, hi) then Free else s.use[q])
    && (forall q :: 0 <= q < |s.m| && s.use[q] != Free && r.use[q] == s.use[q] && !TableOf(s.use[q], d) ==>
          r.m[q] == s.m[q])
    && (forall w :: 0 <= w < VPAGES ==>
          Pte(r.m, d, w) == if lo <= w < hi && Present(Pte(s.m, d, w)) then 0 else Pte(s.m, d, w))
  }

  /** kfree of the page at v, and its entry cleared. */
  ghost function Unmapped(s: State, d: nat, v: nat): State
    requires d < |s.m| == |s.use| && v < VPAGES && Addr(s.m[d][Row(v)]) < |s.m| && Addr(Pte(s.m, d, v)) < |s.m|
  {
    var p, t := Addr(Pte(s.m, d, v)), Addr(s.m[d][Row(v)]);
    var m := s.m[p := JunkPage()];
    State(m[t := m[t][Col(v) := 0]], s.use[p := Free], [p] + s.free)
  }

  lemma UnmapOk(s: State, d: nat, v: nat)
    requires Ok(s) && IsDir(s, d) && v < USER && Present(Pte(s.m, d, v))
    ensures Present(s.m[d][Row(v)]) && Addr(s.m[d][Row(v)]) < |s.m| && Addr(Pte(s.m, d, v)) < |s.m|
    ensures s.use[Addr(Pte(s.m, d, v))] == Leaf(d, v) && s.use[Addr(s.m[d][Row(v)])] == Table(d, Row(v))
    ensures Ok(Unmapped(s, d, v))
  {
    hide Addr, Row, Col, JunkPage;
    RowBound(v);
    assert TableUsed(s, d, Row(v)) && LeafUsed(s, d, v);
    var p, t := Addr(Pte(s.m, d, v)), Addr(s.m[d][Row(v)]);
    var c := State(WithEntry(s.m, d, v, 0), s.use[p := Held], s.free);
    forall q | 0 <= q < |s.use| && s.use[q] == Leaf(d, v) ensures q == p {
      assert Found(s, q);
    }
    WithEntryOk(s, d, v, 0, c);
    GivenOk(c, p);
    assert Given(c, p).m == Unmapped(s, d, v).m && Given(c, p).use == Unmapped(s, d, v).use;
  }

  lemma UnmapShrinks(s: State, d: nat, v: nat)
    requires Ok(s) && IsDir(s, d) && v < USER && Present(Pte(s.m, d, v))
    requires Present(s.m[d][Row(v)]) && Addr(s.m[d][Row(v)]) < |s.m| && Addr(Pte(s.m, d, v)) < |s.m|
    requires s.use[Addr(Pte(s.m, d, v))] == Leaf(d, v) && s.use[Addr(s.m[d][Row(v)])] == Table(d, Row(v))
    ensures Shrunk(s, Unmapped(s, d, v), d, v, v + 1)
  {
    hide Present, Addr, Row, Col, JunkPage, Pte;
    RowBound(v);
    var p, t := Addr(Pte(s.m, d, v)), Addr(s.m[d][Row(v)]);
    var r := Unmapped(s, d, v);
    forall q | 0 <= q < |s.use| && LeafIn(s.use[q], d, v, v + 1) ensures q == p {
      assert Found(s, q);
    }
    forall w | 0 <= w < VPAGES ensures Pte(r.m, d, w) == if v == w then 0 else Pte(s.m, d, w) {
      WithEntryPte(s, d, v, 0, d, w);
      var c := State(WithEntry(s.m, d, v, 0), s.use[p := Held], s.free);
      assert r.m == c.m[p := JunkPage()];
      UnmappedPte(s, d, v, w);
    }
  }

  lemma UnmappedPte(s: State, d: nat, v: nat, w: nat)
    requires Ok(s) && IsDir(s, d) && v < USER && w < VPAGES && Present(Pte(s.m, d, v))
    requires Present(s.m[d][Row(v)]) && Addr(s.m[d][Row(v)]) < |s.m| && Addr(Pte(s.m, d, v)) < |s.m|
    requires s.use[Addr(Pte(s.m, d, v))] == Leaf(d, v) && s.use[Addr(s.m[d][Row(v)])] == Table(d, Row(v))
    ensures Pte(Unmapped(s, d, v).m, d, w) == Pte(WithEntry(s.m, d, v, 0), d, w)
  {
    hide Present, Addr, Row, Col, JunkPage;
    RowBound(w);
    assert TableUsed(s, d, Row(w));
  }

  lemma ShrinkMore(s: State, r: State, t: State, d: nat, lo: nat, mid: nat, hi: nat)
    requires Shrunk(s, r, d, lo, mid) && Shrunk(r, t, d, mid, hi) && lo <= mid <= hi
    ensures Shrunk(s, t, d, lo, hi)
  {
    hide Pte;
    assert !Present(0);
  }

  /** Where nothing is mapped there is nothing to do. */
  lemma ShrinkNone(s: State, d: nat, lo: nat, hi: nat)
    requires Ok(s) && IsDir(s, d) && hi <= USER
    requires forall w :: lo <= w < hi ==> !Present(Pte(s.m, d, w))
    ensures Shrunk(s, s, d, lo, hi)
  {
    hide Pte, Present, Addr;
    forall q | 0 <= q < |s.use| ensures !LeafIn(s.use[q], d, lo, hi) {
      assert Found(s, q);
    }
  }

  /** If d has no entry for a row, none of the row's pages is mapped. */
  lemma RowIsEmpty(s: State, d: nat, v: nat)
    requires IsDir(s, d) && v < VPAGES && Row(v) < ENTRIES && !Present(s.m[d][Row(v)])
    ensures forall w :: v <= w < (Row(v) + 1) * ENTRIES ==> w < VPAGES && !Present(Pte(s.m, d, w))
  {
    forall w | v <= w < (Row(v) + 1) * ENTRIES ensures w < VPAGES && !Present(Pte(s.m, d, w)) {
      assert Row(w) == Row(v);
    }
  }

  /** walkpgdir with alloc: there is a table for v, perhaps a new one, and no entry has changed. */
  ghost predicate Walked(s: State, r: State, d: nat, v: nat)
  {
    && Framed(s, r, d) && v < VPAGES && Row(v) < ENTRIES && Present(r.m[d][Row(v)])
    && (forall q :: 0 <= q < |s.use| ==> r.use[q] == s.use[q] || (s.use[q] == Free && r.use[q] == Table(d, Row(v))))
    && (forall w :: 0 <= w < VPAGES ==> Pte(r.m, d, w) == Pte(s.m, d, w))
  }

  lemma WalkAdds(s: State, d: nat, v: nat)
    requires Ok(s) && IsDir(s, d) && v < VPAGES && Row(v) < ENTRIES && !Present(s.m[d][Row(v)]) && s.free != []
    ensures s.free[0] < |s.use| <= VPAGES && s.use[s.free[0]] == Free && s.free[0] != d
    ensures Ok(WithTable(Taken(s), d, Row(v), s.free[0])) && Walked(s, WithTable(Taken(s), d, Row(v), s.free[0]), d, v)
  {
    hide Pte, Row, Col, Addr, Make;
    TakenOk(s);
    var f, p := Taken(s), s.free[0];
    WithTableOk(f, d, Row(v), p);
    forall w | 0 <= w < VPAGES ensures Pte(WithTable(f, d, Row(v), p).m, d, w) == Pte(s.m, d, w) {
      WithTablePte(f, d, Row(v), p, d, w);
    }
    MakeParts(p, PTE_W + PTE_U);
  }

  /** The uses after an entry for page p has been stored at v. */
  ghost function UseAt(use: seq<Use>, d: nat, v: nat, p: nat): seq<Use>
    requires v < USER ==> p < |use|
  {
    if v < USER then use[p := Leaf(d, v)] else use
  }

  lemma StoreMaps(s: State, r: State, d: nat, v: nat, p: nat, perm: nat)
    requires Ok(s) && Ok(r) && Walked(s, r, d, v) && p < VPAGES && perm < 4096 && !Present(Pte(s.m, d, v))
    requires v < USER ==> p < |s.use| && s.use[p] == Held
    ensures Addr(r.m[d][Row(v)]) < |r.m| && TableOf(r.use[Addr(r.m[d][Row(v)])], d)
    ensures var t := State(WithEntry(r.m, d, v, Make(p, perm)), UseAt(r.use, d, v, p), r.free);
            Ok(t) && Maps(s, t, d, v, p, perm)
  {
    hide Present, Row, Col, Addr, Make, Pte;
    assert TableUsed(r, d, Row(v));
    MakeParts(p, perm);
    var t := State(WithEntry(r.m, d, v, Make(p, perm)), UseAt(r.use, d, v, p), r.free);
    forall q | 0 <= q < |r.use| ensures r.use[q] != Leaf(d, v) {
      assert Found(r, q);
    }
    WithEntryOk(r, d, v, Make(p, perm), t);
    forall w | 0 <= w < VPAGES ensures Pte(t.m, d, w) == if w == v then Make(p, perm) else Pte(s.m, d, w) {
      WithEntryPte(r, d, v, Make(p, perm), d, w);
    }
  }

  /** Other address spaces are as they were. */
  lemma OthersUntouched(s: State, r: State, d: nat, e: nat, w: nat)
    requires Ok(s) && Framed(s, r, d) && IsDir(s, e) && e != d && w < VPAGES
    ensures Pte(r.m, e, w) == Pte(s.m, e, w)
  {
    hide Present, Addr, Col;
    RowBound(w);
    assert TableUsed(s, e, Row(w));
  }

  // ----- Giving an address space up -----

  /** d and its tables are no longer a page table, just pages to be freed. */
  ghost function Retired(s: State, d: nat): (r: State)
    ensures r.m == s.m && r.free == s.free && |r.use| == |s.use|
    ensures forall q :: 0 <= q < |s.use| ==> r.use[q] == if q == d || TableOf(s.use[q], d) then Held else s.use[q]
  {
    s.(use := seq(|s.use|, q requires 0 <= q < |s.use| => if q == d || TableOf(s.use[q], d) then Held else s.use[q]))
  }

  lemma RetiredOk(s: State, d: nat)
    requires Ok(s) && IsDir(s, d) && forall q :: 0 <= q < |s.use| ==> !LeafIn(s.use[q], d, 0, USER)
    ensures Ok(Retired(s, d))
  {
    hide Retired, Pte, Present, Addr;
    var r := Retired(s, d);
    forall e, i | 0 <= e < |s.m| && 0 <= i < ENTRIES ensures TableUsed(r, e, i) {
      assert TableUsed(s, e, i);
    }
    forall e, v | 0 <= e < |s.m| && 0 <= v < USER ensures LeafUsed(r, e, v) {
      assert LeafUsed(s, e, v);
    }
    forall p | 0 <= p < |s.m| ensures Found(r, p) {
      assert Found(s, p);
    }
  }

  /** The tables for the first n entries of d have been freed. */
  ghost predicate TornDown(s: State, r: State, d: nat, n: nat)
  {
    && |r.m| == |s.m| == |r.use| == |s.use| && IsDir(s, d)
    && (forall q :: 0 <= q < |s.use| ==>
          r.use[q] == if q == d then Held
                      else if TableOf(s.use[q], d) then (if s.use[q].i < n then Free else Held)
                      else s.use[q])
    && (forall q :: 0 <= q < |s.m| && s.use[q] != Free && !TableOf(s.use[q], d) ==> r.m[q] == s.m[q])
  }

  lemma TearMore(s: State, r: State, d: nat, n: nat)
    requires Ok(s) && Ok(r) && TornDown(s, r, d, n) && n < ENTRIES
    ensures !Present(s.m[d][n]) ==> TornDown(s, r, d, n + 1)
    ensures Present(s.m[d][n]) ==>
              Addr(s.m[d][n]) < |s.m| && r.use[Addr(s.m[d][n])] == Held && Addr(s.m[d][n]) != d
              && TornDown(s, Given(r, Addr(s.m[d][n])), d, n + 1) && Ok(Given(r, Addr(s.m[d][n])))
  {
    hide Present, Addr, JunkPage;
    assert TableUsed(s, d, n);
    forall q | 0 <= q < |s.use| && s.use[q] == Table(d, n) ensures Present(s.m[d][n]) && Addr(s.m[d][n]) == q {
      assert Found(s, q);
    }
    if Present(s.m[d][n]) {
      GivenOk(r, Addr(s.m[d][n]));
    }
  }

  ghost predicate Owns(s: State, d: nat, q: nat)
  {
    q < |s.use| && (q == d || TableOf(s.use[q], d) || (s.use[q].Leaf? && s.use[q].d == d))
  }

  /** All of d's pages are free, and nothing else has changed. */
  ghost predicate Gone(s: State, r: State, d: nat)
  {
    && |r.m| == |s.m| == |r.use| == |s.use|
    && (forall q :: 0 <= q < |s.use| ==> r.use[q] == if Owns(s, d, q) then Free else s.use[q])
    && (forall q :: 0 <= q < |s.m| && s.use[q] != Free && !Owns(s, d, q) ==> r.m[q] == s.m[q])
  }

  lemma TornIsGone(s0: State, s: State, r: State, d: nat)
    requires Ok(s0) && Shrunk(s0, s, d, 0, USER) && TornDown(s, r, d, ENTRIES) && Ok(s) && Ok(r) && d < |r.m|
    ensures Ok(Given(r, d)) && Gone(s0, Given(r, d), d)
  {
    hide Pte, Present, Addr, JunkPage;
    GivenOk(r, d);
    forall q | 0 <= q < |s.use| ensures s.use[q].Table? ==> s.use[q].i < ENTRIES {
      assert Found(s, q);
    }
    forall q | 0 <= q < |s0.use| && s0.use[q].Leaf? ensures s0.use[q].v < USER {
      assert Found(s0, q);
    }
  }

  /** A zeroed page becomes a directory. */
  lemma NewDirOk(s: State, d: nat)
    requires Ok(s) && d < |s.m| && s.use[d] == Held && s.m[d] == ZeroPage()
    ensures Ok(s.(use := s.use[d := Dir]))
    ensures forall w :: 0 <= w < VPAGES ==> Pte(s.m, d, w) == 0
  {
    hide Addr, Row, Col, Pte;
    var r := s.(use := s.use[d := Dir]);
    forall w | 0 <= w < VPAGES ensures Pte(s.m, d, w) == 0 {
      RowBound(w);
      ZeroPte(s.m, d, w);
    }
    forall e, i | 0 <= e < |s.m| && 0 <= i < ENTRIES ensures TableUsed(r, e, i) {
      assert TableUsed(s, e, i);
    }
    forall e, v | 0 <= e < |s.m| && 0 <= v < USER ensures LeafUsed(r, e, v) {
      assert LeafUsed(s, e, v);
    }
    forall p | 0 <= p < |s.m| ensures Found(r, p) {
      assert Found(s, p);
    }
  }

  lemma ZeroPte(m: seq<Page>, d: nat, w: nat)
    requires d < |m| && m[d] == ZeroPage() && w < VPAGES && Row(w) < ENTRIES
    ensures Pte(m, d, w) == 0
  {
  }

  lemma FilledOk(s: State, p: nat, page: Page)
    requires Ok(s) && p < |s.m| && s.use[p] == Held
    ensures Ok(s.(m := s.m[p := page]))
  {
    hide Present, Addr, Row, Col, Pte;
    SameUses(s, s.(m := s.m[p := page]));
  }

  // ----- Failure -----

  /** From s to r, d has no page left between lo and hi and otherwise the pages it had; it may have
      more tables. */
  ghost predicate Emptied(s: State, r: State, d: nat, lo: nat, hi: nat)
  {
    && |r.m| == |s.m| == |r.use| == |s.use| && IsDir(s, d) && IsDir(r, d)
    && (forall q :: 0 <= q < |s.use| ==>
          || r.use[q] == (if LeafIn(s.use[q], d, lo, hi) then Free else s.use[q])
          || (s.use[q] == Free && TableOf(r.use[q], d)))
    && (forall q :: 0 <= q < |s.m| && s.use[q] != Free && r.use[q] == s.use[q] && q != d && !TableOf(s.use[q], d) ==>
          r.m[q] == s.m[q])
    && (forall w :: 0 <= w < VPAGES ==> View(r.m, d, w) == if lo <= w < hi then 0 else View(s.m, d, w))
  }

  lemma UndoExtension(s: State, r: State, t: State, d: nat, lo: nat, want: seq<Want>, hi: nat)
    requires Extended(s, r, d, lo, want) && Shrunk(r, t, d, lo, hi) && lo + |want| <= hi
    ensures Emptied(s, t, d, lo, hi)
  {
    hide Pte, Holds;
    assert !Present(0);
  }

  /** Deallocating around a page that kalloc has handed out, and then freeing that page. */
  lemma ShrunkAround(r: State, p: nat, page: Page, f: State, t: State, d: nat, lo: nat, hi: nat)
    requires Ok(r) && p < |r.m| && r.use[p] == Free && IsDir(r, d)
    requires f.m == r.m[p := page] && f.use == r.use[p := Held] && Ok(t) && Shrunk(f, t, d, lo, hi)
    ensures p < |t.m| == |t.use| && t.use[p] == Held && Shrunk(r, Given(t, p), d, lo, hi)
  {
    hide Pte, Present, Addr, JunkPage, Row;
    var u := Given(t, p);
    forall w | 0 <= w < VPAGES
      ensures Pte(u.m, d, w) == if lo <= w < hi && Present(Pte(r.m, d, w)) then 0 else Pte(r.m, d, w)
    {
      FilledPte(r, d, p, page, w);
      FilledPte(t, d, p, JunkPage(), w);
    }
  }

  /** A failed allocuvm leaves the user part as it was exactly when nothing was mapped there. */
  lemma FailureRestores(s: State, r: State, d: nat, lo: nat, hi: nat)
    requires Emptied(s, r, d, lo, hi) && hi <= USER
    ensures (forall w :: 0 <= w < VPAGES ==> View(r.m, d, w) == View(s.m, d, w))
            <==> (forall w :: lo <= w < hi ==> !Present(Pte(s.m, d, w)))
  {
    hide Pte;
    if w :| lo <= w < hi && Present(Pte(s.m, d, w)) {
      assert View(r.m, d, w) != View(s.m, d, w);
    }
  }

  // ----- The kernel part and new address spaces -----

  /** A row of kmap, in pages: n pages from virtual page v on map to those from page p on. */
  datatype Range = Range(v: nat, n: nat, p: nat, perm: nat)

  ghost predicate RangeOk(g: Range)
  {
    USER <= g.v && g.v + g.n <= VPAGES && g.p + g.n <= VPAGES && g.perm < 4096
  }

  ghost predicate KmapOk(kmap: seq<Range>)
  {
    && (forall k :: 0 <= k < |kmap| ==> RangeOk(kmap[k]))
    && (forall j, k :: 0 <= j < k < |kmap| ==> kmap[j].v + kmap[j].n <= kmap[k].v)
  }

  /** The rows of kmap in vm.c, where the kernel's data starts at page data of physical memory. */
  function Kmap(data: nat): seq<Range>
    requires 0x100 < data < 0xE000
  {
    [Range(0x8_0000, 0x100, 0, PTE_W), Range(0x8_0100, data - 0x100, 0x100, 0),
     Range(0x8_0000 + data, 0xE000 - data, data, PTE_W), Range(0xF_E000, 0x2000, 0xF_E000, PTE_W)]
  }

  lemma KmapIsOk(data: nat)
    requires 0x100 < data < 0xE000
    ensures KmapOk(Kmap(data))
  {
  }

  /** The entry the ranges call for at w. */
  ghost function Wanted(kmap: seq<Range>, w: nat): Word
    requires forall k :: 0 <= k < |kmap| ==> RangeOk(kmap[k])
  {
    if kmap == [] then 0
    else
      var g := kmap[|kmap| - 1];
      assert RangeOk(g);
      if g.v <= w < g.v + g.n then Make(g.p + (w - g.v), g.perm) else Wanted(kmap[..|kmap| - 1], w)
  }

  /** What kmap calls for at every page of the kernel part: physical memory below PHYSTOP is at KERNBASE, devices
      are where they are, and all of it but the kernel's text can be written. */
  lemma KernelPart(data: nat, w: nat)
    requires 0x100 < data < 0xE000 && w < 0x10_0000
    ensures KmapOk(Kmap(data))
    ensures Wanted(Kmap(data), w) ==
            if 0x8_0000 <= w < 0x8_E000 then
              (w - 0x8_0000) * 4096 + if 0x8_0100 <= w < 0x8_0000 + data then 1 else 3
            else if 0xF_E000 <= w then w * 4096 + 3
            else 0
  {
    var k := Kmap(data);
    assert k[..3][..2] == k[..2] && k[..2][..1] == k[..1] && k[..1][..0] == [];
    var one := if 0x8_0000 <= w < 0x8_0100 then Make(w - 0x8_0000, 2) else 0;
    assert Wanted(k[..1], w) == one;
    var two := if 0x8_0100 <= w < 0x8_0000 + data then Make(w - 0x8_0000, 0) else one;
    assert Wanted(k[..2], w) == two;
    var three := if 0x8_0000 + data <= w < 0x8_E000 then Make(w - 0x8_0000, 2) else two;
    assert Wanted(k[..3], w) == three;
    assert |k| == 4 && k[..4] == k;
  }

  lemma {:induction false} WantedOutside(kmap: seq<Range>, w: nat)
    requires forall k :: 0 <= k < |kmap| ==> RangeOk(kmap[k])
    requires forall k :: 0 <= k < |kmap| ==> !(kmap[k].v <= w < kmap[k].v + kmap[k].n)
    ensures Wanted(kmap, w) == 0
  {
    if kmap != [] {
      WantedOutside(kmap[..|kmap| - 1], w);
    }
  }

  /** From s to r, d is a new directory with its tables and pages; nothing else has changed. */
  ghost predicate Cloned(s: State, r: State, d: nat)
  {
    && |r.m| == |s.m| == |r.use| == |s.use| && d < |s.m| && s.use[d] == Free && r.use[d] == Dir
    && (forall q :: 0 <= q < |s.use| ==> r.use[q] == s.use[q] || (s.use[q] == Free && Owns(r, d, q)))
    && (forall q :: 0 <= q < |s.m| && s.use[q] != Free ==> r.m[q] == s.m[q])
  }

  /** Every page has the use it had, and those in use hold what they held. */
  ghost predicate Same(s: State, r: State)
  {
    && |r.m| == |s.m| == |s.use| && r.use == s.use
    && (forall q :: 0 <= q < |s.m| && s.use[q] != Free ==> r.m[q] == s.m[q])
  }

  lemma NothingOwned(s: State, d: nat, q: nat)
    requires Ok(s) && d < |s.m| && s.use[d] == Free && q < |s.use|
    ensures s.use[q] != Free ==> !Owns(s, d, q)
  {
    hide Pte, Present, Addr;
    assert Found(s, q);
  }

  lemma CloneGone(s: State, r: State, t: State, d: nat)
    requires Ok(s) && Cloned(s, r, d) && Gone(r, t, d)
    ensures Same(s, t)
  {
    hide Ok, Found;
    forall q | 0 <= q < |s.use| ensures t.use[q] == s.use[q] && (s.use[q] != Free ==> t.m[q] == s.m[q]) {
      NothingOwned(s, d, q);
    }
  }

  lemma ClonePages(s: State, r: State, t: State, d: nat, want: seq<Want>)
    requires Ok(s) && Cloned(s, r, d) && Extended(r, t, d, 0, want)
    ensures Cloned(s, t, d)
  {
    hide Ok, Found, Holds, Pte;
    forall q | 0 <= q < |s.use| ensures s.use[q] != Free ==> t.m[q] == s.m[q] {
      NothingOwned(s, d, q);
    }
  }

  lemma CloneTable(s: State, r: State, t: State, d: nat, v: nat, p: nat, perm: nat)
    requires Ok(s) && Cloned(s, r, d) && Maps(r, t, d, v, p, perm) && v >= USER
    ensures Cloned(s, t, d)
  {
    hide Ok, Found, Pte, Make, Row;
    forall q | 0 <= q < |s.use| ensures s.use[q] != Free ==> t.m[q] == s.m[q] {
      NothingOwned(s, d, q);
    }
  }

  /** The kernel part of d is as the ranges call for, and there is no user part yet. */
  ghost predicate Built(r: State, d: nat, kmap: seq<Range>)
  {
    && IsDir(r, d) && (forall k :: 0 <= k < |kmap| ==> RangeOk(kmap[k]))
    && forall w :: 0 <= w < VPAGES ==> Pte(r.m, d, w) == Wanted(kmap, w)
  }

  /** Range g with its first j pages only. */
  ghost function Upto(kmap: seq<Range>, g: Range, j: nat): seq<Range>
  {
    kmap + [g.(n := j)]
  }

  lemma BuildStart(r: State, d: nat, kmap: seq<Range>, g: Range)
    requires Built(r, d, kmap) && RangeOk(g)
    ensures Built(r, d, Upto(kmap, g, 0))
  {
    hide Pte, Make;
    var more := Upto(kmap, g, 0);
    assert more[..|more| - 1] == kmap;
  }

  lemma BuildMore(r: State, t: State, d: nat, kmap: seq<Range>, g: Range, j: nat)
    requires Built(r, d, Upto(kmap, g, j)) && RangeOk(g) && j < g.n
    requires Maps(r, t, d, g.v + j, g.p + j, g.perm)
    ensures Built(t, d, Upto(kmap, g, j + 1)) && IsDir(t, d)
  {
    hide Pte, Make, Row, Present;
    var less, more := Upto(kmap, g, j), Upto(kmap, g, j + 1);
    forall k | 0 <= k < |more| ensures RangeOk(more[k]) {
      assert RangeOk(less[k]);
    }
    assert more[..|more| - 1] == kmap == less[..|less| - 1];
  }

  lemma BuildIsFree(r: State, d: nat, kmap: seq<Range>, k: nat, j: nat)
    requires KmapOk(kmap) && k < |kmap| && j < kmap[k].n && Built(r, d, Upto(kmap[..k], kmap[k], j))
    ensures RangeOk(kmap[k]) && Pte(r.m, d, kmap[k].v + j) == 0
  {
    hide Pte;
    assert RangeOk(kmap[k]);
    WantedOutside(Upto(kmap[..k], kmap[k], j), kmap[k].v + j);
  }

  // ----- Copying an address space -----

  /** A new address space leaves the old ones alone. */
  lemma ClonedPte(s: State, r: State, d2: nat, d: nat, w: nat)
    requires Ok(s) && Cloned(s, r, d2) && IsDir(s, d) && w < VPAGES
    ensures IsDir(r, d) && d != d2 && Row(w) < ENTRIES && r.m[d] == s.m[d] && Pte(r.m, d, w) == Pte(s.m, d, w)
    ensures w < USER && Present(Pte(s.m, d, w)) ==>
              Addr(Pte(s.m, d, w)) < |s.m| && r.m[Addr(Pte(s.m, d, w))] == s.m[Addr(Pte(s.m, d, w))]
  {
    hide Present, Addr, Col;
    RowBound(w);
    assert TableUsed(s, d, Row(w)) && LeafUsed(s, d, w);
  }

  lemma CloneAround(s: State, x: State, d: nat, p: nat, page: Page, f: State)
    requires Cloned(s, x, d) && p < |x.m| && x.use[p] == Free && f.m == x.m[p := page] && f.use == x.use[p := Held]
    ensures Cloned(s, Given(f, p), d)
  {
    hide JunkPage;
    assert Given(f, p).use == x.use;
  }

  /** What the first pages of d hold. */
  ghost predicate Contents(s: State, d: nat, want: seq<Want>)
  {
    && IsDir(s, d) && |want| <= USER
    && forall k :: 0 <= k < |want| ==> IsContent(s, d, k, want[k])
  }

  ghost predicate IsContent(s: State, d: nat, k: nat, want: Want)
  {
    && IsDir(s, d) && k < VPAGES && Present(Pte(s.m, d, k)) && Addr(Pte(s.m, d, k)) < |s.m|
    && want == Want(Flags(Pte(s.m, d, k)), s.m[Addr(Pte(s.m, d, k))])
  }

  /** Page w of d2 is a copy of page w of d: same flags, same bytes, in a page that was free. */
  ghost predicate CopyOf(s: State, r: State, d: nat, d2: nat, w: nat)
  {
    && |r.m| == |s.m| == |s.use| && d < |s.m| && d2 < |s.m| && w < VPAGES
    && var e, c := Pte(s.m, d, w), Pte(r.m, d2, w);
       && Present(e) && Present(c) && Flags(c) == Flags(e)
       && Addr(e) < |s.m| && Addr(c) < |s.m| && s.use[Addr(c)] == Free
       && r.m[Addr(c)] == s.m[Addr(e)]
  }

  /** d2 is a copy of the first n pages of d, with the kernel part the ranges call for. */
  ghost predicate IsCopy(s: State, r: State, d: nat, d2: nat, n: nat, kmap: seq<Range>)
  {
    && IsDir(r, d2) && n <= USER && (forall k :: 0 <= k < |kmap| ==> RangeOk(kmap[k]))
    && (forall w :: 0 <= w < n ==> CopyOf(s, r, d, d2, w))
    && (forall w :: n <= w < VPAGES ==> Pte(r.m, d2, w) == Wanted(kmap, w))
  }

  lemma CopyIsMade(s: State, b: State, r: State, d: nat, d2: nat, want: seq<Want>, kmap: seq<Range>)
    requires Contents(s, d, want) && Cloned(s, b, d2) && Built(b, d2, kmap) && Extended(b, r, d2, 0, want)
    ensures IsCopy(s, r, d, d2, |want|, kmap)
  {
    hide Pte, Present, Addr, Flags, Wanted;
    forall w | 0 <= w < |want| ensures CopyOf(s, r, d, d2, w) {
      assert IsContent(s, d, w, want[w]) && Holds(b, r, d2, 0 + w, want[w]);
      PresentIsOdd(Pte(s.m, d, w));
    }
  }

  lemma PresentIsOdd(e: Word)
    requires Present(e)
    ensures FlagsOf(Flags(e)) == Flags(e)
  {
    assert e == 2 * (2048 * (e / 4096) + (e % 4096) / 2) + e % 4096 % 2;
  }

  /** The pages of a user part are all different, and no page is in two address spaces. */
  lemma PagesDiffer(s: State, d: nat, v: nat, e: nat, w: nat)
    requires Ok(s) && IsDir(s, d) && IsDir(s, e) && v < USER && w < USER && (d, v) != (e, w)
    requires Present(Pte(s.m, d, v)) && Present(Pte(s.m, e, w))
    ensures Addr(Pte(s.m, d, v)) != Addr(Pte(s.m, e, w))
  {
    hide Pte, Present, Addr;
    assert LeafUsed(s, d, v) && LeafUsed(s, e, w);
  }
}
