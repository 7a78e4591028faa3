/** The page pool and the operations on address spaces, in place (kalloc.c, vm.c). */
module Vm {
  import opened Prelude
  import opened VmSpec

  datatype MapResult = Mapped | NoMemory | Remap

  datatype PageResult = Copied | NoPage | Absent

  datatype CopyResult = Copy(d: nat) | NoCopy | Missing

  datatype GrowResult = Size(size: nat) | Failed | Panicked

  class Kernel {
    const mem: array<Page>
    /** kmem.freelist, from its head. */
    var free: seq<nat>
    ghost var use: seq<Use>

    ghost function Snap(): State
      reads this, mem
    {
      State(mem[..], use, free)
    }

    ghost predicate Valid()
      reads this, mem
    {
      Ok(Snap())
    }

    /** Free pages and the tables of d: allocating a table does not change how many these are. */
    ghost function Supply(d: nat): nat
      requires d < mem.Length
      reads this, mem
    {
      |free| + Count(mem[d], ENTRIES)
    }

    /** Memory before kinit1: nothing is free yet. Pages below end are the kernel's. */
    constructor (pages: nat, end: nat)
      requires end <= pages <= VPAGES
      ensures Valid() && fresh(mem) && mem.Length == pages && free == []
      ensures use == seq(pages, p => if p < end then Use.Kernel else Held)
    {
      mem := new Page[pages](_ => ZeroPage());
      free, use := [], seq(pages, p => if p < end then Use.Kernel else Held);
    }

    /** freerange */
    method FreeRange(lo: nat, hi: nat)
      requires Valid() && lo <= hi <= mem.Length == |use| && forall p :: lo <= p < hi ==> use[p] == Held
      modifies this, mem
      ensures |use| == old(|use|) && |free| == old(|free|) + (hi - lo)
      ensures forall p :: 0 <= p < |use| ==> use[p] == if lo <= p < hi then Free else old(use)[p]
      ensures Valid()
    {
      hide Ok;
      for p := lo to hi
        invariant Valid() && |use| == old(|use|) && |free| == old(|free|) + (p - lo)
        invariant forall q :: 0 <= q < |use| ==> use[q] == if lo <= q < p then Free else old(use)[q]
      {
        GivenOk(Snap(), p);
        Kfree(p);
      }
    }

    method Kalloc() returns (p: Option<nat>)
      requires Valid()
      modifies this
      ensures p.None? <==> old(free) == []
      ensures p.None? ==> Snap() == old(Snap())
      ensures p.Some? ==>
                p.value == old(free)[0] < |old(use)| == mem.Length && old(use)[p.value] == Free
                  && Snap() == Taken(old(Snap()))
      ensures Valid()
    {
      hide Ok;
      if free == [] {
        return None;
      }
      TakenOk(Snap());
      p := Some(free[0]);
      use := use[free[0] := Held];
      free := free[1..];
    }

    method Kfree(p: nat)
      requires p < mem.Length == |use| && use[p] != Use.Kernel && use[p] != Free
      modifies this, mem
      ensures Snap() == Given(old(Snap()), p)
    {
      mem[p] := JunkPage();
      use := use[p := Free];
      free := [p] + free;
      assert mem[..] == old(mem[..])[p := JunkPage()];
    }

    /** walkpgdir: the page that holds the entry for v. */
    method Walk(d: nat, v: nat, alloc: bool) returns (t: Option<nat>)
      requires Valid() && IsDir(Snap(), d) && v < VPAGES
      modifies this, mem
      ensures Row(v) < ENTRIES && d < mem.Length == |use| == old(|use|)
      ensures t.None? <==> !Present(old(mem[d])[Row(v)]) && (!alloc || old(free) == [])
      ensures t.None? || !alloc || Present(old(mem[d])[Row(v)]) ==> Snap() == old(Snap())
      ensures t.Some? ==>
                Walked(old(Snap()), Snap(), d, v) && t.value == Addr(mem[d][Row(v)]) < mem.Length && t.value != d
      ensures Supply(d) == old(Supply(d))
      ensures Valid()
    {
      hide Ok, Addr, Row, Col, Pte, Make, Present, Count;
      RowBound(v);
      ghost var s := Snap();
      if Present(mem[d][Row(v)]) {
        TableIsThere(s, d, v);
        return Some(Addr(mem[d][Row(v)]));
      }
      if !alloc || free == [] {
        return None;
      }
      WalkAdds(s, d, v);
      MakeParts(free[0], PTE_W + PTE_U);
      CountOneMore(mem[d], Row(v), Make(free[0], PTE_W + PTE_U), ENTRIES);
      var pgtab := Kalloc();
      var p := pgtab.value;
      mem[p] := ZeroPage();
      mem[d] := mem[d][Row(v) := Make(p, PTE_W + PTE_U)];
      use := use[p := Table(d, Row(v))];
      assert Snap() == WithTable(Taken(s), d, Row(v), p);
      return Some(p);
    }

    /** mappages of the one page at v. */
    method MapPage(d: nat, v: nat, p: nat, perm: nat) returns (r: MapResult)
      requires Valid() && IsDir(Snap(), d) && v < VPAGES && p < VPAGES && perm < 4096
      requires v < USER ==> p < |use| && use[p] == Held
      modifies this, mem
      ensures r.Remap? <==> Present(Pte(old(mem[..]), d, v))
      ensures r.NoMemory? <==> d < mem.Length && Row(v) < ENTRIES && !Present(old(mem[d])[Row(v)]) && old(free) == []
      ensures !r.Mapped? ==> Snap() == old(Snap())
      ensures r.Mapped? ==> Maps(old(Snap()), Snap(), d, v, p, perm)
      ensures d < mem.Length && Supply(d) == old(Supply(d))
      ensures Valid()
    {
      hide Ok, Addr, Row, Col, Make, Present, Count;
      ghost var s := Snap();
      NoTable(s, d, v);
      var t := Walk(d, v, true);
      if t.None? {
        return NoMemory;
      }
      if Present(mem[t.value][Col(v)]) {
        return Remap;
      }
      StoreMaps(s, Snap(), d, v, p, perm);
      mem[t.value] := mem[t.value][Col(v) := Make(p, perm)];
      use := if v < USER then use[p := Leaf(d, v)] else use;
      return Mapped;
    }

    /** deallocuvm. A directory entry that is not there lets the loop jump to the next one. */
    method DeallocUvm(d: nat, oldsz: nat, newsz: nat) returns (size: nat)
      requires Valid() && IsDir(Snap(), d) && oldsz <= USER * PGSIZE
      modifies this, mem
      ensures size == if newsz >= oldsz then oldsz else newsz
      ensures newsz >= oldsz ==> Snap() == old(Snap())
      ensures newsz < oldsz ==> Shrunk(old(Snap()), Snap(), d, PageUp(newsz), PageUp(oldsz))
      ensures Valid()
    {
      hide Ok, Shrunk;
      if newsz >= oldsz {
        return oldsz;
      }
      ghost var s, lo, hi := Snap(), PageUp(newsz), PageUp(oldsz);
      var v := PageUp(newsz);
      ShrinkNone(s, d, lo, lo);
      while v * PGSIZE < oldsz
        invariant lo <= v && hi <= USER && Valid()
        invariant Shrunk(s, Snap(), d, lo, if v < hi then v else hi)
        invariant lo <= hi
      {
        v := ShrinkOne(s, d, lo, v, hi);
        v := v + 1;
      }
      return newsz;
    }

    /** The body of that loop. */
    method ShrinkOne(ghost s: State, d: nat, ghost lo: nat, v: nat, ghost hi: nat) returns (next: nat)
      requires Valid() && lo <= v < hi <= USER && Shrunk(s, Snap(), d, lo, v)
      modifies this, mem
      ensures v <= next && Shrunk(s, Snap(), d, lo, if next + 1 < hi then next + 1 else hi)
      ensures Valid()
    {
      hide Ok, Row, Col, Addr, Present;
      ghost var r := Snap();
      RowBound(v);
      var t := Walk(d, v, false);
      next := v;
      if t.None? {
        SkipRow(r, d, v, hi);
        ShrinkMore(s, r, r, d, lo, v, if (Row(v) + 1) * ENTRIES < hi then (Row(v) + 1) * ENTRIES else hi);
        next := (Row(v) + 1) * ENTRIES - 1;
      } else if Present(mem[t.value][Col(v)]) {
        UnmapOk(r, d, v);
        UnmapShrinks(r, d, v);
        ShrinkMore(s, r, Unmapped(r, d, v), d, lo, v, v + 1);
        Kfree(Addr(mem[t.value][Col(v)]));
        mem[t.value] := mem[t.value][Col(v) := 0];
        assert Snap() == Unmapped(r, d, v);
      } else {
        ShrinkNone(r, d, v, v + 1);
        ShrinkMore(s, r, r, d, lo, v, v + 1);
      }
    }

    /** One turn of allocuvm's loop, with the clean-up if memory runs out. */
    method GrowPage(d: nat, v: nat, oldsz: nat, newsz: nat, ghost s: State) returns (r: MapResult)
      requires Valid() && IsDir(Snap(), d) && Ok(s) && IsDir(s, d) && oldsz < newsz <= USER * PGSIZE
      requires PageUp(oldsz) <= v < PageUp(newsz) <= USER
      requires Extended(s, Snap(), d, PageUp(oldsz), Zeroed(v - PageUp(oldsz)))
      modifies this, mem
      ensures r.Mapped? ==> IsDir(Snap(), d) && Extended(s, Snap(), d, PageUp(oldsz), Zeroed(v + 1 - PageUp(oldsz)))
      ensures r.Mapped? ==> d < mem.Length && Supply(d) + 1 == old(Supply(d))
      ensures r.NoMemory? ==> Emptied(s, Snap(), d, PageUp(oldsz), PageUp(newsz)) && |old(free)| <= 1
      ensures r.Remap? ==> d < |s.m| && Present(Pte(s.m, d, v))
      ensures old(free) == [] ==> r.NoMemory?
      ensures !r.Remap? ==> Valid()
    {
      hide Ok, Extended, Shrunk, Emptied, Pte, Present, Count;
      ghost var x, lo, hi := Snap(), PageUp(oldsz), PageUp(newsz);
      var page := Kalloc();
      if page.None? {
        var n := DeallocUvm(d, newsz, oldsz);
        UndoExtension(s, x, Snap(), d, lo, Zeroed(v - lo), hi);
        return NoMemory;
      }
      var p := page.value;
      FilledOk(Snap(), p, ZeroPage());
      mem[p] := ZeroPage();
      ghost var f := Snap();
      FreshPages(s, x, d, lo, Zeroed(v - lo), v, p, ZeroPage(), f);
      assert mem[..] == x.m[p := ZeroPage()];
      r := MapPage(d, v, p, PTE_W + PTE_U);
      if r.NoMemory? {
        var n := DeallocUvm(d, newsz, oldsz);
        ShrunkAround(x, p, ZeroPage(), f, Snap(), d, lo, hi);
        GivenOk(Snap(), p);
        Kfree(p);
        UndoExtension(s, x, Snap(), d, lo, Zeroed(v - lo), hi);
      } else if r.Mapped? {
        ExtendMore(s, x, d, lo, Zeroed(v - lo), p, f, Snap(), ZeroedPage());
        assert Zeroed(v - lo) + [ZeroedPage()] == Zeroed(v + 1 - lo);
      }
    }

    /** allocuvm */
    method AllocUvm(d: nat, oldsz: nat, newsz: nat) returns (r: GrowResult)
      requires Valid() && IsDir(Snap(), d)
      modifies this, mem
      ensures newsz >= USER * PGSIZE ==> r == Failed && Snap() == old(Snap())
      ensures newsz < USER * PGSIZE && newsz < oldsz ==> r == Size(oldsz) && Snap() == old(Snap())
      ensures oldsz <= newsz < USER * PGSIZE ==>
                var lo, hi := PageUp(oldsz), PageUp(newsz);
                && lo <= hi <= USER
                && (r.Size? ==> r.size == newsz && Extended(old(Snap()), Snap(), d, lo, Zeroed(hi - lo)))
                && (r.Failed? ==> Emptied(old(Snap()), Snap(), d, lo, hi) && |old(free)| <= (hi - lo) + ENTRIES)
                && (r.Panicked? ==> exists w :: lo <= w < hi && Present(Pte(old(Snap()).m, d, w)))
                && (lo < hi && old(free) == [] ==> r.Failed?)
      ensures !r.Panicked? ==> Valid()
    {
      hide Ok, Extended, Emptied, Pte, Present, Count;
      if newsz >= USER * PGSIZE {
        return Failed;
      }
      if newsz < oldsz {
        return Size(oldsz);
      }
      ghost var s, lo, hi := Snap(), PageUp(oldsz), PageUp(newsz);
      var v := PageUp(oldsz);
      ExtendNone(s, d, lo);
      assert Zeroed(0) == [];
      while v * PGSIZE < newsz
        invariant lo <= v <= hi <= USER && Valid() && IsDir(Snap(), d)
        invariant if v == lo then Snap() == s else s.free != []
        invariant Extended(s, Snap(), d, lo, Zeroed(v - lo)) && Supply(d) + (v - lo) == old(Supply(d))
      {
        var done := GrowPage(d, v, oldsz, newsz, s);
        if done.NoMemory? {
          return Failed;
        }
        if done.Remap? {
          return Panicked;
        }
        v := v + 1;
      }
      return Size(newsz);
    }

    /** freevm: the user pages, then the tables, whose entries are left as they are, then d. */
    method FreeVm(d: nat)
      requires Valid() && IsDir(Snap(), d)
      modifies this, mem
      ensures Gone(old(Snap()), Snap(), d)
      ensures Valid()
    {
      hide Ok, Shrunk, TornDown, Gone, Addr, Present, Pte;
      ghost var s0 := Snap();
      var n := DeallocUvm(d, USER * PGSIZE, 0);
      ghost var s := Snap();
      RetireStarts(s0, s, d);
      use := Retired(s, d).use;
      assert Snap() == Retired(s, d);
      for i := 0 to ENTRIES
        invariant Valid() && TornDown(s, Snap(), d, i) && d < mem.Length == |use| && mem[d] == s.m[d] && use[d] == Held
      {
        TearMore(s, Snap(), d, i);
        if Present(mem[d][i]) {
          Kfree(Addr(mem[d][i]));
        }
      }
      TornIsGone(s0, s, Snap(), d);
      Kfree(d);
    }

    /** mappages of a range in the kernel part. */
    method MapPages(d: nat, kmap: seq<Range>, k: nat, ghost s: State) returns (ok: bool)
      requires Valid() && KmapOk(kmap) && k < |kmap| && IsDir(Snap(), d) && Built(Snap(), d, kmap[..k]) && Ok(s)
               && Cloned(s, Snap(), d)
      modifies this, mem
      ensures ok ==> Built(Snap(), d, kmap[..k + 1])
      ensures d < mem.Length && Supply(d) == old(Supply(d)) && (!ok ==> free == [])
      ensures IsDir(Snap(), d) && Cloned(s, Snap(), d)
      ensures Valid()
    {
      hide Ok, Cloned, Built, Maps, Pte, KmapOk, Count;
      var g := kmap[k];
      assert RangeOk(g) by { RowsAreOk(kmap, k); }
      BuildStart(Snap(), d, kmap[..k], g);
      for j := 0 to g.n
        invariant Valid() && IsDir(Snap(), d) && Cloned(s, Snap(), d) && Built(Snap(), d, Upto(kmap[..k], g, j))
        invariant Supply(d) == old(Supply(d))
      {
        ghost var r := Snap();
        BuildIsFree(r, d, kmap, k, j);
        var done := MapPage(d, g.v + j, g.p + j, g.perm);
        if done.NoMemory? {
          return false;
        }
        assert done.Mapped?;
        CloneTable(s, r, Snap(), d, g.v + j, g.p + j, g.perm);
        BuildMore(r, Snap(), d, kmap[..k], g, j);
      }
      assert Upto(kmap[..k], g, g.n) == kmap[..k + 1];
      return true;
    }

    /** setupkvm up to its loop: a directory without entries. */
    method NewDir() returns (d: Option<nat>)
      requires Valid()
      modifies this, mem
      ensures d.None? <==> old(free) == []
      ensures d.None? ==> Snap() == old(Snap())
      ensures d.Some? ==>
                && IsDir(Snap(), d.value) && Cloned(old(Snap()), Snap(), d.value) && Built(Snap(), d.value, [])
                          && Count(mem[d.value], ENTRIES) == 0 && |free| + 1 == |old(free)|
      ensures Valid()
    {
      hide Ok, Cloned, Built, Pte, Count;
      ghost var s := Snap();
      var page := Kalloc();
      if page.None? {
        return None;
      }
      var pgdir := page.value;
      FilledOk(Snap(), pgdir, ZeroPage());
      mem[pgdir] := ZeroPage();
      assert mem[..] == s.m[pgdir := ZeroPage()];
      NewDirOk(Snap(), pgdir);
      use := use[pgdir := Dir];
      CloneStarts(s, Snap(), pgdir);
      CountNone(ENTRIES);
      return Some(pgdir);
    }

    /** setupkvm */
    method SetupKvm(kmap: seq<Range>) returns (d: Option<nat>)
      requires Valid() && KmapOk(kmap)
      modifies this, mem
      ensures d.Some? ==> Cloned(old(Snap()), Snap(), d.value) && Built(Snap(), d.value, kmap)
      ensures d.Some? ==> d.value < mem.Length && Supply(d.value) + 1 == |old(free)|
      ensures d.None? ==> Same(old(Snap()), Snap()) && |old(free)| <= ENTRIES + 1
      ensures Valid()
    {
      hide Ok, Cloned, Built, Gone, Same, Pte, KmapOk, Count;
      ghost var s := Snap();
      d := NewDir();
      if d.None? {
        SameIsSame(s);
        return;
      }
      var pgdir := d.value;
      assert kmap[..0] == [];
      for k := 0 to |kmap|
        invariant Valid() && IsDir(Snap(), pgdir) && Cloned(s, Snap(), pgdir) && Built(Snap(), pgdir, kmap[..k])
        invariant Supply(pgdir) + 1 == |old(free)|
      {
        var ok := MapPages(pgdir, kmap, k, s);
        if !ok {
          ghost var r := Snap();
          FreeVm(pgdir);
          CloneGone(s, r, Snap(), pgdir);
          return None;
        }
      }
      assert kmap[..|kmap|] == kmap;
      return Some(pgdir);
    }

    /** One turn of copyuvm's loop: page v of d is copied into d2. */
    method CopyPage(d: nat, d2: nat, v: nat, ghost s: State, ghost b: State, ghost want: seq<Want>,
                    ghost kmap: seq<Range>)
      returns (r: PageResult, ghost one: Want)
      requires Valid() && IsDir(Snap(), d) && IsDir(Snap(), d2) && Ok(s) && IsDir(s, d) && Ok(b)
      requires |s.m| == mem.Length && |want| == v < USER && Extended(b, Snap(), d2, 0, want) && Cloned(s, b, d2)
               && Cloned(s, Snap(), d2)
      requires Built(b, d2, kmap)
      modifies this, mem
      ensures d2 < mem.Length && Supply(d2) + (if r.Copied? then 1 else 0) == old(Supply(d2))
              && (r.NoPage? ==> |free| <= 1)
      ensures IsDir(Snap(), d) && IsDir(Snap(), d2) && Cloned(s, Snap(), d2)
      ensures r.Copied? ==> Extended(b, Snap(), d2, 0, want + [one]) && IsContent(s, d, v, one)
      ensures r.Absent? ==> !Present(Pte(s.m, d, v))
      ensures Valid()
    {
      hide Ok, Cloned, Built, Extended, Pte, Present, Addr, Flags, Count;
      ghost var x := Snap();
      ClonedPte(s, x, d2, d, v);
      var t := Walk(d, v, false);
      one := Want(0, ZeroPage());
      if t.None? {
        NoTable(x, d, v);
        return Absent, one;
      }
      var pte := mem[t.value][Col(v)];
      assert pte == Pte(x.m, d, v) by { PteIs(x, d, v); }
      if !Present(pte) {
        return Absent, one;
      }
      var page := Kalloc();
      if page.None? {
        return NoPage, one;
      }
      var p, pa := page.value, Addr(pte);
      one := Want(Flags(pte), mem[pa]);
      FilledOk(Snap(), p, mem[pa]);
      mem[p] := mem[pa];
      ghost var f := Snap();
      assert f.m == x.m[p := one.page];
      FreshPages(b, x, d2, 0, want, v, p, one.page, f);
      FlagsBound(pte);
      BuiltIsEmpty(b, d2, kmap, v);
      var done := MapPage(d2, v, p, Flags(pte));
      if done.NoMemory? {
        CloneAround(s, x, d2, p, one.page, f);
        GivenOk(f, p);
        Kfree(p);
        return NoPage, one;
      }
      assert done.Mapped?;
      ExtendMore(b, x, d2, 0, want, p, f, Snap(), one);
      ClonePages(s, b, Snap(), d2, want + [one]);
      ClonedPte(s, Snap(), d2, d, v);
      return Copied, one;
    }

    /** copyuvm */
    method CopyUvm(d: nat, sz: nat, kmap: seq<Range>) returns (r: CopyResult)
      requires Valid() && IsDir(Snap(), d) && sz <= USER * PGSIZE && KmapOk(kmap)
      modifies this, mem
      ensures r.Copy? ==> Cloned(old(Snap()), Snap(), r.d) && IsCopy(old(Snap()), Snap(), d, r.d, PageUp(sz), kmap)
      ensures r.NoCopy? ==> Same(old(Snap()), Snap()) && |old(free)| <= PageUp(sz) + ENTRIES + 1
      ensures r.Missing? ==> exists w :: 0 <= w < PageUp(sz) <= USER && !Present(Pte(old(Snap()).m, d, w))
      ensures Valid()
    {
      hide Count, Ok, Cloned, Built, Extended, Same, Gone, Contents, IsContent, IsCopy, Pte, KmapOk, Present, Addr,
           Flags;
      ghost var s := Snap();
      var made := SetupKvm(kmap);
      if made.None? {
        return NoCopy;
      }
      var d2 := made.value;
      ghost var b := Snap();
      ghost var want: seq<Want> := [];
      CopyStarts(s, b, d, d2);
      var v := 0;
      while v * PGSIZE < sz
        invariant |want| == v <= PageUp(sz) <= USER && Valid() && IsDir(Snap(), d) && IsDir(Snap(), d2)
        invariant Extended(b, Snap(), d2, 0, want) && Contents(s, d, want) && Cloned(s, Snap(), d2)
        invariant Supply(d2) + v + 1 == |old(free)|
      {
        var done, one := CopyPage(d, d2, v, s, b, want, kmap);
        if done.Absent? {
          return Missing;
        }
        if done.NoPage? {
          ghost var x := Snap();
          FreeVm(d2);
          CloneGone(s, x, Snap(), d2);
          return NoCopy;
        }
        want := want + [one];
        ContentsMore(s, d, want);
        v := v + 1;
      }
      CopyIsMade(s, b, Snap(), d, d2, want, kmap);
      return Copy(d2);
    }
  }

  /** An address space with one page, and no page free. allocuvm is asked for that page again, as
      no caller does; it fails, and the page is gone. */
  method FailedGrowthLosesPage() returns (k: Kernel, d: nat, ghost before: State)
    ensures fresh(k) && k.Valid() && Ok(before) && IsDir(before, d) && IsDir(k.Snap(), d)
    ensures View(before.m, d, 0) != 0 && View(k.Snap().m, d, 0) == 0
  {
    hide Ok, Cloned, Extended, Emptied, Pte, Present, Count, Make, Row, View;
    k := new Kernel(4, 1);
    k.FreeRange(1, 4);
    var dir := k.NewDir();
    d := dir.value;
    EmptyDir(k.Snap(), d);
    var page := k.Kalloc();
    var done := k.MapPage(d, 0, page.value, PTE_W + PTE_U);
    OnePage(k.Snap(), d, page.value);
    before := k.Snap();
    var r := k.AllocUvm(d, 0, PGSIZE);
    OnePageGone(before, k.Snap(), d);
  }

  lemma EmptyDir(s: State, d: nat)
    requires Built(s, d, [])
    ensures !Present(Pte(s.m, d, 0))
  {
    hide Pte;
  }

  lemma OnePage(s: State, d: nat, p: nat)
    requires IsDir(s, d) && p < VPAGES && Pte(s.m, d, 0) == Make(p, PTE_W + PTE_U)
    ensures View(s.m, d, 0) != 0 && Count(s.m[d], ENTRIES) >= 1
  {
    MakeParts(p, PTE_W + PTE_U);
    CountSome(s.m[d], 0, ENTRIES);
  }

  lemma OnePageGone(s: State, r: State, d: nat)
    requires Emptied(s, r, d, PageUp(0), PageUp(PGSIZE))
    ensures IsDir(r, d) && View(r.m, d, 0) == 0
  {
    hide Pte;
  }

  lemma NoTable(s: State, d: nat, v: nat)
    requires IsDir(s, d) && v < VPAGES
    ensures Row(v) < ENTRIES && (!Present(s.m[d][Row(v)]) ==> !Present(Pte(s.m, d, v)))
  {
  }

  lemma TableIsThere(s: State, d: nat, v: nat)
    requires Ok(s) && IsDir(s, d) && v < VPAGES && Row(v) < ENTRIES && Present(s.m[d][Row(v)])
    ensures Walked(s, s, d, v) && Addr(s.m[d][Row(v)]) < |s.m| && Addr(s.m[d][Row(v)]) != d
  {
    assert TableUsed(s, d, Row(v));
  }

  /** PGROUNDUP, in pages. */
  function PageUp(size: nat): (n: nat)
    ensures size <= n * 4096 < size + 4096
  {
    (size + PGSIZE - 1) / PGSIZE
  }

  lemma SkipRow(s: State, d: nat, v: nat, hi: nat)
    requires Ok(s) && IsDir(s, d) && v < hi <= USER && Row(v) < ENTRIES && !Present(s.m[d][Row(v)])
    ensures v < (Row(v) + 1) * ENTRIES
    ensures Shrunk(s, s, d, v, if (Row(v) + 1) * ENTRIES < hi then (Row(v) + 1) * ENTRIES else hi)
  {
    RowIsEmpty(s, d, v);
    ShrinkNone(s, d, v, if (Row(v) + 1) * ENTRIES < hi then (Row(v) + 1) * ENTRIES else hi);
  }

  function ZeroedPage(): Want { Want(PTE_W + PTE_U, ZeroPage()) }

  /** n zeroed pages, writable by the user. */
  function Zeroed(n: nat): seq<Want> { seq(n, _ => ZeroedPage()) }

  /** The pages allocuvm adds, in the processor's terms: present, writable and the user's, all zero, in memory
      that was free. */
  lemma AddedPages(s: State, r: State, d: nat, lo: nat, n: nat, w: nat)
    requires Extended(s, r, d, lo, Zeroed(n)) && lo <= w < lo + n
    ensures d < |r.m| && w < VPAGES
    ensures var e := Pte(r.m, d, w);
            && e % 4096 == 7 && e / 4096 < |r.m| == |s.use| && s.use[e / 4096] == Free
            && forall i :: 0 <= i < 1024 ==> r.m[e / 4096][i] == 0
  {
    hide Pte;
    assert Holds(s, r, d, lo + (w - lo), Zeroed(n)[w - lo]);
  }

  /** What the next page of an extension looks like when p has been filled. */
  lemma FreshPages(s: State, x: State, d: nat, lo: nat, want: seq<Want>, v: nat, p: nat, page: Page, f: State)
    requires Ok(x) && Extended(s, x, d, lo, want) && v == lo + |want| < USER
    requires p < |x.m| && x.use[p] == Free && f.m == x.m[p := page] && f.use == x.use[p := Held]
    ensures p < VPAGES && IsDir(f, d) && Pte(f.m, d, v) == Pte(x.m, d, v) == Pte(s.m, d, v)
  {
    FilledPte(x, d, p, page, v);
  }

  lemma RetireStarts(s0: State, s: State, d: nat)
    requires Ok(s) && Shrunk(s0, s, d, PageUp(0), PageUp(USER * PGSIZE))
    ensures Shrunk(s0, s, d, 0, USER) && IsDir(s, d)
    ensures Ok(Retired(s, d)) && TornDown(s, Retired(s, d), d, 0)
  {
    hide Pte, Ok, Retired;
    RetiredOk(s, d);
  }

  lemma RowsAreOk(kmap: seq<Range>, k: nat)
    requires KmapOk(kmap) && k < |kmap|
    ensures RangeOk(kmap[k])
  {
  }

  lemma SameIsSame(s: State)
    requires Ok(s)
    ensures Same(s, s)
  {
  }

  lemma CloneStarts(s: State, r: State, d: nat)
    requires Ok(s) && d < |s.m| && s.use[d] == Free
    requires r.m == s.m[d := ZeroPage()] && r.use == s.use[d := Held][d := Dir]
    requires forall w :: 0 <= w < VPAGES ==> Pte(r.m, d, w) == 0
    ensures Cloned(s, r, d) && Built(r, d, []) && IsDir(r, d)
  {
    hide Pte;
  }

  lemma CopyStarts(s: State, b: State, d: nat, d2: nat)
    requires Ok(s) && IsDir(s, d) && Cloned(s, b, d2)
    ensures IsDir(b, d) && IsDir(b, d2) && Extended(b, b, d2, 0, []) && Contents(s, d, [])
  {
    ClonedPte(s, b, d2, d, 0);
    ExtendNone(b, d2, 0);
  }

  lemma PteIs(s: State, d: nat, v: nat)
    requires Ok(s) && IsDir(s, d) && v < VPAGES && Row(v) < ENTRIES && Present(s.m[d][Row(v)])
    ensures Addr(s.m[d][Row(v)]) < |s.m| && Pte(s.m, d, v) == s.m[Addr(s.m[d][Row(v)])][Col(v)]
  {
    assert TableUsed(s, d, Row(v));
  }

  lemma FlagsBound(e: Word)
    ensures Flags(e) < 4096
  {
  }

  lemma BuiltIsEmpty(b: State, d: nat, kmap: seq<Range>, v: nat)
    requires Built(b, d, kmap) && v < USER
    ensures !Present(Pte(b.m, d, v))
  {
    hide Pte;
    WantedOutside(kmap, v);
  }

  lemma ContentsMore(s: State, d: nat, want: seq<Want>)
    requires want != [] && Contents(s, d, want[..|want| - 1]) && |want| <= USER
    requires IsContent(s, d, |want| - 1, want[|want| - 1])
    ensures Contents(s, d, want)
  {
    hide IsContent;
    forall k | 0 <= k < |want| ensures IsContent(s, d, k, want[k]) {
      assert k < |want| - 1 ==> want[..|want| - 1][k] == want[k];
    }
  }
}
