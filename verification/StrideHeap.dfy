/** The stride scheduler's min-heap (strideheap.c, and its copy in proc.c) and the choice of the
    next process it serves. */
module StrideHeap {
  import opened Prelude

  datatype Entry = Entry(pid: int, pass: int, runtime: int)

  function Compare(p: Entry, q: Entry): int {
    if p.pass != q.pass then (if p.pass < q.pass then -1 else 1)
    else if p.runtime != q.runtime then (if p.runtime < q.runtime then -1 else 1)
    else if p.pid != q.pid then (if p.pid < q.pid then -1 else 1)
    else 0
  }

  predicate Greater(p: Entry, q: Entry) {
    Compare(p, q) > 0
  }

  predicate AtMost(p: Entry, q: Entry) {
    !Greater(p, q)
  }

  /** Where the source says that p comes before q or is q: the smaller pass comes first, among equal
      passes the smaller runtime, and among those the smaller pid. */
  predicate InOrder(p: Entry, q: Entry)
  {
    || p.pass < q.pass
    || (p.pass == q.pass && p.runtime < q.runtime)
    || (p.pass == q.pass && p.runtime == q.runtime && p.pid <= q.pid)
  }

  lemma CompareIsByFields(p: Entry, q: Entry)
    ensures AtMost(p, q) <==> InOrder(p, q)
    ensures Compare(p, q) == 0 <==> p == q
  {
  }

  /** AtMost is a total order on entries. */
  lemma CompareIsTotalOrder(p: Entry, q: Entry, r: Entry)
    ensures AtMost(p, q) || AtMost(q, p)
    ensures AtMost(p, q) && AtMost(q, p) ==> p == q
    ensures AtMost(p, q) && AtMost(q, r) ==> AtMost(p, r)
  {
  }

  function Parent(i: nat): (p: nat)
    requires i > 0
    ensures p < i && (i == 2 * p + 1 || i == 2 * p + 2)
  {
    (i - 1) / 2
  }

  // ----- Heaps as values -----

  ghost predicate Above(s: seq<Entry>, j: nat)
  {
    0 < j < |s| ==> AtMost(s[Parent(j)], s[j])
  }

  ghost predicate Heap(s: seq<Entry>)
  {
    forall j :: 0 <= j < |s| ==> Above(s, j)
  }

  /** The children of i are in order with the parent of i. */
  ghost predicate Bridged(s: seq<Entry>, i: nat)
  {
    0 < i < |s| ==> forall j :: 0 < j < |s| && Parent(j) == i ==> AtMost(s[Parent(i)], s[j])
  }

  /** A heap but for i, which may be too small for its place. */
  ghost predicate HeapBelow(s: seq<Entry>, i: nat)
  {
    i < |s| && Bridged(s, i) && forall j :: 0 <= j < |s| && j != i ==> Above(s, j)
  }

  /** A heap but for i, which may be too big for its place. */
  ghost predicate HeapAbove(s: seq<Entry>, i: nat)
  {
    Bridged(s, i) && forall j :: 0 < j < |s| && Parent(j) != i ==> Above(s, j)
  }

  function Swapped(s: seq<Entry>, i: nat, j: nat): (r: seq<Entry>)
    requires i < |s| && j < |s|
    ensures |r| == |s|
  {
    s[i := s[j]][j := s[i]]
  }

  lemma SwapKeepsContents(s: seq<Entry>, i: nat, j: nat)
    requires i < |s| && j < |s|
    ensures multiset(Swapped(s, i, j)) == multiset(s)
  {
  }

  lemma LiftKeepsHeap(s: seq<Entry>, i: nat)
    requires HeapBelow(s, i) && 0 < i && Greater(s[Parent(i)], s[i])
    ensures HeapBelow(Swapped(s, i, Parent(i)), Parent(i))
  {
    var p := Parent(i);
    var r := Swapped(s, i, p);
    forall j | 0 <= j < |r| && j != p ensures Above(r, j) {
      assert Above(s, j) || j == i;
      assert Above(s, p);
    }
    if 0 < p {
      forall j | 0 < j < |r| && Parent(j) == p ensures AtMost(r[Parent(p)], r[j]) {
        assert Above(s, p) && (Above(s, j) || j == i);
      }
    }
  }

  lemma SinkKeepsHeap(s: seq<Entry>, i: nat, c: nat)
    requires i < |s| && HeapAbove(s, i) && 0 < c < |s| && Parent(c) == i && Greater(s[i], s[c])
    requires forall j :: 0 < j < |s| && Parent(j) == i ==> AtMost(s[c], s[j])
    ensures HeapAbove(Swapped(s, i, c), c)
  {
    var r := Swapped(s, i, c);
    forall j | 0 < j < |r| && Parent(j) != c ensures Above(r, j) {
      assert Above(s, j) || Parent(j) == i;
      assert j == i ==> AtMost(s[Parent(i)], s[c]);
    }
    forall j | 0 < j < |r| && Parent(j) == c ensures AtMost(r[i], r[j]) {
      assert Above(s, j);
    }
  }

  lemma {:induction false} RootIsLeast(s: seq<Entry>, i: nat)
    requires Heap(s) && i < |s|
    ensures AtMost(s[0], s[i])
  {
    if i == 0 {
    } else {
      assert Above(s, i);
      RootIsLeast(s, Parent(i));
      CompareIsTotalOrder(s[0], s[Parent(i)], s[i]);
    }
  }

  ghost predicate Sorted(s: seq<Entry>)
  {
    forall i, j :: 0 <= i < j < |s| ==> AtMost(s[i], s[j])
  }

  lemma SortedByFields(s: seq<Entry>)
    requires Sorted(s)
    ensures forall i, j :: 0 <= i < j < |s| ==> InOrder(s[i], s[j])
  {
    forall i, j | 0 <= i < j < |s| ensures InOrder(s[i], s[j]) {
      CompareIsByFields(s[i], s[j]);
    }
  }

  lemma AllAtLeast(s: seq<Entry>, e: Entry)
    requires Heap(s) && |s| > 0 && e in multiset(s)
    ensures AtMost(s[0], e)
  {
    var i :| 0 <= i < |s| && s[i] == e;
    RootIsLeast(s, i);
  }

  // ----- The heap in place -----

  class MinHeap {
    const arr: array<Entry>
    var size: nat

    ghost predicate Valid()
      reads this, arr
    {
      size <= arr.Length && Heap(arr[..size])
    }

    ghost function Contents(): multiset<Entry>
      requires size <= arr.Length
      reads this, arr
    {
      multiset(arr[..size])
    }

    constructor (capacity: nat)
      ensures Valid() && size == 0 && fresh(arr) && arr.Length == capacity
    {
      arr := new Entry[capacity](_ => Entry(0, 0, 0));
      size := 0;
    }

    method Swap(i: nat, j: nat, ghost n: nat)
      requires i < n <= arr.Length && j < n
      modifies arr
      ensures arr[..n] == Swapped(old(arr[..n]), i, j) && arr[n..] == old(arr[n..])
      ensures multiset(arr[..n]) == multiset(old(arr[..n]))
    {
      SwapKeepsContents(arr[..n], i, j);
      arr[i], arr[j] := arr[j], arr[i];
      assert arr[..n] == Swapped(old(arr[..n]), i, j);
    }

    /** push, as in proc.c: a full heap refuses. */
    method Push(p: Entry) returns (r: int)
      requires Valid()
      modifies this, arr
      ensures r == if old(size) == arr.Length then -1 else 0
      ensures r == -1 ==> size == old(size) && arr[..] == old(arr[..])
      ensures size <= arr.Length && (r == 0 ==> size == old(size) + 1 && Contents() == old(Contents()) + multiset{p})
      ensures Valid()
    {
      hide Heap, HeapBelow;
      if size == arr.Length {
        return -1;
      }
      var idx: nat := size;
      ghost var n, s := size + 1, arr[..size];
      arr[idx] := p;
      assert arr[..n] == s + [p];
      AppendIsHeapBelow(s, p);
      while idx != 0 && Greater(arr[Parent(idx)], arr[idx])
        invariant idx < n == size + 1 <= arr.Length && size == old(size)
        invariant HeapBelow(arr[..n], idx)
        invariant multiset(arr[..n]) == multiset(s) + multiset{p}
      {
        LiftKeepsHeap(arr[..n], idx);
        Swap(idx, Parent(idx), n);
        idx := Parent(idx);
      }
      LiftedIsHeap(arr[..n], idx);
      size := size + 1;
      return 0;
    }

    method GetMin() returns (e: Entry)
      requires Valid() && size > 0
      ensures e == arr[0] && e in Contents()
      ensures forall x :: x in Contents() ==> AtMost(e, x) && InOrder(e, x)
    {
      forall x | x in Contents() ensures AtMost(arr[0], x) && InOrder(arr[0], x) {
        AllAtLeast(arr[..size], x);
        CompareIsByFields(arr[0], x);
      }
      assert arr[..size][0] in Contents();
      return arr[0];
    }

    /** heapify: the entry at idx sinks to its place. */
    method Heapify(idx: nat)
      requires size <= arr.Length && (size == 0 || idx < size) && HeapAbove(arr[..size], idx)
      modifies arr
      ensures multiset(arr[..size]) == multiset(old(arr[..size])) && arr[size..] == old(arr[size..])
      ensures Valid()
      decreases size - idx
    {
      hide Heap, HeapAbove;
      ghost var s := arr[..size];
      var smallest := idx;
      var left, right := 2 * idx + 1, 2 * idx + 2;
      if left < size && Greater(arr[smallest], arr[left]) {
        smallest := left;
      }
      if right < size && Greater(arr[smallest], arr[right]) {
        smallest := right;
      }
      if smallest != idx {
        SinkKeepsHeap(s, idx, smallest);
        Swap(idx, smallest, size);
        Heapify(smallest);
      } else {
        SunkIsHeap(s, idx);
      }
    }

    method Pop()
      requires Valid() && size > 0
      modifies this, arr
      ensures size == old(size) - 1
      ensures Contents() == old(Contents()) - multiset{old(arr[0])}
      ensures Valid()
    {
      hide Heap, HeapAbove;
      ghost var s := arr[..size];
      Swap(0, size - 1, size);
      size := size - 1;
      PopIsHeapAbove(s, arr[..size]);
      Heapify(0);
    }

    /** The first loop of getsorted. */
    method Drain() returns (sorted: array<Entry>)
      requires Valid()
      modifies this, arr
      ensures fresh(sorted) && sorted.Length == old(size) && size == 0
      ensures Sorted(sorted[..]) && multiset(sorted[..]) == old(Contents())
      ensures Valid()
    {
      hide Heap, Draining, AtMost, Contents;
      var n := size;
      ghost var all := Contents();
      sorted := new Entry[n](_ => Entry(0, 0, 0));
      DrainStarts(all);
      assert sorted[..0] == [];
      for i := 0 to n
        invariant fresh(sorted) && sorted.Length == n && Valid() && size == n - i
        invariant Draining(sorted[..i], Contents(), all)
      {
        ghost var done := sorted[..i];
        var e := GetMin();
        DrainStep(done, Contents(), all, e);
        sorted[i] := e;
        assert sorted[..i + 1] == done + [e];
        Pop();
      }
      Emptied();
      DrainEnds(sorted[..n], all);
      assert sorted[..n] == sorted[..];
    }

    /** Its second loop. */
    method Refill(sorted: array<Entry>)
      requires Valid() && size == 0 && sorted != arr && sorted.Length <= arr.Length
      modifies this, arr
      ensures size == sorted.Length && Contents() == multiset(sorted[..])
      ensures Valid()
    {
      hide Heap, Contents;
      Emptied();
      for i := 0 to sorted.Length
        invariant Valid() && size == i && Contents() == multiset(sorted[..i])
      {
        assert sorted[..i + 1] == sorted[..i] + [sorted[i]];
        var r := Push(sorted[i]);
      }
      assert sorted[..sorted.Length] == sorted[..];
    }

    /** getsorted: the entries in order, with the heap holding the same entries as before. */
    method GetSorted() returns (sorted: array<Entry>)
      requires Valid()
      modifies this, arr
      ensures fresh(sorted) && multiset(sorted[..]) == old(Contents())
      ensures forall i, j :: 0 <= i < j < sorted.Length ==> InOrder(sorted[i], sorted[j])
      ensures size == old(size) && size <= arr.Length && Contents() == old(Contents())
      ensures Valid()
    {
      hide Heap, Sorted, Contents, InOrder;
      sorted := Drain();
      SortedByFields(sorted[..]);
      Refill(sorted);
    }

    lemma Emptied()
      requires size <= arr.Length
      ensures size == 0 <==> Contents() == multiset{}
    {
      assert size > 0 ==> arr[..size][0] in multiset(arr[..size]);
    }
  }

  lemma AppendIsHeapBelow(s: seq<Entry>, p: Entry)
    requires Heap(s)
    ensures HeapBelow(s + [p], |s|)
  {
    var r := s + [p];
    forall j | 0 <= j < |r| && j != |s| ensures Above(r, j) {
      assert Above(s, j);
    }
  }

  lemma LiftedIsHeap(s: seq<Entry>, i: nat)
    requires HeapBelow(s, i) && (i == 0 || !Greater(s[Parent(i)], s[i]))
    ensures Heap(s)
  {
    forall j | 0 <= j < |s| ensures Above(s, j) {
      if j == i {
      }
    }
  }

  lemma SunkIsHeap(s: seq<Entry>, i: nat)
    requires HeapAbove(s, i) && forall j :: 0 < j < |s| && Parent(j) == i ==> i < |s| && AtMost(s[i], s[j])
    ensures Heap(s)
  {
    forall j | 0 <= j < |s| ensures Above(s, j) {
      if 0 < j && Parent(j) == i {
      }
    }
  }

  lemma PopIsHeapAbove(s: seq<Entry>, r: seq<Entry>)
    requires Heap(s) && |s| > 0 && r == Swapped(s, 0, |s| - 1)[..|s| - 1]
    ensures HeapAbove(r, 0) && multiset(r) == multiset(s) - multiset{s[0]}
  {
    forall j | 0 < j < |r| && Parent(j) != 0 ensures Above(r, j) {
      assert Above(s, j);
    }
    var t := Swapped(s, 0, |s| - 1);
    SwapKeepsContents(s, 0, |s| - 1);
    assert t == r + [s[0]];
  }

  /** Of the entries all, those in done are out, in order, and none of the rest is smaller. */
  ghost predicate Draining(done: seq<Entry>, rest: multiset<Entry>, all: multiset<Entry>)
  {
    && Sorted(done) && multiset(done) + rest == all
    && forall i, x :: 0 <= i < |done| && x in rest ==> AtMost(done[i], x)
  }

  lemma DrainStarts(all: multiset<Entry>)
    ensures Draining([], all, all)
  {
  }

  lemma DrainStep(done: seq<Entry>, rest: multiset<Entry>, all: multiset<Entry>, e: Entry)
    requires Draining(done, rest, all) && e in rest && forall x :: x in rest ==> AtMost(e, x)
    ensures Draining(done + [e], rest - multiset{e}, all)
  {
    hide AtMost;
    assert multiset(done + [e]) + (rest - multiset{e}) == all;
  }

  lemma DrainEnds(done: seq<Entry>, all: multiset<Entry>)
    requires Draining(done, multiset{}, all)
    ensures Sorted(done) && multiset(done) == all
  {
  }

  // ----- The stride scheduler's choice -----

  datatype Candidate = Candidate(entry: Entry, runnable: bool)

  ghost function Runnable(ptable: seq<Candidate>): multiset<Entry>
  {
    if ptable == [] then multiset{}
    else
      var last := ptable[|ptable| - 1];
      Runnable(ptable[..|ptable| - 1]) + (if last.runnable then multiset{last.entry} else multiset{})
  }

  lemma {:induction false} RunnableMembers(ptable: seq<Candidate>)
    ensures forall e :: e in Runnable(ptable) ==>
              exists i :: 0 <= i < |ptable| && ptable[i].runnable && ptable[i].entry == e
    ensures forall i :: 0 <= i < |ptable| && ptable[i].runnable ==> ptable[i].entry in Runnable(ptable)
  {
    if ptable != [] {
      var rest := ptable[..|ptable| - 1];
      RunnableMembers(rest);
      forall e | e in Runnable(ptable)
        ensures exists i :: 0 <= i < |ptable| && ptable[i].runnable && ptable[i].entry == e {
        if e in Runnable(rest) {
          var i :| 0 <= i < |rest| && rest[i].runnable && rest[i].entry == e;
          assert ptable[i].runnable;
        } else {
          assert ptable[|ptable| - 1].runnable;
        }
      }
      forall i | 0 <= i < |ptable| && ptable[i].runnable ensures ptable[i].entry in Runnable(ptable) {
        assert i < |rest| ==> rest[i] == ptable[i];
      }
    }
  }

  /** The loop of sched_stride that fills the heap. */
  method Gather(ptable: seq<Candidate>) returns (heap: MinHeap)
    ensures fresh(heap) && fresh(heap.arr) && heap.Valid() && heap.Contents() == Runnable(ptable)
  {
    hide Heap;
    heap := new MinHeap(|ptable|);
    for i := 0 to |ptable|
      invariant fresh(heap) && fresh(heap.arr) && heap.Valid() && heap.arr.Length == |ptable|
      invariant heap.size <= i && heap.Contents() == Runnable(ptable[..i])
    {
      assert ptable[..i + 1][..i] == ptable[..i];
      if ptable[i].runnable {
        var r := heap.Push(ptable[i].entry);
      }
    }
    assert ptable[..|ptable|] == ptable;
  }

  /** sched_stride picks a runnable process, if there is one: none has a smaller pass, among equal passes none
      a smaller runtime, and among those none a smaller pid. */
  method Choose(ptable: seq<Candidate>) returns (chosen: Option<Entry>)
    ensures chosen.None? <==> forall i :: 0 <= i < |ptable| ==> !ptable[i].runnable
    ensures chosen.Some? ==> exists i :: 0 <= i < |ptable| && ptable[i].runnable && ptable[i].entry == chosen.value
    ensures chosen.Some? ==> forall i :: 0 <= i < |ptable| && ptable[i].runnable ==>
              var c, e := chosen.value, ptable[i].entry;
              && c.pass <= e.pass
              && (c.pass == e.pass ==> c.runtime <= e.runtime)
              && (c.pass == e.pass && c.runtime == e.runtime ==> c.pid <= e.pid)
  {
    hide Heap, AtMost, Runnable, MinHeap.Contents;
    var heap := Gather(ptable);
    RunnableMembers(ptable);
    heap.Emptied();
    if heap.size > 0 {
      var e := heap.GetMin();
      return Some(e);
    }
    return None;
  }
}
