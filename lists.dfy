/**
 * The two singly linked chunk lists of the engine, over a heap of chunk
 * headers keyed by address: what it means for head, start and tail
 * pointers and `next` links to describe a list, the partition of all chunks
 * between the live list and the free list, the search rules, and the list
 * surgery that moves one chunk from one list to the tail of the other.
 */
module ChunkLists {
  import opened Wrappers
  import opened ChunkHeader
  import opened PowersOfTwo

  type Heap = map<Addr, Chunk>

  /** The k-th chunk of a list as a pointer; past the end it is nullptr. */
  function At(xs: seq<Addr>, k: nat): Option<Addr>
  {
    if k < |xs| then Some(xs[k]) else None
  }

  function Last(xs: seq<Addr>): Option<Addr>
  {
    if xs == [] then None else Some(xs[|xs| - 1])
  }

  /** Removes the k-th chunk of a list. */
  function Remove(xs: seq<Addr>, k: nat): seq<Addr>
    requires k < |xs|
  {
    xs[..k] + xs[k + 1..]
  }

  ghost predicate AllIn(heap: Heap, xs: seq<Addr>)
  {
    forall i :: 0 <= i < |xs| ==> xs[i] in heap
  }

  /** Following `next` from the first chunk of `xs` visits `xs` in order and
      ends on nullptr. */
  ghost predicate Linked(heap: Heap, xs: seq<Addr>)
  {
    AllIn(heap, xs) &&
    forall i {:trigger heap[xs[i]]} :: 0 <= i < |xs| ==> heap[xs[i]].next == At(xs, i + 1)
  }

  /** The pointers that name a list: `initial`, `start` and `end`
      (m_initial, m_start, m_end for the live list; f_list_initial,
      f_list_start, f_list_end for the free list). */
  datatype Ends = Ends(initial: Option<Addr>, start: Option<Addr>, end: Option<Addr>)

  /** The pointers `d` and the links of `heap` describe the list `xs`. */
  ghost predicate Describes(heap: Heap, d: Ends, xs: seq<Addr>)
  {
    Linked(heap, xs) && d.initial == At(xs, 0) && d.start == d.initial && d.end == Last(xs)
  }

  ghost predicate Distinct(xs: seq<Addr>)
  {
    forall i, j :: 0 <= i < j < |xs| ==> xs[i] != xs[j]
  }

  /** Every chunk is in exactly one of the two lists, once. */
  ghost predicate Partition(heap: Heap, live: seq<Addr>, free: seq<Addr>)
  {
    Distinct(live) && Distinct(free) &&
    (forall a :: a in live ==> a !in free) &&
    (forall a :: a in heap ==> a in live || a in free)
  }

  /** The list bookkeeping of the engine: the chunk headers and the
      pointers of the live list and of the free list. */
  datatype Snapshot = Snapshot(heap: Heap, live: Ends, free: Ends)

  /** `live` and `free` are the two lists the snapshot describes, and they
      partition the chunks. */
  ghost predicate Consistent(st: Snapshot, live: seq<Addr>, free: seq<Addr>)
  {
    Describes(st.heap, st.live, live) && Describes(st.heap, st.free, free) &&
    Partition(st.heap, live, free)
  }

  /** Same chunks, with the same sizes and `used` flags; only links differ. */
  ghost predicate SameRecords(h1: Heap, h2: Heap)
  {
    h1.Keys == h2.Keys &&
    forall a :: a in h1 ==> h2[a].size == h1[a].size && h2[a].used == h1[a].used
  }

  /** Every chunk size is a power of two of at least 8 bytes. */
  ghost predicate WellSized(heap: Heap)
  {
    forall a :: a in heap ==> IsPow2(heap[a].size) && heap[a].size >= 8
  }

  /** The mapped blocks of distinct chunks do not overlap. */
  ghost predicate Disjoint(heap: Heap)
  {
    forall a, b {:trigger Apart(heap, a, b)} :: a in heap && b in heap && a != b ==> Apart(heap, a, b)
  }

  /** The mapped blocks of chunks `a` and `b` do not overlap. */
  ghost predicate Apart(heap: Heap, a: Addr, b: Addr)
    requires a in heap && b in heap
  {
    a + AllocSize(heap[a].size) <= b || b + AllocSize(heap[b].size) <= a
  }

  /** A block of `AllocSize(size)` bytes at `m` overlaps no chunk. */
  ghost predicate FreshBlock(heap: Heap, m: Addr, size: nat)
  {
    forall b :: b in heap ==> m + AllocSize(size) <= b || b + AllocSize(heap[b].size) <= m
  }

  lemma WellSizedAt(heap: Heap, a: Addr)
    requires WellSized(heap) && a in heap
    ensures IsPow2(heap[a].size) && heap[a].size >= 8
  {
  }

  /** Sizes alone decide `WellSized` and `Disjoint`. */
  lemma SameSizesKeep(h1: Heap, h2: Heap)
    requires h1.Keys == h2.Keys && forall a :: a in h1 ==> h2[a].size == h1[a].size
    ensures WellSized(h1) ==> WellSized(h2)
    ensures Disjoint(h1) ==> Disjoint(h2)
  {
    if Disjoint(h1) {
      forall a, b | a in h2 && b in h2 && a != b
        ensures Apart(h2, a, b)
      {
        assert Apart(h1, a, b);
      }
    }
  }

  // ---------------------------------------------------------------------
  // Search rules

  /** What a search accepts: an unused chunk of at least `min` bytes
      (first fit, next fit), an unused chunk of exactly `size` bytes (one
      round of best fit), or any chunk of at least `min` bytes (the free
      list, where membership alone means available). */
  datatype Criterion = Reusable(min: nat) | ExactUnused(size: nat) | LargeEnough(min: nat)

  predicate Meets(c: Chunk, crit: Criterion)
  {
    match crit
    case Reusable(min) => !c.used && c.size >= min
    case ExactUnused(size) => !c.used && c.size == size
    case LargeEnough(min) => c.size >= min
  }

  /** The position of the first chunk at or after position `k` of `xs` that
      meets `crit`. */
  function FirstMatchFrom(heap: Heap, xs: seq<Addr>, k: nat, crit: Criterion): (r: Option<nat>)
    requires AllIn(heap, xs) && k <= |xs|
    ensures r.Some? ==>
      k <= r.value < |xs| && Meets(heap[xs[r.value]], crit) &&
      forall i :: k <= i < r.value ==> !Meets(heap[xs[i]], crit)
    ensures r.None? <==> forall i :: k <= i < |xs| ==> !Meets(heap[xs[i]], crit)
    decreases |xs| - k
  {
    if k == |xs| then None
    else if Meets(heap[xs[k]], crit) then Some(k)
    else FirstMatchFrom(heap, xs, k + 1, crit)
  }

  /** The chunk at an optional position. */
  function AddrAt(xs: seq<Addr>, j: Option<nat>): Option<Addr>
  {
    if j.Some? && j.value < |xs| then Some(xs[j.value]) else None
  }

  function Max(a: nat, b: nat): nat
  {
    if a < b then b else a
  }

  /** The largest chunk size among the first `n` chunks of `xs` (0 if none). */
  function MaxSizeOf(heap: Heap, xs: seq<Addr>, n: nat): (r: nat)
    requires AllIn(heap, xs) && n <= |xs|
    ensures forall i :: 0 <= i < n ==> heap[xs[i]].size <= r
    ensures n == 0 ==> r == 0
    ensures n > 0 ==> exists i :: 0 <= i < n && heap[xs[i]].size == r
  {
    if n == 0 then 0 else Max(MaxSizeOf(heap, xs, n - 1), heap[xs[n - 1]].size)
  }

  /** The smallest size of an unused chunk of at least `min` bytes at or
      after position `k`. */
  function SmallestFit(heap: Heap, xs: seq<Addr>, k: nat, min: nat): (r: Option<nat>)
    requires AllIn(heap, xs) && k <= |xs|
    ensures r.None? <==> forall i :: k <= i < |xs| ==> !Meets(heap[xs[i]], Reusable(min))
    ensures r.Some? ==>
      (exists i :: k <= i < |xs| && Meets(heap[xs[i]], Reusable(min)) && heap[xs[i]].size == r.value) &&
      forall i :: k <= i < |xs| && Meets(heap[xs[i]], Reusable(min)) ==> r.value <= heap[xs[i]].size
    decreases |xs| - k
  {
    if k == |xs| then None
    else
      var rest := SmallestFit(heap, xs, k + 1, min);
      if !Meets(heap[xs[k]], Reusable(min)) then rest
      else if rest.Some? && rest.value < heap[xs[k]].size then rest
      else Some(heap[xs[k]].size)
  }

  /** Best fit as a reference definition: the first chunk, in list order,
      among the unused chunks of the smallest size that is at least `min`. */
  function BestFitIn(heap: Heap, xs: seq<Addr>, min: nat): (r: Option<nat>)
    requires AllIn(heap, xs)
    ensures r.None? <==> forall i :: 0 <= i < |xs| ==> !Meets(heap[xs[i]], Reusable(min))
    ensures r.Some? ==>
      r.value < |xs| && Meets(heap[xs[r.value]], Reusable(min)) &&
      (forall i :: 0 <= i < |xs| && Meets(heap[xs[i]], Reusable(min)) ==>
        heap[xs[r.value]].size <= heap[xs[i]].size) &&
      (forall i :: 0 <= i < r.value ==> !Meets(heap[xs[i]], ExactUnused(heap[xs[r.value]].size)))
  {
    match SmallestFit(heap, xs, 0, min)
    case None => None
    case Some(s) => FirstMatchFrom(heap, xs, 0, ExactUnused(s))
  }

  // ---------------------------------------------------------------------
  // List surgery

  /** The links after moving the k-th chunk `c` of `xs` to the tail of
      `ys`: the predecessor of `c` in `xs` skips it, the old tail of `ys`
      points at it, and it ends `ys`. */
  function MoveHeap(heap: Heap, xs: seq<Addr>, ys: seq<Addr>, k: nat): Heap
    requires AllIn(heap, xs) && AllIn(heap, ys) && k < |xs|
  {
    var c := xs[k];
    var h1 := if k > 0 then heap[xs[k - 1] := heap[xs[k - 1]].(next := At(xs, k + 1))] else heap;
    var h2 := if |ys| > 0 then h1[ys[|ys| - 1] := h1[ys[|ys| - 1]].(next := Some(c))] else h1;
    h2[c := h2[c].(next := None)]
  }

  /** The links once the predecessor of the k-th chunk of `xs` skips it. */
  function UnlinkHeap(heap: Heap, xs: seq<Addr>, k: nat): Heap
    requires AllIn(heap, xs) && k < |xs|
  {
    if k > 0 then heap[xs[k - 1] := heap[xs[k - 1]].(next := At(xs, k + 1))] else heap
  }

  /** The links once `c` is put after the last chunk of `ys` and ends it. */
  function LinkTail(heap: Heap, ys: seq<Addr>, c: Addr): Heap
    requires AllIn(heap, ys) && c in heap
  {
    var h := if |ys| > 0 then heap[ys[|ys| - 1] := heap[ys[|ys| - 1]].(next := Some(c))] else heap;
    h[c := h[c].(next := None)]
  }

  /** A move is an unlink followed by a link at the tail. */
  lemma MoveHeapSplit(heap: Heap, xs: seq<Addr>, ys: seq<Addr>, k: nat)
    requires AllIn(heap, xs) && AllIn(heap, ys) && k < |xs|
    ensures AllIn(UnlinkHeap(heap, xs, k), ys) && xs[k] in UnlinkHeap(heap, xs, k)
    ensures MoveHeap(heap, xs, ys, k) == LinkTail(UnlinkHeap(heap, xs, k), ys, xs[k])
  {
    assert xs[k] in heap;
  }

  /** The pointers of `xs` once its k-th chunk is removed. */
  function RemovedEnds(xs: seq<Addr>, k: nat): Ends
    requires k < |xs|
  {
    var head := if k == 0 then At(xs, 1) else At(xs, 0);
    var tail := if k == |xs| - 1 then (if k > 0 then Some(xs[k - 1]) else None) else Last(xs);
    Ends(head, head, tail)
  }

  /** The pointers of `ys` once `c` is appended. */
  function AppendedEnds(ys: seq<Addr>, c: Addr): Ends
  {
    var head := if ys == [] then Some(c) else At(ys, 0);
    Ends(head, head, Some(c))
  }

  lemma {:induction false} RemoveAt(xs: seq<Addr>, k: nat, i: nat)
    requires k < |xs| && i < |xs| - 1
    ensures Remove(xs, k)[i] == if i < k then xs[i] else xs[i + 1]
  {
  }

  /** The `next` link of each chunk after the move. */
  lemma {:induction false} MoveHeapNext(heap: Heap, xs: seq<Addr>, ys: seq<Addr>, k: nat, a: Addr)
    requires AllIn(heap, xs) && AllIn(heap, ys) && Distinct(xs) && k < |xs| && a in heap
    requires forall x :: x in xs ==> x !in ys
    ensures a in MoveHeap(heap, xs, ys, k)
    ensures MoveHeap(heap, xs, ys, k)[a].next ==
      if a == xs[k] then None
      else if |ys| > 0 && a == ys[|ys| - 1] then Some(xs[k])
      else if k > 0 && a == xs[k - 1] then At(xs, k + 1)
      else heap[a].next
  {
    assert xs[k] in xs;
    assert k > 0 ==> xs[k - 1] in xs && xs[k - 1] != xs[k];
  }

  lemma {:induction false} MoveLinksRemoved(heap: Heap, xs: seq<Addr>, ys: seq<Addr>, k: nat)
    requires Linked(heap, xs) && Linked(heap, ys) && Distinct(xs) && k < |xs|
    requires forall a :: a in xs ==> a !in ys
    ensures Linked(MoveHeap(heap, xs, ys, k), Remove(xs, k))
  {
    var h := MoveHeap(heap, xs, ys, k);
    var rs := Remove(xs, k);
    assert |rs| == |xs| - 1;
    forall i | 0 <= i < |rs|
      ensures rs[i] in h && h[rs[i]].next == At(rs, i + 1)
    {
      RemoveAt(xs, k, i);
      if i + 1 < |rs| {
        RemoveAt(xs, k, i + 1);
      }
      var j := if i < k then i else i + 1;
      assert rs[i] == xs[j] && xs[j] in xs;
      MoveHeapNext(heap, xs, ys, k, xs[j]);
    }
  }

  lemma {:induction false} MoveLinksAppended(heap: Heap, xs: seq<Addr>, ys: seq<Addr>, k: nat)
    requires Linked(heap, xs) && Linked(heap, ys) && Distinct(xs) && Distinct(ys) && k < |xs|
    requires forall a :: a in xs ==> a !in ys
    ensures Linked(MoveHeap(heap, xs, ys, k), ys + [xs[k]])
  {
    var h := MoveHeap(heap, xs, ys, k);
    var zs := ys + [xs[k]];
    assert xs[k] in xs;
    assert k > 0 ==> xs[k - 1] in xs;
    forall i | 0 <= i < |zs|
      ensures zs[i] in h && h[zs[i]].next == At(zs, i + 1)
    {
      MoveHeapNext(heap, xs, ys, k, zs[i]);
      if i < |ys| {
        assert zs[i] == ys[i] && ys[i] in ys;
      }
    }
  }

  lemma {:induction false} MoveKeepsRecords(heap: Heap, xs: seq<Addr>, ys: seq<Addr>, k: nat)
    requires AllIn(heap, xs) && AllIn(heap, ys) && k < |xs|
    ensures SameRecords(heap, MoveHeap(heap, xs, ys, k))
  {
  }

  lemma {:induction false} MovePartition(heap: Heap, xs: seq<Addr>, ys: seq<Addr>, k: nat)
    requires Distinct(xs) && Distinct(ys) && k < |xs|
    requires forall a :: a in xs ==> a !in ys
    ensures Distinct(Remove(xs, k)) && Distinct(ys + [xs[k]])
    ensures forall a :: a in Remove(xs, k) ==> a !in ys + [xs[k]]
    ensures forall a :: a in xs || a in ys <==> a in Remove(xs, k) || a in ys + [xs[k]]
  {
    var rs := Remove(xs, k);
    assert xs[k] in xs;
    forall i, j | 0 <= i < j < |rs|
      ensures rs[i] != rs[j]
    {
      RemoveAt(xs, k, i);
      RemoveAt(xs, k, j);
    }
    forall a | a in rs
      ensures a !in ys + [xs[k]]
    {
      var i :| 0 <= i < |rs| && rs[i] == a;
      RemoveAt(xs, k, i);
    }
    forall a | a in xs
      ensures a in rs || a == xs[k]
    {
      var i :| 0 <= i < |xs| && xs[i] == a;
      if i < k {
        RemoveAt(xs, k, i);
      } else if i > k {
        RemoveAt(xs, k, i - 1);
      }
    }
  }

  lemma {:induction false} MoveEnds(xs: seq<Addr>, ys: seq<Addr>, k: nat)
    requires k < |xs|
    ensures At(Remove(xs, k), 0) == RemovedEnds(xs, k).initial
    ensures Last(Remove(xs, k)) == RemovedEnds(xs, k).end
    ensures At(ys + [xs[k]], 0) == AppendedEnds(ys, xs[k]).initial
    ensures Last(ys + [xs[k]]) == AppendedEnds(ys, xs[k]).end
  {
    if |xs| > 1 {
      RemoveAt(xs, k, 0);
      RemoveAt(xs, k, |xs| - 2);
    }
  }

  /** Moving the k-th live chunk to the tail of the free list keeps both
      lists described by their pointers and the partition intact. */
  lemma MoveLiveToFree(st: Snapshot, live: seq<Addr>, free: seq<Addr>, k: nat)
    requires Consistent(st, live, free) && k < |live|
    ensures Consistent(
      Snapshot(MoveHeap(st.heap, live, free, k), RemovedEnds(live, k), AppendedEnds(free, live[k])),
      Remove(live, k), free + [live[k]])
    ensures SameRecords(st.heap, MoveHeap(st.heap, live, free, k))
  {
    MoveLinksRemoved(st.heap, live, free, k);
    MoveLinksAppended(st.heap, live, free, k);
    MoveKeepsRecords(st.heap, live, free, k);
    MovePartition(st.heap, live, free, k);
    MoveEnds(live, free, k);
  }

  /** Moving the k-th free chunk to the tail of the live list keeps both
      lists described by their pointers and the partition intact. */
  lemma MoveFreeToLive(st: Snapshot, live: seq<Addr>, free: seq<Addr>, k: nat)
    requires Consistent(st, live, free) && k < |free|
    ensures Consistent(
      Snapshot(MoveHeap(st.heap, free, live, k), AppendedEnds(live, free[k]), RemovedEnds(free, k)),
      live + [free[k]], Remove(free, k))
    ensures SameRecords(st.heap, MoveHeap(st.heap, free, live, k))
  {
    MoveLinksRemoved(st.heap, free, live, k);
    MoveLinksAppended(st.heap, free, live, k);
    MoveKeepsRecords(st.heap, free, live, k);
    MovePartition(st.heap, free, live, k);
    MoveEnds(free, live, k);
  }

  /** The links after a freshly mapped chunk `m` with header `c` is put
      after the last chunk of `xs`. */
  function AppendHeap(heap: Heap, xs: seq<Addr>, m: Addr, c: Chunk): Heap
    requires AllIn(heap, xs)
  {
    var h := heap[m := c];
    if |xs| > 0 then h[xs[|xs| - 1] := h[xs[|xs| - 1]].(next := Some(m))] else h
  }

  /** Appending a fresh chunk to the live list keeps both lists described
      and the partition intact, with the new chunk in the live list. */
  lemma {:induction false} AppendFreshToLive(st: Snapshot, live: seq<Addr>, free: seq<Addr>, m: Addr, c: Chunk)
    requires Consistent(st, live, free) && m !in st.heap && c.next == None
    ensures Consistent(
      Snapshot(AppendHeap(st.heap, live, m, c), AppendedEnds(live, m), st.free),
      live + [m], free)
  {
    var h := AppendHeap(st.heap, live, m, c);
    var zs := live + [m];
    forall i | 0 <= i < |zs|
      ensures zs[i] in h && h[zs[i]].next == At(zs, i + 1)
    {
      if i < |live| {
        assert zs[i] == live[i] && live[i] in st.heap;
      }
    }
    forall i | 0 <= i < |free|
      ensures free[i] in h && h[free[i]].next == At(free, i + 1)
    {
      assert free[i] in st.heap;
      assert free[i] in free;
    }
    assert Distinct(zs);
  }

  /** Flipping a `used` flag touches no link. */
  lemma SetUsedKeeps(st: Snapshot, live: seq<Addr>, free: seq<Addr>, a: Addr, used: bool)
    requires Consistent(st, live, free) && a in st.heap
    ensures Consistent(st.(heap := st.heap[a := st.heap[a].(used := used)]), live, free)
  {
    var h := st.heap[a := st.heap[a].(used := used)];
    assert forall x :: x in st.heap ==> h[x].next == st.heap[x].next;
  }

  /** Same chunks with the same sizes; `used` may differ only at `a`. */
  ghost predicate SameRecordsExcept(h1: Heap, h2: Heap, a: Addr)
  {
    h1.Keys == h2.Keys &&
    forall x :: x in h1 ==> h2[x].size == h1[x].size && (x != a ==> h2[x].used == h1[x].used)
  }

  /** The position of `a` in `xs`. */
  function IndexOf(xs: seq<Addr>, a: Addr): (k: nat)
    requires a in xs
    ensures k < |xs| && xs[k] == a
  {
    if xs[0] == a then 0 else 1 + IndexOf(xs[1..], a)
  }

  lemma IndexOfDistinct(xs: seq<Addr>, k: nat)
    requires Distinct(xs) && k < |xs|
    ensures IndexOf(xs, xs[k]) == k
  {
  }

  /** A fresh block starts at an address no chunk has. */
  lemma FreshIsNew(heap: Heap, m: Addr, size: nat)
    requires FreshBlock(heap, m, size)
    ensures m !in heap
  {
    if m in heap {
      assert m + AllocSize(size) == PayloadAddress(m) + size;
      assert m + AllocSize(heap[m].size) == PayloadAddress(m) + heap[m].size;
      ChunkLayout();
    }
  }

  /** Appending keeps every chunk's size and adds `m` with `c`'s size. */
  lemma AppendSizes(heap: Heap, xs: seq<Addr>, m: Addr, c: Chunk)
    requires AllIn(heap, xs) && m !in heap
    ensures AppendHeap(heap, xs, m, c).Keys == heap.Keys + {m}
    ensures AppendHeap(heap, xs, m, c)[m] == c
    ensures forall a :: a in heap ==> AppendHeap(heap, xs, m, c)[a].size == heap[a].size
  {
    if |xs| > 0 {
      assert xs[|xs| - 1] in heap;
    }
  }

  /** Appending a fresh, well-sized block keeps sizes and blocks sound. */
  lemma AppendKeepsSizes(heap: Heap, xs: seq<Addr>, m: Addr, c: Chunk)
    requires AllIn(heap, xs) && WellSized(heap) && Disjoint(heap)
    requires IsPow2(c.size) && c.size >= 8 && FreshBlock(heap, m, c.size)
    ensures m !in heap
    ensures WellSized(AppendHeap(heap, xs, m, c)) && Disjoint(AppendHeap(heap, xs, m, c))
  {
    FreshIsNew(heap, m, c.size);
    var h := AppendHeap(heap, xs, m, c);
    AppendSizes(heap, xs, m, c);
    forall a | a in h
      ensures IsPow2(h[a].size) && h[a].size >= 8
    {
      if a != m {
        WellSizedAt(heap, a);
      }
    }
    forall a, b | a in h && b in h && a != b
      ensures Apart(h, a, b)
    {
      if a == m {
        assert b in heap;
      } else if b == m {
        assert a in heap;
      } else {
        assert Apart(heap, a, b);
      }
    }
  }

  // ---------------------------------------------------------------------
  // Facts behind best fit's doubling search

  /** Once a request fits under the largest size, that size is a power of two. */
  lemma LargestIsPow2(heap: Heap, xs: seq<Addr>, size: nat)
    requires AllIn(heap, xs) && WellSized(heap) && IsPow2(size) && size <= MaxSizeOf(heap, xs, |xs|)
    ensures IsPow2(MaxSizeOf(heap, xs, |xs|))
  {
    assert size >= 1 && |xs| > 0;
    var top :| 0 <= top < |xs| && heap[xs[top]].size == MaxSizeOf(heap, xs, |xs|);
    WellSizedAt(heap, xs[top]);
  }

  /** An exact match at `cur`, with nothing fitting below `cur`, makes `cur`
      the smallest fitting size. */
  lemma SmallestFitIs(heap: Heap, xs: seq<Addr>, size: nat, cur: nat, j: nat)
    requires AllIn(heap, xs) && j < |xs| && Meets(heap[xs[j]], ExactUnused(cur)) && cur >= size
    requires forall i :: 0 <= i < |xs| && Meets(heap[xs[i]], Reusable(size)) ==> heap[xs[i]].size >= cur
    ensures SmallestFit(heap, xs, 0, size) == Some(cur)
  {
    assert Meets(heap[xs[j]], Reusable(size));
  }

  /** With no unused chunk of exactly `cur` bytes, every fitting chunk has
      at least twice `cur` bytes, and twice `cur` is still within the
      largest size. */
  lemma NextClass(heap: Heap, xs: seq<Addr>, size: nat, cur: nat, maxSize: nat)
    requires AllIn(heap, xs) && WellSized(heap)
    requires IsPow2(cur) && IsPow2(maxSize) && cur < maxSize
    requires forall i :: 0 <= i < |xs| && Meets(heap[xs[i]], Reusable(size)) ==> heap[xs[i]].size >= cur
    requires forall i :: 0 <= i < |xs| ==> !Meets(heap[xs[i]], ExactUnused(cur))
    ensures IsPow2(2 * cur) && 2 * cur <= maxSize
    ensures forall i :: 0 <= i < |xs| && Meets(heap[xs[i]], Reusable(size)) ==> heap[xs[i]].size >= 2 * cur
  {
    DoubleIsPow2(cur);
    Pow2Gap(cur, maxSize);
    forall i | 0 <= i < |xs| && Meets(heap[xs[i]], Reusable(size))
      ensures heap[xs[i]].size >= 2 * cur
    {
      WellSizedAt(heap, xs[i]);
      Pow2Gap(cur, heap[xs[i]].size);
    }
  }

  /** Best fit finds nothing when the request exceeds every chunk size. */
  lemma AboveLargest(heap: Heap, xs: seq<Addr>, size: nat)
    requires AllIn(heap, xs) && size > MaxSizeOf(heap, xs, |xs|)
    ensures BestFitIn(heap, xs, size) == None
  {
  }

  /** Best fit finds nothing when no unused chunk has the largest size and
      every fitting chunk is at least that large. */
  lemma TopClassEmpty(heap: Heap, xs: seq<Addr>, size: nat, cur: nat)
    requires AllIn(heap, xs) && cur == MaxSizeOf(heap, xs, |xs|)
    requires forall i :: 0 <= i < |xs| && Meets(heap[xs[i]], Reusable(size)) ==> heap[xs[i]].size >= cur
    requires forall i :: 0 <= i < |xs| ==> !Meets(heap[xs[i]], ExactUnused(cur))
    ensures BestFitIn(heap, xs, size) == None
  {
    forall i | 0 <= i < |xs|
      ensures !Meets(heap[xs[i]], Reusable(size))
    {
      assert heap[xs[i]].size <= cur;
    }
  }

  // ---------------------------------------------------------------------
  // The engine invariant and the steps that keep it

  /** Both lists are described by their pointers and partition the chunks;
      chunk sizes are powers of two of at least 8; mapped blocks do not
      overlap; the next-fit cursor is null or a chunk. */
  ghost predicate Sound(st: Snapshot, live: seq<Addr>, free: seq<Addr>, cursor: Option<Addr>)
  {
    Consistent(st, live, free) && WellSized(st.heap) && Disjoint(st.heap) &&
    (cursor.Some? ==> cursor.value in st.heap)
  }

  /** The free-list splice, done as an unlink followed by a link at the
      tail of the live list, keeps the invariant and every chunk record. */
  lemma SoundMoveFreeToLive(st: Snapshot, live: seq<Addr>, free: seq<Addr>, cursor: Option<Addr>, k: nat, st2: Snapshot)
    requires AllIn(st.heap, live) && AllIn(st.heap, free) && k < |free|
    requires st2 == Snapshot(LinkTail(UnlinkHeap(st.heap, free, k), live, free[k]),
                             AppendedEnds(live, free[k]), RemovedEnds(free, k))
    ensures Sound(st, live, free, cursor) ==>
      Sound(st2, live + [free[k]], Remove(free, k), cursor) && SameRecords(st.heap, st2.heap)
  {
    if Sound(st, live, free, cursor) {
      MoveHeapSplit(st.heap, free, live, k);
      MoveFreeToLive(st, live, free, k);
      SameSizesKeep(st.heap, st2.heap);
    }
  }

  /** The free-listing splice, done as an unlink followed by a link at the
      tail of the free list, keeps the invariant and every chunk record. */
  lemma SoundMoveLiveToFree(st: Snapshot, live: seq<Addr>, free: seq<Addr>, cursor: Option<Addr>, k: nat, st2: Snapshot)
    requires AllIn(st.heap, live) && AllIn(st.heap, free) && k < |live|
    requires st2 == Snapshot(LinkTail(UnlinkHeap(st.heap, live, k), free, live[k]),
                             RemovedEnds(live, k), AppendedEnds(free, live[k]))
    ensures Sound(st, live, free, cursor) ==>
      Sound(st2, Remove(live, k), free + [live[k]], cursor) && SameRecords(st.heap, st2.heap)
  {
    if Sound(st, live, free, cursor) {
      MoveHeapSplit(st.heap, live, free, k);
      MoveLiveToFree(st, live, free, k);
      SameSizesKeep(st.heap, st2.heap);
    }
  }

  /** Setting a `used` flag keeps the invariant. */
  lemma SoundSetUsed(st: Snapshot, live: seq<Addr>, free: seq<Addr>, cursor: Option<Addr>, a: Addr, used: bool, st2: Snapshot)
    requires a in st.heap && st2 == st.(heap := st.heap[a := st.heap[a].(used := used)])
    ensures SameRecordsExcept(st.heap, st2.heap, a)
    ensures Sound(st, live, free, cursor) ==> Sound(st2, live, free, cursor)
  {
    if Sound(st, live, free, cursor) {
      SetUsedKeeps(st, live, free, a, used);
      SameSizesKeep(st.heap, st2.heap);
    }
  }

  /** Appending a fresh, well-sized chunk of a non-overlapping block to the
      live list keeps the invariant; the cursor moves to it when the live
      list was empty. */
  lemma SoundAppendFresh(st: Snapshot, live: seq<Addr>, free: seq<Addr>, cursor: Option<Addr>, m: Addr, c: Chunk, st2: Snapshot)
    requires AllIn(st.heap, live)
    requires IsPow2(c.size) && c.size >= 8 && c.next == None
    requires st2 == Snapshot(AppendHeap(st.heap, live, m, c), AppendedEnds(live, m), st.free)
    ensures Sound(st, live, free, cursor) && FreshBlock(st.heap, m, c.size) ==>
      m !in st.heap && Sound(st2, live + [m], free, if live == [] then Some(m) else cursor)
  {
    if Sound(st, live, free, cursor) && FreshBlock(st.heap, m, c.size) {
      AppendKeepsSizes(st.heap, live, m, c);
      AppendFreshToLive(st, live, free, m, c);
    }
  }
}
