/**
 * The allocator engine `Memory_Linked_List` (allocator.cpp): a live list
 * of chunks with a next-fit cursor, a free list used in free-list mode, the
 * four search strategies, `alloc` and `free`.
 *
 * Chunk headers sit in `heap`, keyed by header address; the C pointers
 * become `Option<Addr>` and a chunk's payload pointer is
 * `PayloadAddress(header)`. The ghost sequences `Live` and `FreeChunks`
 * are the two lists in link order.
 */
module Allocator {
  import opened Wrappers
  import opened ChunkHeader
  import opened PowersOfTwo
  import opened Alignment
  import opened ChunkLists

  /** `m_search_mode`. `NoMode` stands for any value that is none of the
      four strategies, which `find_chunk` rejects. */
  datatype SearchMode = NoMode | FirstFit | NextFit | BestFit | FreeList

  class MemoryLinkedList {
    var heap: Heap
    var mInitial: Option<Addr>
    var mStart: Option<Addr>
    var mEnd: Option<Addr>
    var nextFitChunk: Option<Addr>
    var fListInitial: Option<Addr>
    var fListStart: Option<Addr>
    var fListEnd: Option<Addr>
    var searchMode: SearchMode

    /** The live list and the free list, in link order. */
    ghost var Live: seq<Addr>
    ghost var FreeChunks: seq<Addr>

    ghost function State(): Snapshot
      reads this
    {
      Snapshot(heap, Ends(mInitial, mStart, mEnd), Ends(fListInitial, fListStart, fListEnd))
    }

    ghost predicate Valid()
      reads this
    {
      Sound(State(), Live, FreeChunks, nextFitChunk)
    }

    /** A new engine: both lists empty, `m_start` equal to `m_initial`, no
        cursor, no search mode selected yet. */
    constructor ()
      ensures Valid()
      ensures heap == map[] && Live == [] && FreeChunks == []
      ensures mInitial == None && mStart == mInitial && mEnd == None && nextFitChunk == None
      ensures fListInitial == None && fListStart == None && fListEnd == None
      ensures searchMode == NoMode
    {
      heap := map[];
      mInitial := None;
      mStart := mInitial;
      nextFitChunk := None;
      mEnd := None;
      fListInitial := None;
      fListStart := None;
      fListEnd := None;
      searchMode := NoMode;
      Live := [];
      FreeChunks := [];
    }

    /** Configuring the search mode between calls. */
    method SetSearchMode(mode: SearchMode)
      requires Valid()
      modifies this`searchMode
      ensures Valid() && searchMode == mode
    {
      searchMode := mode;
    }

    /** Follows the links from `start`, the k0-th chunk of the list `xs`,
        and stops at the first chunk that meets `crit`. */
    method Scan(start: Option<Addr>, ghost xs: seq<Addr>, ghost k0: nat, crit: Criterion)
      returns (r: Option<Addr>)
      requires Linked(heap, xs) && k0 <= |xs| && start == At(xs, k0)
      ensures r == AddrAt(xs, FirstMatchFrom(heap, xs, k0, crit))
    {
      var s := start;
      ghost var k := k0;
      while s.Some?
        invariant k0 <= k <= |xs| && s == At(xs, k)
        invariant FirstMatchFrom(heap, xs, k0, crit) == FirstMatchFrom(heap, xs, k, crit)
        decreases |xs| - k
      {
        if Meets(heap[s.value], crit) {
          return s;
        }
        s := heap[s.value].next;
        k := k + 1;
      }
      return None;
    }

    /** `first_fit`: the earliest live chunk that is unused and large
        enough, or null; nothing changes. */
    method FirstFitSearch(size: nat) returns (r: Option<Addr>)
      requires Valid()
      ensures r == AddrAt(Live, FirstMatchFrom(heap, Live, 0, Reusable(size)))
      ensures r.Some? ==> r.value in Live && Meets(heap[r.value], Reusable(size))
      ensures r.None? <==> forall a :: a in Live ==> !Meets(heap[a], Reusable(size))
    {
      r := Scan(mInitial, Live, 0, Reusable(size));
    }

    /** The list that holds chunk `c`. */
    ghost function ListHolding(c: Addr): seq<Addr>
      reads this
      requires Valid() && c in heap
    {
      if c in Live then Live else FreeChunks
    }

    /** What next fit finds: the first unused, large enough chunk from the
        cursor to the end of the cursor's list, without wrapping around. */
    ghost function NextFitFrom(size: nat): Option<Addr>
      reads this
      requires Valid()
    {
      match nextFitChunk
      case None => None
      case Some(c) =>
        var xs := ListHolding(c);
        AddrAt(xs, FirstMatchFrom(heap, xs, IndexOf(xs, c), Reusable(size)))
    }

    /** `next_fit`: scan from the cursor; a chunk found becomes the cursor,
        a miss leaves the cursor where it was. */
    method NextFitSearch(size: nat) returns (r: Option<Addr>)
      requires Valid()
      modifies this`nextFitChunk
      ensures Valid()
      ensures r == old(NextFitFrom(size))
      ensures r.Some? ==> r.value in heap && Meets(heap[r.value], Reusable(size))
      ensures nextFitChunk == if r.Some? then r else old(nextFitChunk)
    {
      if nextFitChunk.None? {
        return None;
      }
      var c := nextFitChunk.value;
      ghost var xs := ListHolding(c);
      r := Scan(nextFitChunk, xs, IndexOf(xs, c), Reusable(size));
      if r.Some? {
        // the source's `m_next_fit_chunk == nullptr` branch cannot be taken
        // here: the scan started at the cursor, so the cursor is not null
        nextFitChunk := r;
      }
    }

    /** The first pass of `best_fit`: the largest size in the live list. */
    method LargestLiveSize() returns (maxMemoryStored: nat)
      requires Valid()
      ensures maxMemoryStored == MaxSizeOf(heap, Live, |Live|)
    {
      maxMemoryStored := 0;
      var s := mInitial;
      ghost var k := 0;
      while s.Some?
        invariant k <= |Live| && s == At(Live, k)
        invariant maxMemoryStored == MaxSizeOf(heap, Live, k)
        decreases |Live| - k
      {
        if maxMemoryStored < heap[s.value].size {
          maxMemoryStored := heap[s.value].size;
        }
        s := heap[s.value].next;
        k := k + 1;
      }
    }

    /** The second pass of `best_fit`: look for an unused chunk of exactly
        `size`, then `2 * size`, and so on up to the largest live size. */
    method SizeClassSearch(size: nat, maxMemoryStored: nat) returns (r: Option<Addr>)
      requires Linked(heap, Live) && mInitial == At(Live, 0) && WellSized(heap)
      requires IsPow2(size) && maxMemoryStored == MaxSizeOf(heap, Live, |Live|)
      requires size <= maxMemoryStored
      ensures r == AddrAt(Live, BestFitIn(heap, Live, size))
    {
      ghost var xs := Live;
      LargestIsPow2(heap, xs, size);
      var multiplier: nat := 1;
      ghost var cur := size;
      while true
        invariant multiplier >= 1 && cur == size * multiplier
        invariant IsPow2(cur) && cur <= maxMemoryStored
        invariant forall i :: 0 <= i < |xs| && Meets(heap[xs[i]], Reusable(size)) ==>
          heap[xs[i]].size >= cur
        decreases maxMemoryStored - cur
      {
        var target := size * multiplier;
        var found := Scan(mInitial, xs, 0, ExactUnused(target));
        ghost var j := FirstMatchFrom(heap, xs, 0, ExactUnused(target));
        if found.Some? {
          SmallestFitIs(heap, xs, size, cur, j.value);
          return found;
        }
        if target == maxMemoryStored {
          TopClassEmpty(heap, xs, size, cur);
          return None;
        }
        NextClass(heap, xs, size, cur, maxMemoryStored);
        DoubleProduct(size, multiplier);
        multiplier := multiplier * 2;
        cur := 2 * cur;
      }
    }

    /** `best_fit`: find the largest live chunk size; give up if the request
        is larger; otherwise search the size classes from the request up. */
    method BestFitSearch(size: nat) returns (r: Option<Addr>)
      requires Valid() && IsPow2(size)
      ensures r == AddrAt(Live, BestFitIn(heap, Live, size))
      ensures size > MaxSizeOf(heap, Live, |Live|) ==> r.None?
    {
      var maxMemoryStored := LargestLiveSize();
      if size > maxMemoryStored {
        AboveLargest(heap, Live, size);
        return None;
      }
      r := SizeClassSearch(size, maxMemoryStored);
    }

    /** Takes the k-th chunk `c` of the free list `xs` out of the list:
        the first chunk moves the head pointers (all three become null when
        it was the only one), a later one is skipped by its predecessor
        `prevS`, which becomes the tail when `c` was the tail. */
    method UnlinkFree(c: Addr, prevS: Option<Addr>, ghost xs: seq<Addr>, ghost k: nat)
      requires Describes(heap, Ends(fListInitial, fListStart, fListEnd), xs) && Distinct(xs)
      requires k < |xs| && c == xs[k] && (k > 0 ==> prevS == Some(xs[k - 1]))
      modifies this`heap, this`fListInitial, this`fListStart, this`fListEnd
      ensures heap == UnlinkHeap(old(heap), xs, k)
      ensures Ends(fListInitial, fListStart, fListEnd) == RemovedEnds(xs, k)
      ensures mInitial == old(mInitial) && mStart == old(mStart) && mEnd == old(mEnd)
      ensures nextFitChunk == old(nextFitChunk)
    {
      assert Some(c) == fListInitial <==> k == 0;
      assert Some(c) == fListEnd <==> k == |xs| - 1;
      if Some(c) == fListInitial {
        if heap[c].next.None? {
          fListInitial := None;
          fListStart := None;
          fListEnd := None;
        } else {
          fListInitial := heap[c].next;
          fListStart := heap[c].next;
        }
      } else {
        var prev := prevS.value;
        if Some(c) == fListEnd {
          fListEnd := prevS;
          heap := heap[prev := heap[prev].(next := None)];
        } else {
          heap := heap[prev := heap[prev].(next := heap[c].next)];
        }
      }
    }

    /** Puts chunk `c` after the last chunk of the live list `ys`, or makes
        it the whole list when `ys` is empty, and makes it the tail. */
    method LinkLiveTail(c: Addr, ghost ys: seq<Addr>)
      requires AllIn(heap, ys) && c in heap
      requires mInitial == At(ys, 0) && mStart == mInitial && mEnd == Last(ys)
      modifies this`heap, this`mInitial, this`mStart, this`mEnd
      ensures heap == LinkTail(old(heap), ys, c)
      ensures Ends(mInitial, mStart, mEnd) == AppendedEnds(ys, c)
      ensures fListInitial == old(fListInitial) && fListStart == old(fListStart) && fListEnd == old(fListEnd)
      ensures nextFitChunk == old(nextFitChunk)
    {
      if mInitial.Some? {
        heap := heap[mEnd.value := heap[mEnd.value].(next := Some(c))];
      }
      if mInitial.None? {
        mInitial := Some(c);
        mStart := Some(c);
      }
      heap := heap[c := heap[c].(next := None)];
      mEnd := Some(c);
    }

    /** The splice at the end of `free_list`: the k-th free chunk `c`, with
        `prevS` before it, leaves the free list for the tail of the live
        list and is returned. */
    method TakeFree(c: Addr, prevS: Option<Addr>, ghost k: nat) returns (r: Option<Addr>)
      requires Valid() && k < |FreeChunks| && c == FreeChunks[k]
      requires k > 0 ==> prevS == Some(FreeChunks[k - 1])
      modifies this`heap, this`mInitial, this`mStart, this`mEnd
      modifies this`fListInitial, this`fListStart, this`fListEnd, this`Live, this`FreeChunks
      ensures Valid()
      ensures r == Some(old(FreeChunks)[k])
      ensures Live == old(Live) + [old(FreeChunks)[k]] && FreeChunks == Remove(old(FreeChunks), k)
      ensures SameRecords(old(heap), heap)
    {
      ghost var st := State();
      ghost var live, free := Live, FreeChunks;
      ghost var cursor := nextFitChunk;
      MoveHeapSplit(st.heap, free, live, k);
      UnlinkFree(c, prevS, free, k);
      LinkLiveTail(c, live);
      Live := live + [c];
      FreeChunks := Remove(free, k);
      SoundMoveFreeToLive(st, live, free, cursor, k, State());
      return Some(c);
    }

    /** `free_list`: the first chunk of the free list with at least `size`
        bytes, moved to the tail of the live list; nothing changes on a miss. */
    method FreeListSearch(size: nat) returns (r: Option<Addr>)
      requires Valid()
      modifies this`heap, this`mInitial, this`mStart, this`mEnd
      modifies this`fListInitial, this`fListStart, this`fListEnd, this`Live, this`FreeChunks
      ensures Valid()
      ensures r == old(AddrAt(FreeChunks, FirstMatchFrom(heap, FreeChunks, 0, LargeEnough(size))))
      ensures r.None? ==> unchanged(this)
      ensures r.Some? ==>
        Live == old(Live) + [r.value] &&
        FreeChunks == Remove(old(FreeChunks), old(FirstMatchFrom(heap, FreeChunks, 0, LargeEnough(size))).value) &&
        SameRecords(old(heap), heap)
    {
      var prevS := mInitial;
      var s := fListInitial;
      ghost var k := 0;
      while s.Some?
        invariant k <= |FreeChunks| && s == At(FreeChunks, k)
        invariant k > 0 ==> prevS == Some(FreeChunks[k - 1])
        invariant FirstMatchFrom(heap, FreeChunks, 0, LargeEnough(size)) ==
          FirstMatchFrom(heap, FreeChunks, k, LargeEnough(size))
        decreases |FreeChunks| - k
      {
        if heap[s.value].size >= size {
          r := TakeFree(s.value, prevS, k);
          return;
        }
        prevS := s;
        s := heap[s.value].next;
        k := k + 1;
      }
      return None;
    }

    /** Takes the k-th chunk `c` of the live list `xs` out of the list, the
        same way `UnlinkFree` does for the free list. */
    method UnlinkLive(c: Addr, prevS: Option<Addr>, ghost xs: seq<Addr>, ghost k: nat)
      requires Describes(heap, Ends(mInitial, mStart, mEnd), xs) && Distinct(xs)
      requires k < |xs| && c == xs[k] && (k > 0 ==> prevS == Some(xs[k - 1]))
      modifies this`heap, this`mInitial, this`mStart, this`mEnd
      ensures heap == UnlinkHeap(old(heap), xs, k)
      ensures Ends(mInitial, mStart, mEnd) == RemovedEnds(xs, k)
      ensures fListInitial == old(fListInitial) && fListStart == old(fListStart) && fListEnd == old(fListEnd)
      ensures nextFitChunk == old(nextFitChunk)
    {
      assert Some(c) == mInitial <==> k == 0;
      assert Some(c) == mEnd <==> k == |xs| - 1;
      if Some(c) == mInitial {
        if heap[c].next.None? {
          mInitial := None;
          mStart := None;
          mEnd := None;
        } else {
          mInitial := heap[c].next;
          mStart := heap[c].next;
        }
      } else {
        var prev := prevS.value;
        if Some(c) == mEnd {
          mEnd := prevS;
          heap := heap[prev := heap[prev].(next := None)];
        } else {
          heap := heap[prev := heap[prev].(next := heap[c].next)];
        }
      }
    }

    /** Puts chunk `c` after the last chunk of the free list `ys`, or makes
        it the whole list when `ys` is empty, and makes it the tail. */
    method LinkFreeTail(c: Addr, ghost ys: seq<Addr>)
      requires AllIn(heap, ys) && c in heap
      requires fListInitial == At(ys, 0) && fListStart == fListInitial && fListEnd == Last(ys)
      modifies this`heap, this`fListInitial, this`fListStart, this`fListEnd
      ensures heap == LinkTail(old(heap), ys, c)
      ensures Ends(fListInitial, fListStart, fListEnd) == AppendedEnds(ys, c)
      ensures mInitial == old(mInitial) && mStart == old(mStart) && mEnd == old(mEnd)
      ensures nextFitChunk == old(nextFitChunk)
    {
      if fListStart.Some? {
        heap := heap[fListEnd.value := heap[fListEnd.value].(next := Some(c))];
      }
      if fListInitial.None? {
        fListInitial := Some(c);
        fListStart := Some(c);
      }
      heap := heap[c := heap[c].(next := None)];
      fListEnd := Some(c);
    }

    /** The splice of `free_listing`: the k-th live chunk `c`, with `prevS`
        before it, leaves the live list for the tail of the free list. */
    method GiveFree(c: Addr, prevS: Option<Addr>, ghost k: nat)
      requires Valid() && k < |Live| && c == Live[k]
      requires k > 0 ==> prevS == Some(Live[k - 1])
      modifies this`heap, this`mInitial, this`mStart, this`mEnd
      modifies this`fListInitial, this`fListStart, this`fListEnd, this`Live, this`FreeChunks
      ensures Valid()
      ensures Live == Remove(old(Live), k) && FreeChunks == old(FreeChunks) + [c]
      ensures SameRecords(old(heap), heap)
    {
      ghost var st := State();
      ghost var live, free := Live, FreeChunks;
      ghost var cursor := nextFitChunk;
      MoveHeapSplit(st.heap, live, free, k);
      UnlinkLive(c, prevS, live, k);
      LinkFreeTail(c, free);
      Live := Remove(live, k);
      FreeChunks := free + [c];
      SoundMoveLiveToFree(st, live, free, cursor, k, State());
    }

    /** `free_listing`: a chunk of the live list moves to the tail of the
        free list; any other chunk leaves both lists as they are. */
    method FreeListing(chunk: Addr)
      requires Valid()
      modifies this`heap, this`mInitial, this`mStart, this`mEnd
      modifies this`fListInitial, this`fListStart, this`fListEnd, this`Live, this`FreeChunks
      ensures Valid()
      ensures chunk in old(Live) ==>
        Live == Remove(old(Live), IndexOf(old(Live), chunk)) &&
        FreeChunks == old(FreeChunks) + [chunk] &&
        SameRecords(old(heap), heap)
      ensures chunk !in old(Live) ==> unchanged(this)
    {
      if Some(chunk) == mInitial {
        IndexOfDistinct(Live, 0);
        GiveFree(chunk, None, 0);
        assert chunk !in Live;
      }
      // the first chunk is now not `chunk`, whether or not it was moved
      assert |Live| > 0 ==> Live[0] != chunk;
      var prevS := mInitial;
      var s := mInitial;
      ghost var k := 0;
      while s.Some?
        invariant k <= |Live| && s == At(Live, k)
        invariant k > 0 ==> prevS == Some(Live[k - 1])
        invariant forall i :: 0 <= i < k ==> Live[i] != chunk
        decreases |Live| - k
      {
        if s.value == chunk {
          // `chunk` ends the list once moved, so the source's loop stops here
          break;
        }
        prevS := s;
        s := heap[s.value].next;
        k := k + 1;
      }
      if s.Some? {
        assert k > 0;
        IndexOfDistinct(Live, k);
        GiveFree(chunk, prevS, k);
      }
    }

    /** `free`: the chunk behind the payload pointer `data` is marked unused;
        in free-list mode it first moves from the live list to the free
        list. */
    method Free(data: Addr)
      requires Valid() && GetHeader(data) in heap
      modifies this`heap, this`mInitial, this`mStart, this`mEnd
      modifies this`fListInitial, this`fListStart, this`fListEnd, this`Live, this`FreeChunks
      ensures Valid()
      ensures var h := GetHeader(data);
        h in heap && !heap[h].used && SameRecordsExcept(old(heap), heap, h)
      ensures searchMode != FreeList ==>
        heap == old(heap)[GetHeader(data) := old(heap)[GetHeader(data)].(used := false)] &&
        Live == old(Live) && FreeChunks == old(FreeChunks) &&
        mInitial == old(mInitial) && mStart == old(mStart) && mEnd == old(mEnd)
      ensures nextFitChunk == old(nextFitChunk)
      ensures searchMode == FreeList ==> GetHeader(data) in FreeChunks
      ensures searchMode == FreeList && GetHeader(data) in old(Live) ==>
        Live == Remove(old(Live), IndexOf(old(Live), GetHeader(data))) &&
        FreeChunks == old(FreeChunks) + [GetHeader(data)]
      ensures GetHeader(data) !in old(Live) ==> Live == old(Live) && FreeChunks == old(FreeChunks)
    {
      var chunk := GetHeader(data);
      if searchMode == SearchMode.FreeList {
        FreeListing(chunk);
      }
      ghost var st := State();
      heap := heap[chunk := heap[chunk].(used := false)];
      SoundSetUsed(st, Live, FreeChunks, nextFitChunk, chunk, false, State());
    }

    /** What `find_chunk` finds under the current search mode. */
    ghost function Found(size: nat): Option<Addr>
      reads this
      requires Valid()
    {
      match searchMode
      case NoMode => None
      case FirstFit => AddrAt(Live, FirstMatchFrom(heap, Live, 0, Reusable(size)))
      case NextFit => NextFitFrom(size)
      case BestFit => AddrAt(Live, BestFitIn(heap, Live, size))
      case FreeList => AddrAt(FreeChunks, FirstMatchFrom(heap, FreeChunks, 0, LargeEnough(size)))
    }

    /** A chunk that `find_chunk` finds has at least `size` bytes; it is
        unused, except in free-list mode, where it comes off the free list. */
    lemma FoundFits(size: nat)
      requires Valid()
      ensures Found(size).Some? ==> Found(size).value in heap && heap[Found(size).value].size >= size
      ensures Found(size).Some? && searchMode != SearchMode.FreeList ==> !heap[Found(size).value].used
      ensures Found(size).Some? && searchMode == SearchMode.FreeList ==> Found(size).value in FreeChunks
    {
    }

    /** `find_chunk`: dispatch on the search mode; no mode is an error. The
        chunk returned is the one `Found` names; in free-list mode it has
        just joined the live list, and a miss changes nothing. */
    method FindChunk(size: nat) returns (r: Result<Option<Addr>>)
      requires Valid() && IsPow2(size)
      modifies this`heap, this`mInitial, this`mStart, this`mEnd, this`nextFitChunk
      modifies this`fListInitial, this`fListStart, this`fListEnd, this`Live, this`FreeChunks
      ensures Valid()
      ensures r.Err? <==> old(searchMode) == NoMode
      ensures r.Err? ==> r.error == InvalidSearchMode && unchanged(this)
      ensures r.Ok? ==> r.value == old(Found(size))
      ensures r.Ok? && r.value.None? ==> unchanged(this)
      ensures SameRecords(old(heap), heap)
      ensures searchMode == FirstFit || searchMode == BestFit ==> unchanged(this)
      ensures searchMode == NextFit ==>
        heap == old(heap) && Live == old(Live) && FreeChunks == old(FreeChunks) &&
        mInitial == old(mInitial) && mStart == old(mStart) && mEnd == old(mEnd) &&
        fListInitial == old(fListInitial) && fListStart == old(fListStart) && fListEnd == old(fListEnd) &&
        nextFitChunk == (if r.Ok? && r.value.Some? then r.value else old(nextFitChunk))
      ensures searchMode == FreeList && r.Ok? && r.value.Some? ==>
        Live == old(Live) + [r.value.value] &&
        var k := old(FirstMatchFrom(heap, FreeChunks, 0, LargeEnough(size)));
        k.Some? && FreeChunks == Remove(old(FreeChunks), k.value) && nextFitChunk == old(nextFitChunk)
    {
      match searchMode {
        case FirstFit =>
          var c := FirstFitSearch(size);
          return Ok(c);
        case NextFit =>
          var c := NextFitSearch(size);
          return Ok(c);
        case BestFit =>
          var c := BestFitSearch(size);
          return Ok(c);
        case FreeList =>
          var c := FreeListSearch(size);
          return Ok(c);
        case NoMode =>
          return Err(InvalidSearchMode);
      }
    }

    /** The header writes of `alloc` after a miss: the fresh chunk `c` at
        `m` joins the tail of the live list `ys`, or becomes the whole list
        and the next-fit cursor when `ys` is empty. */
    method PlaceFresh(m: Addr, c: Chunk, ghost ys: seq<Addr>)
      requires AllIn(heap, ys) && mInitial == At(ys, 0) && mStart == mInitial && mEnd == Last(ys)
      modifies this`heap, this`mInitial, this`mStart, this`mEnd, this`nextFitChunk
      ensures heap == AppendHeap(old(heap), ys, m, c)
      ensures Ends(mInitial, mStart, mEnd) == AppendedEnds(ys, m)
      ensures nextFitChunk == if ys == [] then Some(m) else old(nextFitChunk)
      ensures fListInitial == old(fListInitial) && fListStart == old(fListStart) && fListEnd == old(fListEnd)
    {
      heap := heap[m := c];
      if mStart.Some? {
        heap := heap[mEnd.value := heap[mEnd.value].(next := Some(m))];
      }
      if mInitial.None? {
        mInitial := Some(m);
        nextFitChunk := Some(m);
        mStart := Some(m);
      }
      mEnd := Some(m);
    }

    /** The end of `alloc` after a miss: the freshly mapped block at `m`
        gets a used header of `aligned` bytes with a null `next` (the block
        is zero-filled), joins the live list at its tail, and becomes the
        cursor when the live list was empty. */
    method AppendMapped(m: Addr, aligned: nat)
      requires Valid() && IsPow2(aligned) && aligned >= 8 && FreshBlock(heap, m, aligned)
      modifies this`heap, this`mInitial, this`mStart, this`mEnd, this`nextFitChunk, this`Live
      ensures Valid()
      ensures m !in old(heap) && heap == AppendHeap(old(heap), old(Live), m, Chunk(aligned, true, None))
      ensures m in heap && heap[m] == Chunk(aligned, true, None)
      ensures Live == old(Live) + [m] && Ends(mInitial, mStart, mEnd) == AppendedEnds(old(Live), m)
      ensures nextFitChunk == if old(Live) == [] then Some(m) else old(nextFitChunk)
      ensures fListInitial == old(fListInitial) && fListStart == old(fListStart) && fListEnd == old(fListEnd)
      ensures FreeChunks == old(FreeChunks) && searchMode == old(searchMode)
    {
      ghost var st := State();
      ghost var live, cursor := Live, nextFitChunk;
      var chunk := Chunk(aligned, true, None);
      PlaceFresh(m, chunk, live);
      Live := live + [m];
      SoundAppendFresh(st, live, FreeChunks, cursor, m, chunk, State());
    }

    /** `alloc`: round the request up with `align`, reuse the chunk that
        `find_chunk` finds and mark it used, or else append a freshly mapped
        chunk of the rounded size to the live list (`mapped` is the address
        `mmap` returns, `None` when it fails). The result is the payload
        pointer of a used chunk of at least `size` bytes. */
    method Alloc(size: nat, mapped: Option<Addr>) returns (r: Result<Addr>)
      requires Valid()
      requires mapped.Some? ==> FreshBlock(heap, mapped.value, Pow2AtLeast(size))
      modifies this`heap, this`mInitial, this`mStart, this`mEnd, this`nextFitChunk
      modifies this`fListInitial, this`fListStart, this`fListEnd, this`Live, this`FreeChunks
      ensures Valid()
      ensures r.Ok? ==>
        GetHeader(r.value) in heap && heap[GetHeader(r.value)].used &&
        heap[GetHeader(r.value)].size >= size
      ensures searchMode == NoMode ==> r == Err(InvalidSearchMode) && unchanged(this)
      ensures searchMode != NoMode && old(Found(Pow2AtLeast(size))).Some? ==>
        var h := old(Found(Pow2AtLeast(size))).value;
        r == Ok(PayloadAddress(h)) && SameRecordsExcept(old(heap), heap, h)
      ensures searchMode != NoMode && searchMode != FreeList && old(Found(Pow2AtLeast(size))).Some? ==>
        var h := old(Found(Pow2AtLeast(size))).value;
        h in old(heap) && heap == old(heap)[h := old(heap)[h].(used := true)] &&
        Live == old(Live) && FreeChunks == old(FreeChunks) &&
        mInitial == old(mInitial) && mStart == old(mStart) && mEnd == old(mEnd) &&
        fListInitial == old(fListInitial) && fListStart == old(fListStart) && fListEnd == old(fListEnd) &&
        nextFitChunk == (if searchMode == NextFit then Some(h) else old(nextFitChunk))
      ensures searchMode == FreeList && old(Found(Pow2AtLeast(size))).Some? ==>
        var h := old(Found(Pow2AtLeast(size))).value;
        Live == old(Live) + [h] &&
        var k := old(FirstMatchFrom(heap, FreeChunks, 0, LargeEnough(Pow2AtLeast(size))));
        k.Some? && FreeChunks == Remove(old(FreeChunks), k.value) && nextFitChunk == old(nextFitChunk)
      ensures searchMode != NoMode && old(Found(Pow2AtLeast(size))).None? && mapped.None? ==>
        r == Err(OutOfMemory) && unchanged(this)
      ensures searchMode != NoMode && old(Found(Pow2AtLeast(size))).None? && mapped.Some? ==>
        var m := mapped.value;
        r == Ok(PayloadAddress(m)) && m !in old(heap) &&
        heap == AppendHeap(old(heap), old(Live), m, Chunk(Pow2AtLeast(size), true, None)) &&
        Live == old(Live) + [m] && FreeChunks == old(FreeChunks) &&
        Ends(mInitial, mStart, mEnd) == AppendedEnds(old(Live), m) &&
        nextFitChunk == (if old(Live) == [] then Some(m) else old(nextFitChunk))
    {
      var aligned := Align(size);
      FoundFits(aligned);
      var found := FindChunk(aligned);
      if found.Err? {
        return Err(found.error);
      }
      if found.value.Some? {
        var c := found.value.value;
        ghost var st := State();
        heap := heap[c := heap[c].(used := true)];
        SoundSetUsed(st, Live, FreeChunks, nextFitChunk, c, true, State());
        HeaderPayloadRoundTrip(c);
        assert heap[c].used && heap[c].size >= aligned >= size;
        return Ok(PayloadAddress(c));
      }
      if mapped.None? {
        return Err(OutOfMemory);
      }
      Pow2AtLeastIsAlignment(size);
      AppendMapped(mapped.value, aligned);
      HeaderPayloadRoundTrip(mapped.value);
      assert heap[mapped.value].used && heap[mapped.value].size >= size;
      return Ok(PayloadAddress(mapped.value));
    }
  }
}
