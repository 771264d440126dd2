/**
 * The branch of `free_list` that takes a chunk from the middle or the end
 * of the free list, as allocator.cpp writes it. It compares the chunk with
 * the tail of the live list where the tail of the free list is meant, leaves
 * `m_end` on the old live tail although the chunk is linked after it, points
 * `f_list_end` at the chunk it has just taken out, and then lets the scan run
 * on, so that the chunk is never returned. The engine in engine.dfy does
 * this splice as intended (`MemoryLinkedList.TakeFree`).
 */
module FreeListDefect {
  import opened Wrappers
  import opened ChunkHeader
  import opened ChunkLists

  /** The pointers and links after the scan, and what `free_list` returns. */
  datatype Outcome = Outcome(st: Snapshot, found: Option<Addr>)

  /** `free_list` once the scan has reached a fitting chunk `s` that is not
      the head of the free list, with `prev` the free chunk before it. The
      scan goes on from `s->next`, which is now nullptr, so it ends with
      nullptr. */
  function NonHeadAsWritten(st: Snapshot, prev: Addr, s: Addr): (o: Outcome)
    requires prev in st.heap && s in st.heap
    requires st.live.end.Some? ==> st.live.end.value in st.heap
    ensures o.found == None && o.st.free.end == Some(s)
    ensures o.st.heap.Keys == st.heap.Keys && o.st.heap[s].next == None
  {
    // The tail test is made against the live list's tail.
    var h1 := if Some(s) == st.live.end
      then st.heap[prev := st.heap[prev].(next := None)]
      else st.heap[prev := st.heap[prev].(next := st.heap[s].next)];
    var mEnd := if Some(s) == st.live.end then Some(prev) else st.live.end;
    // The chunk goes after `m_end`, or starts the live list; `m_end` stays.
    var h2 := if st.live.initial.Some? && mEnd.Some?
      then h1[mEnd.value := h1[mEnd.value].(next := Some(s))]
      else h1;
    var live := if st.live.initial.None?
      then Ends(Some(s), Some(s), mEnd)
      else Ends(st.live.initial, st.live.start, mEnd);
    var h3 := h2[s := h2[s].(next := None)];
    Outcome(Snapshot(h3, live, st.free.(end := Some(s))), None)
  }

  /** A list whose tail pointer names a chunk that links on is described by
      no sequence of chunks. */
  lemma TailLinksOn(heap: Heap, d: Ends, l: seq<Addr>)
    requires d.end.Some? && d.end.value in heap && heap[d.end.value].next.Some?
    ensures !Describes(heap, d, l)
  {
  }

  /** A list with a head pointer but no tail pointer is described by no
      sequence of chunks. */
  lemma HeadWithoutTail(heap: Heap, d: Ends, l: seq<Addr>)
    requires d.initial.Some? && d.end.None?
    ensures !Describes(heap, d, l)
  {
  }

  /** From any consistent state, taking the k-th free chunk (k > 0) as
      written leaves pointers and links that no pair of lists matches:
      either `m_end` still names the old live tail, whose `next` is now the
      taken chunk, or the live list has a head but no tail. The call also
      reports a miss although the chunk fits. */
  lemma {:induction false} NonHeadLosesLists(st: Snapshot, live: seq<Addr>, free: seq<Addr>, k: nat)
    requires Consistent(st, live, free) && 0 < k < |free|
    ensures st.live.end.Some? ==> st.live.end.value in st.heap
    ensures NonHeadAsWritten(st, free[k - 1], free[k]).found == None
    ensures var o := NonHeadAsWritten(st, free[k - 1], free[k]);
      forall l, f :: !Consistent(o.st, l, f)
  {
    var s := free[k];
    assert s in st.heap && free[k - 1] in st.heap;
    if live != [] {
      assert live[|live| - 1] in st.heap;
    }
    var o := NonHeadAsWritten(st, free[k - 1], s);
    assert s !in live;
    if live == [] {
      assert o.st.live.initial == Some(s) && o.st.live.end == None;
      forall l | true
        ensures !Describes(o.st.heap, o.st.live, l)
      {
        HeadWithoutTail(o.st.heap, o.st.live, l);
      }
    } else {
      var e := live[|live| - 1];
      assert Some(s) != st.live.end;
      assert o.st.live.end == Some(e) && o.st.heap[e].next == Some(s);
      forall l | true
        ensures !Describes(o.st.heap, o.st.live, l)
      {
        TailLinksOn(o.st.heap, o.st.live, l);
      }
    }
  }
}
