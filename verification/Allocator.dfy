/**
 The allocator of 02_memory/custom_malloc/allocator.c as it works in place: block headers stored
 at heap offsets, a free list threaded through them, and the statistics counters.
 Each method is proved to change the view of the heap as the functions of HeapModel say.
 */
module Allocator {
  import opened HeapModel
  import Runs = HeapRuns

  datatype Ptr = Null | At(off: nat)

  datatype Header = Header(size: nat, isFree: bool, next: Ptr)

  type Memory = map<nat, Header>

  /** Writing a header destroys every header it overlaps. */
  function Store(m: Memory, o: nat, h: Header): Memory {
    (map k | k in m && (k + HEADER <= o || o + HEADER <= k) :: m[k])[o := h]
  }

  function Link(segs: seq<Seg>, i: nat): Ptr {
    if i < |segs| then At(segs[i].start) else Null
  }

  ghost predicate Node(m: Memory, segs: seq<Seg>, i: nat)
    requires i < |segs|
  {
    segs[i].start in m && m[segs[i].start] == Header(segs[i].len, true, Link(segs, i + 1))
  }

  /** Following `next` from `head` visits exactly `segs`, all marked free. */
  ghost predicate Linked(m: Memory, head: Ptr, segs: seq<Seg>) {
    && head == Link(segs, 0)
    && forall i :: 0 <= i < |segs| ==> Node(m, segs, i)
  }

  ghost predicate Detached(m: Memory, segs: seq<Seg>) {
    forall i :: 0 <= i < |segs| ==>
      segs[i].start in m && m[segs[i].start] == Header(segs[i].len, false, Null)
  }

  /** Blocks that can hold a header each and do not overlap. */
  ghost predicate Separate(free: seq<Seg>, live: seq<Seg>) {
    && AllUsable(free) && AllUsable(live)
    && PairwiseDisjoint(free) && PairwiseDisjoint(live)
    && forall i, j :: 0 <= i < |free| && 0 <= j < |live| ==> Disjoint(free[i], live[j])
  }

  /** The byte counters wrap like size_t; their difference is the memory in use all the same. */
  ghost predicate Balanced(got: nat, given: nat, inUse: int) {
    && got < WORD && given < WORD
    && (got - given == inUse || got - given + WORD == inUse)
  }

  /** size_t increment */
  function Succ(x: nat): nat { if x + 1 == WORD then 0 else x + 1 }

  class FirstFitAllocator {
    var started: bool  // heap_start is not NULL
    var heapSize: nat
    var mem: Memory
    var freeList: Ptr
    var totalAllocated: nat
    var totalFreed: nat
    var numAllocations: nat
    var numFrees: nat

    ghost var free: seq<Seg>
    ghost var live: seq<Seg>
    ghost var asked: seq<nat>
    // offsets of the headers written by the latest operation
    ghost var touched: set<nat>

    ghost function View(): Heap
      reads this`heapSize, this`free, this`live, this`asked
    {
      Heap(heapSize, free, live, asked)
    }

    ghost predicate Valid()
      reads this`started, this`heapSize, this`mem, this`freeList, this`totalAllocated, this`totalFreed,
            this`free, this`live, this`asked
    {
      && Balanced(totalAllocated, totalFreed, Sum(live))
      && (if started then
            && WellFormed(View())
            && Linked(mem, freeList, free)
            && Detached(mem, live)
          else
            live == [] && asked == [])
    }

    constructor ()
      ensures Valid() && !started
      ensures totalAllocated == totalFreed == numAllocations == numFrees == 0
    {
      started, heapSize, mem, freeList := false, 0, map[], Null;
      totalAllocated, totalFreed, numAllocations, numFrees := 0, 0, 0, 0;
      free, live, asked, touched := [], [], [], {};
    }

    /** `granted` is whether the system's malloc returned a heap. */
    method Init(size: nat, granted: bool)
      requires Valid() && !started && HEADER <= size < WORD
      modifies this
      ensures Valid() && started == granted
      ensures granted ==> View() == Fresh(size)
    {
      heapSize := size;
      if granted {
        started := true;
        mem := Store(mem, 0, Header(size, true, Null));
        freeList := At(0);
        free := [Seg(0, size)];
        FreshWellFormed(size);
      }
    }

    method FindFreeBlock(total: nat) returns (block: Ptr, prev: Ptr)
      requires Linked(mem, freeList, free)
      ensures block == Link(free, FirstFit(free, total))
      ensures block.At? ==>
                var i := FirstFit(free, total);
                prev == if i == 0 then Null else At(free[i - 1].start)
    {
      var current := freeList;
      prev := Null;
      ghost var i := 0;
      while current.At?
        invariant i <= |free| && current == Link(free, i)
        invariant prev == if i == 0 then Null else At(free[i - 1].start)
        invariant FirstFit(free, total) == i + FirstFit(free[i..], total)
        decreases |free| - i
      {
        assert Node(mem, free, i);
        if mem[current.off].isFree && mem[current.off].size >= total {
          return current, prev;
        }
        assert free[i..][1..] == free[i + 1..];
        prev := current;
        current := mem[current.off].next;
        i := i + 1;
      }
      block := Null;
    }

    method CoalesceList()
      requires Linked(mem, freeList, free) && Detached(mem, live) && Separate(free, live)
      requires AllSpare(touched, live)
      modifies this`mem, this`free, this`touched
      ensures free == Coalesce(old(free))
      ensures Linked(mem, freeList, free) && Detached(mem, live)
      ensures AllSpare(touched, live)
    {
      var current := freeList;
      ghost var i := 0;
      ghost var pass := Coalesce(free);
      assert free[0..] == free;
      while current.At? && mem[current.off].next.At?
        invariant i <= |free| && current == Link(free, i)
        invariant Linked(mem, freeList, free) && Detached(mem, live) && Separate(free, live)
        invariant pass == free[..i] + Coalesce(free[i..])
        invariant AllSpare(touched, live)
        invariant i < |free| ==> Node(mem, free, i)
        decreases |free| - i
      {
        var next := mem[current.off].next.off;
        assert Node(mem, free, i + 1);
        if current.off + mem[current.off].size == next && mem[current.off].isFree && mem[next].isFree {
          MergeNext(current.off, next, i);
        } else {
          AdvanceCoalesce(free, i);
          current := mem[current.off].next;
          i := i + 1;
        }
      }
      CoalesceEnds(free, i);
    }

    method MergeNext(b: nat, next: nat, ghost i: nat)
      requires Linked(mem, freeList, free) && Detached(mem, live) && Separate(free, live)
      requires AllSpare(touched, live)
      requires i + 1 < |free| && b == free[i].start && next == free[i + 1].start == free[i].End()
      modifies this`mem, this`free, this`touched
      ensures free == Merge(old(free), i)
      ensures Linked(mem, freeList, free) && Detached(mem, live) && Separate(free, live)
      ensures AllSpare(touched, live)
      ensures free[..i] + Coalesce(free[i..]) == old(free)[..i] + Coalesce(old(free)[i..])
    {
      MergeStored(mem, freeList, free, live, i);
      MergeCoalesce(free, i);
      mem := Store(mem, b, Header(mem[b].size + mem[next].size, true, mem[next].next));
      free := Merge(free, i);
      touched := touched + {b};
    }

    /** Returns the payload's offset, or Null when the request is refused. */
    method Malloc(n: nat) returns (p: Ptr)
      requires Valid() && n < WORD
      requires started ==> SafeRequest(View(), n)
      modifies this
      ensures Valid() && started == old(started) && heapSize == old(heapSize)
      ensures View() == if started then HeapModel.Malloc(old(View()), n) else old(View())
      ensures p == if |live| > |old(live)| then At(live[|old(live)|].start + HEADER) else Null
      ensures AllSpare(touched, live)
      ensures numAllocations == if p.At? then Succ(old(numAllocations)) else old(numAllocations)
    {
      touched := {};
      if n == 0 || !started {
        return Null;
      }
      var total := TotalSize(n);
      if total > heapSize {
        return Null;
      }
      MallocReady(View(), n);
      p := Grant(n, total);
    }

    method Grant(n: nat, total: nat) returns (p: Ptr)
      requires Linked(mem, freeList, free) && Detached(mem, live) && Separate(free, live)
      requires FirstFit(free, total) < |free| ==> HEADER <= total && total % 8 == 0 && Splittable(free, total)
      requires Balanced(totalAllocated, totalFreed, Sum(live))
      requires Sum(free) + Sum(live) < WORD && touched == {}
      modifies this`mem, this`free, this`live, this`asked, this`freeList, this`touched,
               this`totalAllocated, this`numAllocations
      ensures View() == HeapModel.Grant(old(View()), n, total)
      ensures Linked(mem, freeList, free) && Detached(mem, live)
      ensures Balanced(totalAllocated, totalFreed, Sum(live))
      ensures p == if |live| > |old(live)| then At(live[|old(live)|].start + HEADER) else Null
      ensures AllSpare(touched, live)
      ensures numAllocations == if p.At? then Succ(old(numAllocations)) else old(numAllocations)
    {
      var block, prev := FindFreeBlock(total);
      if block == Null {
        return Null;
      }
      HandOut(n, total, block.off, prev, FirstFit(free, total));
      return At(block.off + HEADER);
    }

    method HandOut(n: nat, total: nat, b: nat, prev: Ptr, ghost i: nat)
      requires Linked(mem, freeList, free) && Detached(mem, live) && Separate(free, live)
      requires i < |free| && HEADER <= total && total % 8 == 0
      requires free[i].len == total || free[i].len >= total + HEADER
      requires b == free[i].start && prev == (if i == 0 then Null else At(free[i - 1].start))
      requires Balanced(totalAllocated, totalFreed, Sum(live))
      requires Sum(free) + Sum(live) < WORD && touched == {}
      modifies this`mem, this`free, this`live, this`asked, this`freeList, this`touched,
               this`totalAllocated, this`numAllocations
      ensures free == Carve(old(free), i, total)
      ensures live == old(live) + [Seg(b, total)] && asked == old(asked) + [n]
      ensures Linked(mem, freeList, free) && Detached(mem, live)
      ensures Balanced(totalAllocated, totalFreed, Sum(live))
      ensures AllSpare(touched, live)
      ensures numAllocations == Succ(old(numAllocations))
    {
      CarveBytes(free, i, total, 0);
      Concat(live, [Seg(b, total)], 0);
      TakeBlock(b, prev, total, i);
      asked := asked + [n];
      RecordAllocation(total);
    }

    method RecordAllocation(total: nat)
      requires Balanced(totalAllocated, totalFreed, Sum(live) - total) && total <= Sum(live) < WORD
      modifies this`totalAllocated, this`numAllocations
      ensures Balanced(totalAllocated, totalFreed, Sum(live))
      ensures numAllocations == Succ(old(numAllocations))
    {
      totalAllocated := (totalAllocated + total) % WORD;
      numAllocations := Succ(numAllocations);
    }

    /** Split the free block at `b` if it is larger than needed, then take it off the free list. */
    method TakeBlock(b: nat, prev: Ptr, total: nat, ghost i: nat)
      requires Linked(mem, freeList, free) && Detached(mem, live) && Separate(free, live)
      requires i < |free| && HEADER <= total && total % 8 == 0
      requires free[i].len == total || free[i].len >= total + HEADER
      requires b == free[i].start && prev == (if i == 0 then Null else At(free[i - 1].start))
      requires touched == {}
      modifies this`mem, this`free, this`live, this`freeList, this`touched
      ensures free == Carve(old(free), i, total)
      ensures live == old(live) + [Seg(b, total)]
      ensures Linked(mem, freeList, free) && Detached(mem, live)
      ensures AllSpare(touched, live)
    {
      SplitThenRemove(free, i, total);
      assert Node(mem, free, i);
      if mem[b].size > total {
        SplitBlock(b, total, i);
      }
      UnlinkBlock(b, prev, i);
    }

    /** `p` is NULL or the payload of live block `k`. */
    method Free(p: Ptr, ghost k: nat)
      requires Valid()
      requires p.At? ==> started && k < |live| && p.off == live[k].start + HEADER
      modifies this
      ensures Valid() && started == old(started) && heapSize == old(heapSize)
      ensures View() == if p.At? then HeapModel.Free(old(View()), k) else old(View())
      ensures numFrees == if p.At? then Succ(old(numFrees)) else old(numFrees)
      ensures AllSpare(touched, live)
    {
      touched := {};
      if p == Null {
        return;
      }
      FreeReady(View(), k);
      Reclaim(p.off - HEADER, k);
    }

    method Reclaim(b: nat, ghost k: nat)
      requires Linked(mem, freeList, free) && Detached(mem, live) && Separate(free, live)
      requires |asked| == |live| && k < |live| && b == live[k].start && touched == {}
      requires Balanced(totalAllocated, totalFreed, Sum(live)) && Sum(live) < WORD
      requires 0 < live[k].len <= heapSize
      modifies this`mem, this`free, this`live, this`asked, this`freeList, this`touched,
               this`totalFreed, this`numFrees
      ensures View() == HeapModel.Free(old(View()), k)
      ensures Linked(mem, freeList, free) && Detached(mem, live)
      ensures Balanced(totalAllocated, totalFreed, Sum(live))
      ensures AllSpare(touched, live)
      ensures numFrees == Succ(old(numFrees))
    {
      var corrupted := mem[b].size == 0 || mem[b].size > heapSize;
      assert !corrupted;
      if !corrupted {
        Remove(live, k, 0);
        PushBlock(b, k);
        RecordFree(mem[b].size);
        CoalesceList();
      }
    }

    method RecordFree(size: nat)
      requires Balanced(totalAllocated, totalFreed, Sum(live) + size) && Sum(live) + size < WORD
      modifies this`totalFreed, this`numFrees
      ensures Balanced(totalAllocated, totalFreed, Sum(live))
      ensures numFrees == Succ(old(numFrees))
    {
      totalFreed := (totalFreed + size) % WORD;
      numFrees := Succ(numFrees);
    }

    /** What allocator_stats reports: the counters and a walk over the free list. */
    method Stats() returns (netInUse: nat, freeBlocks: nat, freeSize: nat)
      requires Valid() && started
      ensures freeBlocks == |free| && freeSize == Sum(free)
      ensures netInUse == Sum(live)
      ensures netInUse + freeSize == heapSize
    {
      netInUse := (totalAllocated - totalFreed) % WORD;
      freeBlocks, freeSize := 0, 0;
      var current := freeList;
      while current.At?
        invariant freeBlocks <= |free| && current == Link(free, freeBlocks)
        invariant freeSize + Sum(free[freeBlocks..]) == Sum(free)
        decreases |free| - freeBlocks
      {
        assert Node(mem, free, freeBlocks);
        assert free[freeBlocks..][1..] == free[freeBlocks + 1..];
        freeSize := freeSize + mem[current.off].size;
        current := mem[current.off].next;
        freeBlocks := freeBlocks + 1;
      }
    }

    /** Cut the block at `b` in two; both halves stay in the list, one behind the other. */
    method SplitBlock(b: nat, total: nat, ghost i: nat)
      requires Linked(mem, freeList, free) && Detached(mem, live) && Separate(free, live)
      requires touched == {}
      requires i < |free| && b == free[i].start && HEADER <= total && total % 8 == 0
      requires free[i].len >= total + HEADER
      modifies this`mem, this`free, this`touched
      ensures free == Split(old(free), i, total)
      ensures Linked(mem, freeList, free) && Detached(mem, live) && Separate(free, live)
      ensures AllSpare(touched, live + [free[i]])
    {
      assert Node(mem, free, i);
      var split := b + total;
      var tail := Header(mem[b].size - total, true, mem[b].next);
      StoreInside(mem, freeList, free, live, i, split, tail);
      mem := Store(mem, split, tail);
      assert Node(mem, free, i);
      var front := Header(total, mem[b].isFree, At(split));
      SplitLinked(mem, freeList, free, i, total);
      StoreDetached(mem, free[i], front, live);
      mem := Store(mem, b, front);
      SplitSeparate(free, live, i, total);
      SplitSpares(free, live, i, total);
      touched := {b, split};
      free := Split(free, i, total);
    }

    /** Mark the block at `b` allocated and take it out of the free list. */
    method UnlinkBlock(b: nat, prev: Ptr, ghost i: nat)
      requires Linked(mem, freeList, free) && Detached(mem, live) && Separate(free, live)
      requires i < |free| && b == free[i].start
      requires AllSpare(touched, live + [free[i]])
      requires prev == if i == 0 then Null else At(free[i - 1].start)
      modifies this`mem, this`free, this`live, this`freeList, this`touched
      ensures free == old(free)[..i] + old(free)[i + 1..]
      ensures live == old(live) + [old(free)[i]]
      ensures Linked(mem, freeList, free) && Detached(mem, live) && Separate(free, live)
      ensures AllSpare(touched, live)
    {
      UnlinkSeparate(free, live, i);
      UnlinkSpares(free, live, i, i);
      ghost var free' := free[..i] + free[i + 1..];
      Bypass(b, prev, i);
      StoreOther(mem, free[i], Header(free[i].len, false, Null), freeList, free', live);
      mem := Store(mem, b, mem[b].(next := Null));
      touched := touched + {b};
      free, live := free', live + [free[i]];
    }

    method Bypass(b: nat, prev: Ptr, ghost i: nat)
      requires Linked(mem, freeList, free) && Detached(mem, live) && Separate(free, live)
      requires i < |free| && b == free[i].start
      requires AllSpare(touched, live + [free[i]])
      requires prev == if i == 0 then Null else At(free[i - 1].start)
      modifies this`mem, this`freeList, this`touched
      ensures Linked(mem, freeList, free[..i] + free[i + 1..]) && Detached(mem, live)
      ensures b in mem && mem[b] == Header(free[i].len, false, Link(free, i + 1))
      ensures AllSpare(touched, live + [free[i]])
    {
      assert Node(mem, free, i);
      MarkAllocated(mem, freeList, free, live, i);
      mem := Store(mem, b, mem[b].(isFree := false));
      if prev.At? {
        UnlinkSpares(free, live, i, i - 1);
        BypassLinked(mem, freeList, free, live, i);
        mem := Store(mem, prev.off, mem[prev.off].(next := mem[b].next));
        touched := touched + {prev.off};
      } else {
        freeList := mem[b].next;
        DropHeadLinked(mem, free);
      }
    }

    /** Mark live block `k` free and put it in front of the free list. */
    method PushBlock(b: nat, ghost k: nat)
      requires Linked(mem, freeList, free) && Detached(mem, live) && Separate(free, live)
      requires |asked| == |live| && k < |live| && b == live[k].start && touched == {}
      modifies this`mem, this`free, this`live, this`asked, this`freeList, this`touched
      ensures free == [old(live)[k]] + old(free)
      ensures live == old(live)[..k] + old(live)[k + 1..]
      ensures asked == old(asked)[..k] + old(asked)[k + 1..]
      ensures Linked(mem, freeList, free) && Detached(mem, live) && Separate(free, live)
      ensures b in mem && mem[b].size == old(live)[k].len
      ensures AllSpare(touched, live)
    {
      ghost var rest := live[..k] + live[k + 1..];
      PushSeparate(free, live, k);
      assert Detached(mem, rest);
      StoreOther(mem, live[k], mem[b].(isFree := true), freeList, free, rest);
      mem := Store(mem, b, mem[b].(isFree := true));
      StoreOther(mem, live[k], mem[b].(next := freeList), freeList, free, rest);
      mem := Store(mem, b, mem[b].(next := freeList));
      PushLinked(mem, freeList, free, live[k]);
      freeList := At(b);
      touched := touched + {b};
      free := [live[k]] + free;
      live := rest;
      asked := asked[..k] + asked[k + 1..];
    }
  }

  /** The pointers a caller holds: one per live block, in allocation order. */
  ghost predicate Holds(ptrs: seq<Ptr>, live: seq<Seg>) {
    |ptrs| == |live| && forall j :: 0 <= j < |ptrs| ==> ptrs[j] == At(live[j].start + HEADER)
  }

  lemma HoldsDrop(ptrs: seq<Ptr>, live: seq<Seg>, k: nat)
    requires Holds(ptrs, live) && k < |live|
    ensures Holds(ptrs[..k] + ptrs[k + 1..], live[..k] + live[k + 1..])
  {
  }

  method Perform(a: FirstFitAllocator, op: Runs.Op, ptrs: seq<Ptr>) returns (ptrs': seq<Ptr>)
    requires a.Valid() && a.started && Runs.Allowed(a.View(), op) && Holds(ptrs, a.live)
    modifies a
    ensures a.Valid() && a.started
    ensures a.View() == Runs.Step(old(a.View()), op)
    ensures Holds(ptrs', a.live)
  {
    match op {
      case Request(n) =>
        var p := a.Malloc(n);
        ptrs' := if p.At? then ptrs + [p] else ptrs;
      case Release(k) =>
        HoldsDrop(ptrs, a.live, k);
        a.Free(ptrs[k], k);
        ptrs' := ptrs[..k] + ptrs[k + 1..];
    }
  }

  /** Driving the allocator through any safe run leaves it as HeapRuns says the run ends. */
  method Replay(size: nat, ops: seq<Runs.Op>) returns (a: FirstFitAllocator, ptrs: seq<Ptr>)
    requires HEADER <= size < WORD && Runs.SafeRun(Fresh(size), ops)
    ensures fresh(a) && a.Valid() && a.started
    ensures a.View() == Runs.Run(Fresh(size), ops)
    ensures Holds(ptrs, a.live)
  {
    a := new FirstFitAllocator();
    a.Init(size, true);
    ptrs := [];
    assert ops[0..] == ops;
    for i := 0 to |ops|
      invariant fresh(a) && a.Valid() && a.started && Holds(ptrs, a.live)
      invariant Runs.SafeRun(a.View(), ops[i..])
      invariant Runs.Run(a.View(), ops[i..]) == Runs.Run(Fresh(size), ops)
    {
      assert ops[i..][0] == ops[i] && ops[i..][1..] == ops[i + 1..];
      ptrs := Perform(a, ops[i], ptrs);
    }
  }

  lemma WellFormedSeparate(h: Heap)
    requires WellFormed(h)
    ensures Separate(h.free, h.live)
  {
    BlocksDisjoint(h);
  }

  lemma MallocReady(h: Heap, n: nat)
    requires WellFormed(h) && 0 < n < WORD && TotalSize(n) <= h.size && SafeRequest(h, n)
    ensures Separate(h.free, h.live)
    ensures WellFormed(HeapModel.Malloc(h, n))
    ensures HeapModel.Malloc(h, n) == HeapModel.Grant(h, n, TotalSize(n))
    ensures var total := TotalSize(n);
            FirstFit(h.free, total) < |h.free| ==>
              HEADER <= total && total % 8 == 0 && Splittable(h.free, total)
  {
    TotalSizeExact(n);
    MallocKeepsIff(h, n);
    WellFormedSeparate(h);
  }

  lemma FreeReady(h: Heap, k: nat)
    requires WellFormed(h) && k < |h.live|
    ensures Separate(h.free, h.live)
    ensures WellFormed(HeapModel.Free(h, k))
    ensures HEADER <= h.live[k].len <= h.size
  {
    WellFormedSeparate(h);
    FreeKeeps(h, k);
    BlocksDisjoint(h);
    assert Usable(h.live[k]) && h.live[k].End() <= h.size;
  }

  /** A header written at `w` touches no byte that a caller owns. */
  ghost predicate Spares(w: nat, live: seq<Seg>) {
    forall j :: 0 <= j < |live| ==>
      live[j].len >= HEADER && Disjoint(Seg(w, HEADER), Payload(live[j]))
  }

  ghost predicate AllSpare(written: set<nat>, live: seq<Seg>) {
    forall w :: w in written ==> Spares(w, live)
  }

  lemma HeaderSpares(s: Seg, live: seq<Seg>)
    requires Usable(s) && AllUsable(live) && forall j :: 0 <= j < |live| ==> Disjoint(s, live[j])
    ensures Spares(s.start, live)
  {
  }

  /** List entry `i` absorbs its successor. */
  ghost function Merge(free: seq<Seg>, i: nat): seq<Seg>
    requires i + 1 < |free|
  {
    free[..i] + [Seg(free[i].start, free[i].len + free[i + 1].len)] + free[i + 2..]
  }

  lemma MergeSeparate(free: seq<Seg>, live: seq<Seg>, i: nat)
    requires Separate(free, live) && i + 1 < |free| && free[i].End() == free[i + 1].start
    ensures Separate(Merge(free, i), live)
  {
  }

  lemma StoreApart(m: Memory, s: Seg, h: Header, t: Seg)
    requires Usable(s) && Usable(t) && Disjoint(s, t) && t.start in m
    ensures t.start in Store(m, s.start, h) && Store(m, s.start, h)[t.start] == m[t.start]
  {
  }

  lemma MergeLinked(m: Memory, head: Ptr, free: seq<Seg>, i: nat)
    requires Linked(m, head, free) && AllUsable(free) && PairwiseDisjoint(free)
    requires i + 1 < |free| && free[i].End() == free[i + 1].start
    ensures Linked(Store(m, free[i].start, Header(free[i].len + free[i + 1].len, true, Link(free, i + 2))),
                   head, Merge(free, i))
  {
    var m' := Store(m, free[i].start, Header(free[i].len + free[i + 1].len, true, Link(free, i + 2)));
    var free' := Merge(free, i);
    forall j | 0 <= j < |free'|
      ensures Node(m', free', j)
    {
      var k := if j <= i then j else j + 1;
      assert Node(m, free, k) && Node(m, free, i) && Node(m, free, i + 1);
      assert free'[j].start == free[k].start;
      assert Usable(free[k]) && Usable(free[i]);
      assert k < i ==> Disjoint(free[k], free[i]);
      assert i < k ==> Disjoint(free[i], free[k]);
      assert Link(free', j + 1) == if j == i then Link(free, i + 2) else Link(free, k + 1);
    }
  }

  /** Storing a header into a block leaves the headers of blocks disjoint from it alone. */
  lemma StoreDetached(m: Memory, s: Seg, h: Header, live: seq<Seg>)
    requires Detached(m, live) && AllUsable(live) && Usable(s)
    requires forall j :: 0 <= j < |live| ==> Disjoint(s, live[j])
    ensures Detached(Store(m, s.start, h), live)
  {
  }

  /** The header that a merging iteration writes, and what it leaves. */
  lemma MergeStored(m: Memory, head: Ptr, free: seq<Seg>, live: seq<Seg>, i: nat)
    requires Linked(m, head, free) && Detached(m, live) && Separate(free, live)
    requires i + 1 < |free| && free[i].End() == free[i + 1].start
    ensures var b, next := free[i].start, free[i + 1].start;
            && b in m && next in m
            && var m' := Store(m, b, Header(m[b].size + m[next].size, true, m[next].next));
               Linked(m', head, Merge(free, i)) && Detached(m', live)
    ensures Separate(Merge(free, i), live) && Spares(free[i].start, live)
  {
    assert Node(m, free, i) && Node(m, free, i + 1);
    MergeSeparate(free, live, i);
    MergeLinked(m, head, free, i);
    StoreDetached(m, free[i], Header(free[i].len + free[i + 1].len, true, Link(free, i + 2)), live);
    HeaderSpares(free[i], live);
  }

  /** What a merging iteration and an advancing iteration leave of the pass still to be made. */
  lemma MergeCoalesce(free: seq<Seg>, i: nat)
    requires i + 1 < |free| && free[i].End() == free[i + 1].start
    ensures Merge(free, i)[..i] + Coalesce(Merge(free, i)[i..]) == free[..i] + Coalesce(free[i..])
  {
    var free', t := Merge(free, i), free[i..];
    assert free'[i..] == [Seg(t[0].start, t[0].len + t[1].len)] + t[2..];
    assert free'[..i] == free[..i];
  }

  lemma CoalesceEnds(free: seq<Seg>, i: nat)
    requires |free| - 1 <= i <= |free|
    ensures free[..i] + Coalesce(free[i..]) == free
  {
    assert free == free[..i] + free[i..];
  }

  lemma AdvanceCoalesce(free: seq<Seg>, i: nat)
    requires i + 1 < |free| && free[i].End() != free[i + 1].start
    ensures free[..i + 1] + Coalesce(free[i + 1..]) == free[..i] + Coalesce(free[i..])
  {
  }

  /** List entry `i` cut into its first `total` bytes and the rest. */
  ghost function Split(free: seq<Seg>, i: nat, total: nat): seq<Seg>
    requires i < |free| && total <= free[i].len
  {
    free[..i] + [Seg(free[i].start, total), Seg(free[i].start + total, free[i].len - total)] + free[i + 1..]
  }

  lemma SplitSeparate(free: seq<Seg>, live: seq<Seg>, i: nat, total: nat)
    requires Separate(free, live)
    requires i < |free| && HEADER <= total && total % 8 == 0 && free[i].len >= total + HEADER
    ensures Separate(Split(free, i, total), live)
  {
  }

  lemma SplitAt(free: seq<Seg>, i: nat, total: nat, j: nat)
    requires i < |free| && total <= free[i].len && j <= |free| + 1
    ensures var free' := Split(free, i, total);
            && (j <= |free| ==>
                  free'[j] == if j < i then free[j]
                              else if j == i then Seg(free[i].start, total)
                              else if j == i + 1 then Seg(free[i].start + total, free[i].len - total)
                              else free[j - 1])
            && Link(free', j) == if j <= i then Link(free, j)
                                 else if j == i + 1 then At(free[i].start + total)
                                 else Link(free, j - 1)
  {
  }

  /** A store into a free block behind its header disturbs no header. */
  lemma StoreInside(m: Memory, head: Ptr, free: seq<Seg>, live: seq<Seg>, i: nat, o: nat, h: Header)
    requires Linked(m, head, free) && Detached(m, live) && Separate(free, live)
    requires i < |free| && free[i].start + HEADER <= o && o + HEADER <= free[i].End()
    ensures Linked(Store(m, o, h), head, free)
    ensures Detached(Store(m, o, h), live)
  {
    var m' := Store(m, o, h);
    forall j | 0 <= j < |free| ensures Node(m', free, j) {
      assert Node(m, free, j) && Usable(free[j]);
      assert j < i ==> Disjoint(free[j], free[i]);
      assert i < j ==> Disjoint(free[i], free[j]);
    }
    forall j | 0 <= j < |live| ensures live[j].start in m' && m'[live[j].start] == m[live[j].start] {
      assert Usable(live[j]) && Disjoint(free[i], live[j]);
    }
  }

  /** A store into a block disjoint from all others disturbs none of their headers. */
  lemma StoreOther(m: Memory, s: Seg, h: Header, head: Ptr, free: seq<Seg>, live: seq<Seg>)
    requires Linked(m, head, free) && Detached(m, live) && AllUsable(free) && AllUsable(live)
    requires Usable(s)
    requires forall j :: 0 <= j < |free| ==> Disjoint(s, free[j])
    requires forall j :: 0 <= j < |live| ==> Disjoint(s, live[j])
    ensures Linked(Store(m, s.start, h), head, free)
    ensures Detached(Store(m, s.start, h), live)
  {
    var m' := Store(m, s.start, h);
    forall j | 0 <= j < |free| ensures Node(m', free, j) {
      assert Node(m, free, j) && Usable(free[j]) && Disjoint(s, free[j]);
    }
    StoreDetached(m, s, h, live);
  }

  lemma SplitLinked(m: Memory, head: Ptr, free: seq<Seg>, i: nat, total: nat)
    requires Linked(m, head, free) && AllUsable(free) && PairwiseDisjoint(free)
    requires i < |free| && HEADER <= total && free[i].len >= total + HEADER
    requires free[i].start + total in m
    requires m[free[i].start + total] == Header(free[i].len - total, true, Link(free, i + 1))
    ensures Linked(Store(m, free[i].start, Header(total, true, At(free[i].start + total))), head,
                   Split(free, i, total))
  {
    var free' := Split(free, i, total);
    var h := Header(total, true, At(free[i].start + total));
    var m' := Store(m, free[i].start, h);
    SplitAt(free, i, total, 0);
    forall j | 0 <= j < |free'|
      ensures Node(m', free', j)
    {
      SplitAt(free, i, total, j);
      SplitAt(free, i, total, j + 1);
      if j < i {
        assert Node(m, free, j);
        StoreApart(m, free[i], h, free[j]);
      } else if j > i + 1 {
        assert Node(m, free, j - 1);
        StoreApart(m, free[i], h, free[j - 1]);
      }
    }
  }

  lemma SplitSpares(free: seq<Seg>, live: seq<Seg>, i: nat, total: nat)
    requires Separate(free, live)
    requires i < |free| && HEADER <= total && total % 8 == 0 && free[i].len >= total + HEADER
    ensures var b := free[i].start;
            AllSpare({b, b + total}, live + [Seg(b, total)]) && Split(free, i, total)[i] == Seg(b, total)
  {
  }

  lemma SplitThenRemove(free: seq<Seg>, i: nat, total: nat)
    requires i < |free| && total <= free[i].len
    ensures var t := if free[i].len > total then Split(free, i, total) else free;
            t[..i] + t[i + 1..] == Carve(free, i, total) && t[i] == Seg(free[i].start, total)
  {
  }

  lemma UnlinkSeparate(free: seq<Seg>, live: seq<Seg>, i: nat)
    requires Separate(free, live) && i < |free|
    ensures var free' := free[..i] + free[i + 1..];
            && Separate(free', live + [free[i]])
            && forall j :: 0 <= j < |free'| ==> Disjoint(free[i], free'[j])
  {
  }

  /** Entry `i` is about to become live: a header at any entry `j` spares its payload too. */
  lemma UnlinkSpares(free: seq<Seg>, live: seq<Seg>, i: nat, j: nat)
    requires Separate(free, live) && i < |free| && j < |free|
    ensures Spares(free[j].start, live + [free[i]])
  {
  }

  /** The list `free` with every entry but `i` linked as it was. */
  ghost predicate LinkedBut(m: Memory, free: seq<Seg>, i: nat) {
    forall j :: 0 <= j < |free| && j != i ==> Node(m, free, j)
  }

  lemma MarkAllocated(m: Memory, head: Ptr, free: seq<Seg>, live: seq<Seg>, i: nat)
    requires Linked(m, head, free) && Detached(m, live) && Separate(free, live) && i < |free|
    ensures var m' := Store(m, free[i].start, Header(free[i].len, false, Link(free, i + 1)));
            LinkedBut(m', free, i) && Detached(m', live)
  {
    var h := Header(free[i].len, false, Link(free, i + 1));
    var m' := Store(m, free[i].start, h);
    StoreDetached(m, free[i], h, live);
    forall j | 0 <= j < |free| && j != i
      ensures Node(m', free, j)
    {
      assert Node(m, free, j) && Usable(free[j]) && Usable(free[i]);
      assert j < i ==> Disjoint(free[j], free[i]);
      assert i < j ==> Disjoint(free[i], free[j]);
    }
  }

  /** Pointing the predecessor past entry `i` leaves the list without it. */
  lemma BypassLinked(m: Memory, head: Ptr, free: seq<Seg>, live: seq<Seg>, i: nat)
    requires LinkedBut(m, free, i) && Detached(m, live) && Separate(free, live) && 0 < i < |free|
    requires head == Link(free, 0)
    requires free[i].start in m && m[free[i].start] == Header(free[i].len, false, Link(free, i + 1))
    ensures var p := free[i - 1].start;
            var m' := Store(m, p, Header(free[i - 1].len, true, Link(free, i + 1)));
            && p in m && m[p] == Header(free[i - 1].len, true, Link(free, i))
            && Linked(m', head, free[..i] + free[i + 1..]) && Detached(m', live)
            && free[i].start in m' && m'[free[i].start] == m[free[i].start]
  {
    var h := Header(free[i - 1].len, true, Link(free, i + 1));
    var m', free' := Store(m, free[i - 1].start, h), free[..i] + free[i + 1..];
    StoreDetached(m, free[i - 1], h, live);
    assert Node(m, free, i - 1);
    assert Disjoint(free[i - 1], free[i]) && Usable(free[i - 1]) && Usable(free[i]);
    forall j | 0 <= j < |free'|
      ensures Node(m', free', j)
    {
      if j < i - 1 {
        assert Node(m, free, j);
        StoreApart(m, free[i - 1], h, free[j]);
        assert free'[j] == free[j] && Link(free', j + 1) == Link(free, j + 1);
      } else if j == i - 1 {
        assert free'[j] == free[j] && Link(free', j + 1) == Link(free, i + 1);
      } else {
        assert Node(m, free, j + 1);
        StoreApart(m, free[i - 1], h, free[j + 1]);
        assert free'[j] == free[j + 1] && Link(free', j + 1) == Link(free, j + 2);
      }
    }
  }

  lemma DropHeadLinked(m: Memory, free: seq<Seg>)
    requires LinkedBut(m, free, 0) && free != []
    ensures Linked(m, Link(free, 1), free[..0] + free[1..])
  {
    var free' := free[..0] + free[1..];
    forall j | 0 <= j < |free'|
      ensures Node(m, free', j)
    {
      assert Node(m, free, j + 1);
      assert free'[j] == free[j + 1] && Link(free', j + 1) == Link(free, j + 2);
    }
  }

  lemma PushLinked(m: Memory, head: Ptr, free: seq<Seg>, s: Seg)
    requires Linked(m, head, free) && s.start in m && m[s.start] == Header(s.len, true, head)
    ensures Linked(m, At(s.start), [s] + free)
  {
    var free' := [s] + free;
    forall j | 0 <= j < |free'| ensures Node(m, free', j) {
      if j > 0 {
        assert Node(m, free, j - 1) && free'[j] == free[j - 1] && Link(free', j + 1) == Link(free, j);
      }
    }
  }

  lemma PushSeparate(free: seq<Seg>, live: seq<Seg>, k: nat)
    requires Separate(free, live) && k < |live|
    ensures var rest := live[..k] + live[k + 1..];
            && Separate([live[k]] + free, rest)
            && Spares(live[k].start, rest)
            && (forall j :: 0 <= j < |free| ==> Disjoint(live[k], free[j]))
            && (forall j :: 0 <= j < |rest| ==> Disjoint(live[k], rest[j]))
  {
  }
}
