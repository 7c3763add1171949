/**
 Whole runs of the allocator: what every sequence of allocations and releases keeps, when the
 splits of a run are safe, and how the order of releases decides fragmentation.
 */
module HeapRuns {
  import opened HeapModel

  /** `Release(k)` frees the payload of the k-th oldest live block. */
  datatype Op = Request(n: nat) | Release(k: nat)

  predicate Allowed(h: Heap, op: Op) {
    match op
    case Request(n) => n < WORD && SafeRequest(h, n)
    case Release(k) => k < |h.live| == |h.asked|
  }

  function Step(h: Heap, op: Op): Heap
    requires Allowed(h, op)
  {
    match op
    case Request(n) => Malloc(h, n)
    case Release(k) => Free(h, k)
  }

  ghost predicate SafeRun(h: Heap, ops: seq<Op>)
    decreases |ops|
  {
    ops == [] || (Allowed(h, ops[0]) && SafeRun(Step(h, ops[0]), ops[1..]))
  }

  ghost function Run(h: Heap, ops: seq<Op>): Heap
    requires SafeRun(h, ops)
    decreases |ops|
  {
    if ops == [] then h else Run(Step(h, ops[0]), ops[1..])
  }

  /** Every run of safe operations keeps the tiling, the free list and the live payloads. */
  lemma {:induction false} RunKeepsWellFormed(h: Heap, ops: seq<Op>)
    requires WellFormed(h) && SafeRun(h, ops)
    ensures WellFormed(Run(h, ops))
    ensures Run(h, ops).size == h.size
    decreases |ops|
  {
    if ops != [] {
      match ops[0] {
        case Request(n) => MallocKeepsIff(h, n);
        case Release(k) => FreeKeeps(h, k);
      }
      RunKeepsWellFormed(Step(h, ops[0]), ops[1..]);
    }
  }

  // ---------------------------------------------------------------- granules make runs safe

  ghost predicate Granular(h: Heap, g: nat)
    requires g > 0
  {
    && (forall i :: 0 <= i < |h.free| ==> h.free[i].start % g == 0 && h.free[i].len % g == 0)
    && (forall i :: 0 <= i < |h.live| ==> h.live[i].start % g == 0 && h.live[i].len % g == 0)
  }

  /** The caller's side of the bargain, with no reference to the state of the heap's blocks. */
  predicate GranularOp(h: Heap, op: Op, g: nat)
    requires g > 0
  {
    match op
    case Request(n) => n <= WORD - 32 && TotalSize(n) % g == 0
    case Release(k) => k < |h.live| == |h.asked|
  }

  ghost predicate GranularRun(h: Heap, ops: seq<Op>, g: nat)
    requires g > 0
    decreases |ops|
  {
    || ops == []
    || (&& GranularOp(h, ops[0], g)
        && match ops[0]
           case Request(n) => GranularRun(Malloc(h, n), ops[1..], g)
           case Release(k) => GranularRun(Free(h, k), ops[1..], g))
  }

  lemma MultiplesAddSub(a: nat, b: nat, g: nat)
    requires g > 0 && a % g == 0 && b % g == 0
    ensures (a + b) % g == 0
    ensures a > b ==> (a - b) % g == 0 && a - b >= g
  {
    var x, y := a / g, b / g;
    assert a == g * x && b == g * y;
    MultipleMod(a + b, x + y, g);
    if a > b {
      MultipleMod(a - b, x - y, g);
    }
  }

  lemma MultipleMod(a: nat, x: int, g: nat)
    requires g > 0 && a == g * x
    ensures a % g == 0
    ensures a > 0 ==> a >= g
  {
    var d := x - a / g;
    assert g * d == a % g;
    ProductBounds(g, d);
    ProductBounds(g, x);
  }

  lemma ProductBounds(g: nat, d: int)
    ensures d >= 1 ==> g * d >= g
    ensures d <= -1 ==> g * d <= -(g as int)
  {
  }

  lemma {:induction false} CoalesceGranular(segs: seq<Seg>, g: nat)
    requires g > 0
    requires forall i :: 0 <= i < |segs| ==> segs[i].start % g == 0 && segs[i].len % g == 0
    ensures forall i :: 0 <= i < |Coalesce(segs)| ==>
              Coalesce(segs)[i].start % g == 0 && Coalesce(segs)[i].len % g == 0
    decreases |segs|
  {
    if |segs| < 2 {
    } else if segs[0].End() == segs[1].start {
      MultiplesAddSub(segs[0].len, segs[1].len, g);
      CoalesceGranular([Seg(segs[0].start, segs[0].len + segs[1].len)] + segs[2..], g);
    } else {
      CoalesceGranular(segs[1..], g);
    }
  }

  lemma MallocGranular(h: Heap, n: nat, g: nat)
    requires g >= HEADER && Granular(h, g) && n <= WORD - 32 && TotalSize(n) % g == 0
    ensures SafeRequest(h, n)
    ensures Granular(Malloc(h, n), g)
  {
    var total, i := TotalSize(n), FirstFit(h.free, TotalSize(n));
    if Serves(h, n, i) {
      var block := h.free[i];
      MultiplesAddSub(block.len, total, g);
      MultiplesAddSub(block.start, total, g);
    }
  }

  /**
   If a granule of at least one header divides the heap and the total size of every request, then
   every split of the run is safe, all blocks stay whole multiples of the granule, and the run
   keeps everything that safe runs keep.
   */
  lemma {:induction false} GranularRunSound(h: Heap, ops: seq<Op>, g: nat)
    requires g >= HEADER && WellFormed(h) && Granular(h, g) && GranularRun(h, ops, g)
    ensures SafeRun(h, ops)
    ensures Granular(Run(h, ops), g)
    ensures WellFormed(Run(h, ops))
    decreases |ops|
  {
    if ops != [] {
      match ops[0] {
        case Request(n) =>
          MallocGranular(h, n, g);
          MallocKeepsIff(h, n);
        case Release(k) =>
          FreeKeeps(h, k);
          CoalesceGranular([h.live[k]] + h.free, g);
      }
      GranularRunSound(Step(h, ops[0]), ops[1..], g);
    }
  }

  /** The same from initialisation, with what it means for payloads and header writes. */
  lemma FreshGranularRunSound(size: nat, ops: seq<Op>, g: nat)
    requires g >= HEADER && 0 < size < WORD && size % g == 0
    requires GranularRun(Fresh(size), ops, g)
    ensures SafeRun(Fresh(size), ops)
    ensures var h := Run(Fresh(size), ops);
            && h.size == size && WellFormed(h) && Granular(h, g)
            && (forall i, j :: 0 <= i < j < |h.live| ==>
                  Disjoint(Payload(h.live[i]), Payload(h.live[j])))
            && (forall w, i :: w in Starts(h) && 0 <= i < |h.live| ==>
                  Disjoint(Seg(w, HEADER), Payload(h.live[i])))
  {
    MultiplesAddSub(size, 0, g);
    FreshWellFormed(size);
    GranularRunSound(Fresh(size), ops, g);
    RunKeepsWellFormed(Fresh(size), ops);
    PayloadsSound(Run(Fresh(size), ops));
  }

  // ---------------------------------------------------------------- malloc undone by free

  /**
   On a coalesced list, allocating and at once releasing restores the free list exactly when the
   request was served from the head of the list.
   */
  lemma MallocFreeRestoresIff(h: Heap, n: nat, i: nat)
    requires WellFormed(h) && NothingToMerge(h.free)
    requires n < WORD && SafeRequest(h, n) && Serves(h, n, i)
    ensures var h' := Free(Malloc(h, n), |h.live|);
            && h'.live == h.live && h'.asked == h.asked && h'.size == h.size
            && (h'.free == h.free <==> i == 0)
  {
    var total, block, m := TotalSize(n), h.free[i], Malloc(h, n);
    assert m.live[|h.live|] == Seg(block.start, total) && m.free == Carve(h.free, i, total);
    if i == 0 {
      CarveUndone(h.free, total);
    } else {
      CoalesceReachesFixpoint([Seg(block.start, total)] + m.free);
      BlocksDisjoint(h);
      assert Disjoint(h.free[0], h.free[i]);
    }
  }

  lemma CarveUndone(free: seq<Seg>, total: nat)
    requires free != [] && total <= free[0].len && NothingToMerge(free)
    ensures Coalesce([Seg(free[0].start, total)] + Carve(free, 0, total)) == free
  {
    var block, pushed := free[0], [Seg(free[0].start, total)] + Carve(free, 0, total);
    if block.len > total {
      assert pushed[0].End() == pushed[1].start;
      assert [Seg(block.start, total + (block.len - total))] + pushed[2..] == free;
    } else {
      assert pushed == free;
    }
    CoalesceIdempotent(free);
  }

  // ---------------------------------------------------------------- last in, first out

  ghost function Top(live: seq<Seg>): nat {
    if live == [] then 0 else live[|live| - 1].End()
  }

  /** The live blocks lie side by side from offset 0; the rest of the heap is one free block. */
  ghost predicate Stacked(h: Heap) {
    && (h.live != [] ==> h.live[0].start == 0)
    && (forall i :: 0 <= i < |h.live| - 1 ==> MeetsNext(h.live, i))
    && Top(h.live) <= h.size
    && h.free == if Top(h.live) == h.size then [] else [Seg(Top(h.live), h.size - Top(h.live))]
  }

  ghost predicate LifoRun(h: Heap, ops: seq<Op>)
    decreases |ops|
  {
    || ops == []
    || (&& Allowed(h, ops[0])
        && (ops[0].Release? ==> ops[0].k == |h.live| - 1)
        && LifoRun(Step(h, ops[0]), ops[1..]))
  }

  lemma StackedEmpty(h: Heap)
    requires Stacked(h) && h.size > 0
    ensures h.live == [] ==> h.free == [Seg(0, h.size)]
  {
  }

  lemma MallocStacked(h: Heap, n: nat)
    requires WellFormed(h) && Stacked(h) && Allowed(h, Request(n))
    ensures Stacked(Malloc(h, n))
  {
    if !Refused(h, n) {
      GrantStacked(h, n, TotalSize(n));
    }
  }

  lemma GrantStacked(h: Heap, n: nat, total: nat)
    requires Stacked(h) && FirstFit(h.free, total) < |h.free|
    ensures Stacked(Grant(h, n, total))
  {
    assert h.free == [h.free[0]];
    PushStacked(h.live, h.free[0], total);
  }

  lemma PushStacked(live: seq<Seg>, rest: Seg, total: nat)
    requires live != [] ==> live[0].start == 0
    requires forall i :: 0 <= i < |live| - 1 ==> MeetsNext(live, i)
    requires rest.start == Top(live) && total <= rest.len
    ensures var live' := live + [Seg(rest.start, total)];
            && live'[0].start == 0
            && (forall i :: 0 <= i < |live'| - 1 ==> MeetsNext(live', i))
            && Top(live') == rest.start + total
    ensures Carve([rest], 0, total) ==
            if rest.len == total then [] else [Seg(rest.start + total, rest.len - total)]
  {
    var live' := live + [Seg(rest.start, total)];
    forall i | 0 <= i < |live'| - 1 ensures MeetsNext(live', i) {
      if i < |live| - 1 {
        assert MeetsNext(live, i);
      }
    }
  }

  lemma PopStacked(h: Heap)
    requires WellFormed(h) && Stacked(h) && h.live != []
    ensures Stacked(Free(h, |h.live| - 1))
  {
    var k := |h.live| - 1;
    var h', b := Free(h, k), h.live[k];
    assert h'.live == h.live[..k];
    if k > 0 {
      assert MeetsNext(h.live, k - 1);
    }
    forall i | 0 <= i < |h'.live| - 1 ensures MeetsNext(h'.live, i) {
      assert MeetsNext(h.live, i);
    }
    assert Top(h'.live) == b.start;
    if h.free != [] {
      MergePair(b, h.free[0]);
      assert [b] + h.free == [b, h.free[0]];
    } else {
      assert [b] + h.free == [b];
    }
  }

  lemma MergePair(s: Seg, t: Seg)
    requires s.End() == t.start
    ensures Coalesce([s, t]) == [Seg(s.start, s.len + t.len)]
  {
  }

  /** Releasing in last-allocated-first order never fragments the heap, whatever the sizes. */
  lemma {:induction false} LifoNeverFragments(h: Heap, ops: seq<Op>)
    requires WellFormed(h) && Stacked(h) && LifoRun(h, ops)
    ensures SafeRun(h, ops)
    ensures Stacked(Run(h, ops)) && |Run(h, ops).free| <= 1
    decreases |ops|
  {
    if ops != [] {
      match ops[0] {
        case Request(n) =>
          MallocKeepsIff(h, n);
          MallocStacked(h, n);
        case Release(k) =>
          FreeKeeps(h, k);
          PopStacked(h);
      }
      LifoNeverFragments(Step(h, ops[0]), ops[1..]);
    }
  }

  // ---------------------------------------------------------------- first in, first out

  ghost function ReleaseOldest(n: nat): seq<Op> {
    if n == 0 then [] else [Release(0)] + ReleaseOldest(n - 1)
  }

  lemma {:induction false} StackedIncreasing(h: Heap, i: nat, j: nat)
    requires WellFormed(h) && Stacked(h) && i < j < |h.live|
    ensures h.live[i].End() <= h.live[j].start
    decreases j - i
  {
    assert MeetsNext(h.live, j - 1);
    if i < j - 1 {
      StackedIncreasing(h, i, j - 1);
    }
  }

  /** What the free list looks like after the `k` oldest of the stacked blocks `live` went. */
  ghost function Scattered(live: seq<Seg>, k: nat, rest: Seg): seq<Seg>
    requires k <= |live|
  {
    seq(k, i requires 0 <= i < k => live[k - 1 - i]) + [rest]
  }

  lemma ScatteredGrows(h: Heap, k: nat)
    requires WellFormed(h) && Stacked(h) && |h.live| >= 2 && h.free != [] && k < |h.live|
    ensures Coalesce([h.live[k]] + Scattered(h.live, k, h.free[0])) == Scattered(h.live, k + 1, h.free[0])
  {
    var live, rest := h.live, h.free[0];
    var s := [live[k]] + Scattered(live, k, rest);
    assert s == Scattered(live, k + 1, rest);
    forall i | 0 <= i < |s| - 1 ensures !MeetsNext(s, i) {
      assert s[i] == live[k - i];
      if i < k {
        assert s[i + 1] == live[k - i - 1];
        StackedIncreasing(h, k - i - 1, k - i);
      } else {
        assert s[i + 1] == rest;
        StackedIncreasing(h, 0, |live| - 1);
      }
    }
    CoalesceIdempotent(s);
  }

  lemma RunFirst(s: Heap, op: Op, ops: seq<Op>)
    requires Allowed(s, op) && SafeRun(Step(s, op), ops)
    ensures SafeRun(s, [op] + ops) && Run(s, [op] + ops) == Run(Step(s, op), ops)
  {
  }

  lemma DropOldest(s: Heap)
    requires 0 < |s.live| == |s.asked|
    ensures Free(s, 0) == Heap(s.size, Coalesce([s.live[0]] + s.free), s.live[1..], s.asked[1..])
  {
  }

  ghost predicate Scatters(live: seq<Seg>, rest: Seg) {
    forall k :: 0 <= k < |live| ==>
      Coalesce([live[k]] + Scattered(live, k, rest)) == Scattered(live, k + 1, rest)
  }

  lemma {:induction false} ReleaseOldestScatters(live: seq<Seg>, rest: Seg, s: Heap, k: nat)
    requires Scatters(live, rest) && k <= |live|
    requires s.live == live[k..] && |s.asked| == |s.live| && s.free == Scattered(live, k, rest)
    ensures SafeRun(s, ReleaseOldest(|live| - k))
    ensures Run(s, ReleaseOldest(|live| - k)).live == []
    ensures Run(s, ReleaseOldest(|live| - k)).free == Scattered(live, |live|, rest)
    decreases |live| - k
  {
    if k < |live| {
      DropOldest(s);
      assert live[k..][1..] == live[k + 1..] && s.live[0] == live[k];
      ReleaseOldestScatters(live, rest, Free(s, 0), k + 1);
      RunFirst(s, Release(0), ReleaseOldest(|live| - (k + 1)));
    }
  }

  lemma FifoScatters(h: Heap)
    requires WellFormed(h) && Stacked(h) && |h.live| >= 2 && h.free != []
    ensures SafeRun(h, ReleaseOldest(|h.live|))
    ensures Run(h, ReleaseOldest(|h.live|)).live == []
    ensures |Run(h, ReleaseOldest(|h.live|)).free| == |h.live| + 1
  {
    forall k | 0 <= k < |h.live|
      ensures Coalesce([h.live[k]] + Scattered(h.live, k, h.free[0])) == Scattered(h.live, k + 1, h.free[0])
    {
      ScatteredGrows(h, k);
    }
    assert h.live[0..] == h.live && h.live[..|h.live|] == h.live;
    assert Scattered(h.live, 0, h.free[0]) == h.free;
    ReleaseOldestScatters(h.live, h.free[0], h, 0);
  }

  /** With two or more free entries no entry is the whole heap. */
  lemma SeveralEntriesAreSmaller(h: Heap)
    requires WellFormed(h) && |h.free| >= 2
    ensures FirstFit(h.free, h.size) == |h.free|
  {
    BlocksDisjoint(h);
    forall i | 0 <= i < |h.free| ensures h.free[i].len < h.size {
      assert Disjoint(h.free[0], h.free[1]);
      assert i > 0 ==> Disjoint(h.free[0], h.free[i]);
    }
  }

  /**
   In contrast: two or more stacked blocks with free space behind them, released in allocation
   order, leave one free entry each and the rest, although every byte of the heap is free.
   No request for the whole heap can then be served.
   */
  lemma FifoFragments(h: Heap)
    requires WellFormed(h) && Stacked(h) && |h.live| >= 2 && h.free != []
    ensures var ops := ReleaseOldest(|h.live|);
            && SafeRun(h, ops)
            && Run(h, ops).live == []
            && Sum(Run(h, ops).free) == h.size
            && |Run(h, ops).free| == |h.live| + 1
    ensures forall n: nat :: n <= WORD - 32 && TotalSize(n) == h.size ==>
              Malloc(Run(h, ReleaseOldest(|h.live|)), n) == Run(h, ReleaseOldest(|h.live|))
  {
    FifoScatters(h);
    RunKeepsWellFormed(h, ReleaseOldest(|h.live|));
    SeveralEntriesAreSmaller(Run(h, ReleaseOldest(|h.live|)));
  }

  /** Both orders from initialisation: the same allocations, opposite outcomes. */
  lemma ReleaseOrderDecides(size: nat, ops: seq<Op>)
    requires HEADER <= size < WORD && LifoRun(Fresh(size), ops)
    ensures SafeRun(Fresh(size), ops)
    ensures var h := Run(Fresh(size), ops);
            && |h.free| <= 1
            && (h.live == [] ==> h.free == [Seg(0, size)])
            && (|h.live| >= 2 && h.free != [] ==>
                  && SafeRun(h, ReleaseOldest(|h.live|))
                  && |Run(h, ReleaseOldest(|h.live|)).free| == |h.live| + 1)
  {
    FreshWellFormed(size);
    LifoNeverFragments(Fresh(size), ops);
    RunKeepsWellFormed(Fresh(size), ops);
    var h := Run(Fresh(size), ops);
    assert h.size == size;
    StackedEmpty(h);
    if |h.live| >= 2 && h.free != [] {
      FifoFragments(h);
    }
  }
}
