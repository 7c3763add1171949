/**
 When a release really coalesces. The pass compares list neighbours only, so free blocks that are
 neighbours in memory may stay apart; this is exactly when they do, for one release and for runs.
 */
module HeapGaps {
  import opened HeapModel
  import opened HeapRuns

  /** No free block ends where another one starts, wherever the two are in the list. */
  ghost predicate NoneAdjacent(segs: seq<Seg>) {
    forall i, j :: 0 <= i < |segs| && 0 <= j < |segs| ==> segs[i].End() != segs[j].start
  }

  /** No free block ends at live block `k`, and one that starts at its end is the head of the list. */
  predicate MeetsOnlyHead(h: Heap, k: nat)
    requires k < |h.live|
  {
    && (forall j :: 0 <= j < |h.free| ==> h.free[j].End() != h.live[k].start)
    && (forall j :: 1 <= j < |h.free| ==> h.free[j].start != h.live[k].End())
  }

  // ---------------------------------------------------------------- one release

  /** A block in front of the list that does not touch the head: nothing is merged. */
  lemma PushedIff(b: Seg, free: seq<Seg>)
    requires NoneAdjacent(free) && b.len > 0
    requires free != [] ==> b.End() != free[0].start
    ensures Coalesce([b] + free) == [b] + free
    ensures NoneAdjacent([b] + free) <==>
              (forall j :: 0 <= j < |free| ==> free[j].End() != b.start) &&
              (forall j :: 0 <= j < |free| ==> free[j].start != b.End())
  {
    var s := [b] + free;
    forall i | 0 <= i < |s| - 1 ensures !MeetsNext(s, i) {
      assert s[i + 1] == free[i];
      if i > 0 {
        assert s[i] == free[i - 1];
      }
    }
    CoalesceIdempotent(s);
    assert s[0] == b && forall j :: 0 <= j < |free| ==> s[j + 1] == free[j];
    if NoneAdjacent(s) {
      forall j | 0 <= j < |free| ensures free[j].End() != b.start && free[j].start != b.End() {
        assert s[j + 1].End() != s[0].start && s[0].End() != s[j + 1].start;
      }
    }
  }

  /** Moving the start of the head leaves a list apart exactly if no entry ends at the new start. */
  lemma StartMovedIff(merged: seq<Seg>, free: seq<Seg>)
    requires NoneAdjacent(free) && |merged| == |free| > 0
    requires forall j :: 0 <= j < |free| ==> merged[j].End() == free[j].End()
    requires forall j :: 0 < j < |free| ==> merged[j].start == free[j].start
    ensures NoneAdjacent(merged) <==> forall j :: 0 <= j < |free| ==> free[j].End() != merged[0].start
  {
    if NoneAdjacent(merged) {
      forall j | 0 <= j < |free| ensures free[j].End() != merged[0].start {
        assert merged[j].End() != merged[0].start;
      }
    }
  }

  lemma HeadAbsorbed(b: Seg, free: seq<Seg>)
    requires NothingToMerge(free) && free != [] && b.End() == free[0].start
    ensures Coalesce([b] + free) == [Seg(b.start, b.len + free[0].len)] + free[1..]
  {
    var merged := [Seg(b.start, b.len + free[0].len)] + free[1..];
    assert ([b] + free)[2..] == free[1..];
    forall i | 0 <= i < |merged| - 1 ensures !MeetsNext(merged, i) {
      assert !MeetsNext(free, i);
    }
    CoalesceIdempotent(merged);
  }

  /** A block that ends at the head absorbs it, and nothing else is merged. */
  lemma AbsorbedIff(b: Seg, free: seq<Seg>)
    requires NoneAdjacent(free) && free != [] && b.End() == free[0].start && b.len > 0
    ensures var merged := [Seg(b.start, b.len + free[0].len)] + free[1..];
            && Coalesce([b] + free) == merged
            && (NoneAdjacent(merged) <==> forall j :: 0 <= j < |free| ==> free[j].End() != b.start)
  {
    HeadAbsorbed(b, free);
    StartMovedIff([Seg(b.start, b.len + free[0].len)] + free[1..], free);
  }

  /**
   A release keeps the free blocks apart in memory exactly when no free block ends at the released
   one and any that starts at its end is the head of the list.
   */
  lemma FreeCoalescesIff(h: Heap, k: nat)
    requires WellFormed(h) && k < |h.live| && NoneAdjacent(h.free)
    ensures NoneAdjacent(Free(h, k).free) <==> MeetsOnlyHead(h, k)
  {
    var b, free := h.live[k], h.free;
    assert Usable(b);
    if free != [] && b.End() == free[0].start {
      AbsorbedIff(b, free);
      BlocksDisjoint(h);
      forall j | 1 <= j < |free| ensures free[j].start != b.End() {
        assert Disjoint(free[0], free[j]) && Usable(free[0]) && Usable(free[j]);
      }
    } else {
      PushedIff(b, free);
    }
  }

  // ---------------------------------------------------------------- what it means

  /** The bytes from `a` on, `len` of them, are all free. */
  ghost predicate AllFree(h: Heap, a: nat, len: nat) {
    forall b: int :: a <= b < a + len ==> Cover(h.free, b) == 1
  }

  /** Some free block contains all of them. */
  ghost predicate InOneBlock(h: Heap, a: nat, len: nat) {
    exists i :: 0 <= i < |h.free| && h.free[i].start <= a && a + len <= h.free[i].End()
  }

  lemma {:induction false} CoverOwner(s: seq<Seg>, b: int) returns (i: nat)
    requires Cover(s, b) >= 1
    ensures i < |s| && s[i].Has(b)
  {
    if s[0].Has(b) {
      i := 0;
    } else {
      i := CoverOwner(s[1..], b);
      i := i + 1;
    }
  }

  lemma FreeByte(h: Heap, i: nat, b: int)
    requires WellFormed(h) && i < |h.free| && h.free[i].Has(b)
    ensures Cover(h.free, b) == 1
  {
    CoverMember(h.free, i, b);
  }

  /** The free block that holds the byte behind another one starts there. */
  lemma OwnerBehind(h: Heap, i: nat, j: nat)
    requires WellFormed(h) && i < |h.free| && j < |h.free| && h.free[j].Has(h.free[i].End())
    ensures h.free[i].End() == h.free[j].start
  {
    BlocksDisjoint(h);
    assert Usable(h.free[i]);
    assert i < j ==> Disjoint(h.free[i], h.free[j]);
    assert j < i ==> Disjoint(h.free[j], h.free[i]);
  }

  /** A stretch of free bytes does not leave the free block in which it starts. */
  lemma StretchInside(h: Heap, a: nat, len: nat)
    requires WellFormed(h) && NoneAdjacent(h.free) && len > 0 && AllFree(h, a, len)
    ensures InOneBlock(h, a, len)
  {
    var i := CoverOwner(h.free, a);
    var e := h.free[i].End();
    if e < a + len {
      var j := CoverOwner(h.free, e);
      OwnerBehind(h, i, j);
      assert false;
    }
  }

  lemma AdjacentStretch(h: Heap, i: nat, j: nat)
    requires WellFormed(h) && i < |h.free| && j < |h.free| && h.free[i].End() == h.free[j].start
    ensures var a := h.free[j].start - 1;
            a >= 0 && AllFree(h, a, 2) && !InOneBlock(h, a, 2)
  {
    assert Usable(h.free[i]) && Usable(h.free[j]);
    var a := h.free[j].start - 1;
    FreeByte(h, i, a);
    FreeByte(h, j, a + 1);
    BlocksDisjoint(h);
    forall k | 0 <= k < |h.free| ensures !(h.free[k].start <= a && a + 2 <= h.free[k].End()) {
      assert k < j ==> Disjoint(h.free[k], h.free[j]);
      assert j < k ==> Disjoint(h.free[j], h.free[k]);
      assert i != j;
    }
  }

  /** Free blocks are apart in memory exactly when every stretch of free bytes lies in one block. */
  lemma NoneAdjacentIff(h: Heap)
    requires WellFormed(h)
    ensures NoneAdjacent(h.free) <==>
              forall a: nat, len: nat :: len > 0 && AllFree(h, a, len) ==> InOneBlock(h, a, len)
  {
    if NoneAdjacent(h.free) {
      forall a: nat, len: nat | len > 0 && AllFree(h, a, len) ensures InOneBlock(h, a, len) {
        StretchInside(h, a, len);
      }
    } else {
      var i, j :| 0 <= i < |h.free| && 0 <= j < |h.free| && h.free[i].End() == h.free[j].start;
      AdjacentStretch(h, i, j);
    }
  }

  /** Then a request is refused only for want of a stretch of free bytes that could hold it. */
  lemma ServedIff(h: Heap, n: nat)
    requires WellFormed(h) && NoneAdjacent(h.free) && 0 < n <= WORD - 32
    ensures !Refused(h, n) <==> exists a: nat :: AllFree(h, a, TotalSize(n))
  {
    var total, i := TotalSize(n), FirstFit(h.free, TotalSize(n));
    TotalSizeExact(n);
    if !Refused(h, n) {
      forall b | h.free[i].start <= b < h.free[i].start + total ensures Cover(h.free, b) == 1 {
        FreeByte(h, i, b);
      }
      assert AllFree(h, h.free[i].start, total);
    }
    if a: nat :| AllFree(h, a, total) {
      StretchInside(h, a, total);
      BlocksDisjoint(h);
      assert !Refused(h, n);
    }
  }

  // ---------------------------------------------------------------- whole runs

  /** Carving bytes off the front of a free block brings no two free blocks together. */
  lemma MallocKeepsApart(h: Heap, n: nat)
    requires WellFormed(h) && NoneAdjacent(h.free) && n < WORD && SafeRequest(h, n)
    ensures NoneAdjacent(Malloc(h, n).free)
  {
    if !Refused(h, n) {
      TotalSizeExact(n);
      BlocksDisjoint(h);
      CarveKeepsApart(h.free, FirstFit(h.free, TotalSize(n)), TotalSize(n));
    }
  }

  lemma CarveKeepsApart(free: seq<Seg>, i: nat, total: nat)
    requires NoneAdjacent(free) && AllUsable(free) && PairwiseDisjoint(free)
    requires i < |free| && 0 < total <= free[i].len
    ensures NoneAdjacent(Carve(free, i, total))
  {
    var free' := Carve(free, i, total);
    forall p, q | 0 <= p < |free'| && 0 <= q < |free'| ensures free'[p].End() != free'[q].start {
      if free[i].len == total {
        var p', q' := if p < i then p else p + 1, if q < i then q else q + 1;
        assert free'[p] == free[p'] && free'[q] == free[q'];
      } else {
        assert free'[p].End() == free[p].End();
        assert Usable(free[p]);
        if q != i {
          assert free'[q] == free[q];
        } else if p != i {
          assert p < i ==> Disjoint(free[p], free[i]);
          assert i < p ==> Disjoint(free[i], free[p]);
        }
      }
    }
  }

  /** Every release of the run meets only the head of the list of its moment. */
  ghost predicate CleanReleases(h: Heap, ops: seq<Op>)
    requires SafeRun(h, ops)
    decreases |ops|
  {
    || ops == []
    || (&& (ops[0].Release? ==> MeetsOnlyHead(h, ops[0].k))
        && CleanReleases(Step(h, ops[0]), ops[1..]))
  }

  /** After every step of the run no two free blocks are adjacent in memory. */
  ghost predicate StaysApart(h: Heap, ops: seq<Op>)
    requires SafeRun(h, ops)
    decreases |ops|
  {
    ops == [] || (NoneAdjacent(Step(h, ops[0]).free) && StaysApart(Step(h, ops[0]), ops[1..]))
  }

  lemma StepApartIff(h: Heap, op: Op)
    requires WellFormed(h) && NoneAdjacent(h.free) && Allowed(h, op)
    ensures WellFormed(Step(h, op))
    ensures NoneAdjacent(Step(h, op).free) <==> (op.Release? ==> MeetsOnlyHead(h, op.k))
  {
    match op
    case Request(n) =>
      MallocKeepsIff(h, n);
      MallocKeepsApart(h, n);
    case Release(k) =>
      FreeKeeps(h, k);
      FreeCoalescesIff(h, k);
  }

  /** A safe run never leaves adjacent free blocks exactly when all its releases are clean. */
  lemma {:induction false} RunCoalescesIff(h: Heap, ops: seq<Op>)
    requires WellFormed(h) && NoneAdjacent(h.free) && SafeRun(h, ops)
    ensures StaysApart(h, ops) <==> CleanReleases(h, ops)
    ensures CleanReleases(h, ops) ==> NoneAdjacent(Run(h, ops).free)
    decreases |ops|
  {
    if ops != [] {
      StepApartIff(h, ops[0]);
      if NoneAdjacent(Step(h, ops[0]).free) {
        RunCoalescesIff(Step(h, ops[0]), ops[1..]);
      }
    }
  }

  /** From initialisation, with what the end of such a run means for the next request. */
  lemma FreshRunCoalescesIff(size: nat, ops: seq<Op>)
    requires HEADER <= size < WORD && SafeRun(Fresh(size), ops)
    ensures StaysApart(Fresh(size), ops) <==> CleanReleases(Fresh(size), ops)
    ensures CleanReleases(Fresh(size), ops) ==>
              forall n :: 0 < n <= WORD - 32 ==>
                (!Refused(Run(Fresh(size), ops), n) <==>
                   exists a: nat :: AllFree(Run(Fresh(size), ops), a, TotalSize(n)))
  {
    FreshWellFormed(size);
    RunCoalescesIff(Fresh(size), ops);
    RunKeepsWellFormed(Fresh(size), ops);
    if CleanReleases(Fresh(size), ops) {
      forall n | 0 < n <= WORD - 32
        ensures !Refused(Run(Fresh(size), ops), n) <==>
                  exists a: nat :: AllFree(Run(Fresh(size), ops), a, TotalSize(n))
      {
        ServedIff(Run(Fresh(size), ops), n);
      }
    }
  }

  /** Releasing last-allocated-first is one way to keep all releases clean. */
  lemma {:induction false} LifoIsClean(h: Heap, ops: seq<Op>)
    requires WellFormed(h) && Stacked(h) && LifoRun(h, ops)
    ensures SafeRun(h, ops) && CleanReleases(h, ops)
    decreases |ops|
  {
    LifoNeverFragments(h, ops);
    if ops != [] {
      match ops[0] {
        case Request(n) =>
          MallocKeepsIff(h, n);
          MallocStacked(h, n);
        case Release(k) =>
          assert Usable(h.live[k]);
          FreeKeeps(h, k);
          PopStacked(h);
      }
      LifoIsClean(Step(h, ops[0]), ops[1..]);
    }
  }

  /** Releasing oldest-first is not: the second release already ends a free block at its start. */
  lemma FifoIsNotClean(h: Heap)
    requires WellFormed(h) && Stacked(h) && |h.live| >= 2
    ensures var ops := [Release(0), Release(0)];
            SafeRun(h, ops) && !CleanReleases(h, ops) && !StaysApart(h, ops)
  {
    var h1 := Free(h, 0);
    DropOldest(h);
    DropOldest(h1);
    FreeKeeps(h, 0);
    FreeKeeps(h1, 0);
    assert MeetsNext(h.live, 0);
    assert [Release(0), Release(0)][1..] == [Release(0)] && [Release(0)][1..] == [];
  }
}
