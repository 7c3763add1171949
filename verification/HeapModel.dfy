/**
 The heap of 02_memory/custom_malloc/allocator.c seen as two lists of blocks: the free list in
 list order and the live blocks in the order they were handed out. Every operation of the
 allocator is a function on this view; the class in Allocator.dfy is proved to follow it.

 A block is an interval of heap offsets that includes its header. That the blocks tile the heap
 is said by counting: every byte of the heap lies in exactly one block, every other byte in none.
 */
module HeapModel {

  // size_t arithmetic is modulo 2^64
  const WORD: nat := 0x1_0000_0000_0000_0000
  const HEADER: nat := 24

  datatype Seg = Seg(start: nat, len: nat) {
    function End(): nat { start + len }
    predicate Has(b: int) { start <= b < start + len }
  }

  /** `size` is the heap size; `asked[i]` is the request that produced `live[i]`. */
  datatype Heap = Heap(size: nat, free: seq<Seg>, live: seq<Seg>, asked: seq<nat>)

  function Align(n: nat): nat { ((n + 7) % WORD) / 8 * 8 }

  function TotalSize(n: nat): nat { (HEADER + Align(n)) % WORD }

  /** The block really has room for the request exactly when neither addition wraps. */
  lemma TotalSizeExact(n: nat)
    requires n < WORD
    ensures TotalSize(n) >= HEADER + n <==> n <= WORD - 32
    ensures n <= WORD - 32 ==> TotalSize(n) < HEADER + n + 8
    ensures TotalSize(n) % 8 == 0
  {
  }

  /** What a request that wraps is rounded to. */
  lemma WrapsSmall(n: nat)
    requires WORD - 32 < n < WORD
    ensures TotalSize(n) <= HEADER
  {
  }

  // ---------------------------------------------------------------- counting bytes

  /** How many of the blocks contain byte `b`. */
  ghost function Cover(segs: seq<Seg>, b: int): nat {
    if segs == [] then 0 else (if segs[0].Has(b) then 1 else 0) + Cover(segs[1..], b)
  }

  ghost function Sum(segs: seq<Seg>): nat {
    if segs == [] then 0 else segs[0].len + Sum(segs[1..])
  }

  lemma {:induction false} Concat(s: seq<Seg>, t: seq<Seg>, b: int)
    ensures Cover(s + t, b) == Cover(s, b) + Cover(t, b)
    ensures Sum(s + t) == Sum(s) + Sum(t)
  {
    if s == [] {
      assert s + t == t;
    } else {
      Concat(s[1..], t, b);
      assert (s + t)[1..] == s[1..] + t;
    }
  }

  /** Taking block `i` out of a list takes exactly its bytes away. */
  lemma Remove(s: seq<Seg>, i: nat, b: int)
    requires i < |s|
    ensures Cover(s, b) == Cover(s[..i] + s[i + 1..], b) + Cover([s[i]], b)
    ensures Sum(s) == Sum(s[..i] + s[i + 1..]) + s[i].len
  {
    assert s == s[..i] + ([s[i]] + s[i + 1..]);
    Concat(s[..i], [s[i]] + s[i + 1..], b);
    Concat([s[i]], s[i + 1..], b);
    Concat(s[..i], s[i + 1..], b);
  }

  /** Replacing block `i` by its tail of `len - n` bytes takes exactly the first `n` bytes away. */
  lemma Shrink(s: seq<Seg>, i: nat, n: nat, b: int)
    requires i < |s| && n <= s[i].len
    ensures var s' := s[i := Seg(s[i].start + n, s[i].len - n)];
            && Cover(s, b) == Cover(s', b) + Cover([Seg(s[i].start, n)], b)
            && Sum(s) == Sum(s') + n
  {
    var s' := s[i := Seg(s[i].start + n, s[i].len - n)];
    Remove(s, i, b);
    Remove(s', i, b);
    assert s'[..i] + s'[i + 1..] == s[..i] + s[i + 1..];
  }

  lemma CoverMember(s: seq<Seg>, i: nat, b: int)
    requires i < |s| && s[i].Has(b)
    ensures Cover(s, b) >= 1
  {
    Remove(s, i, b);
  }

  // ---------------------------------------------------------------- well-formed heaps

  ghost predicate Tiled(h: Heap) {
    forall b: int :: Cover(h.free, b) + Cover(h.live, b) == if 0 <= b < h.size then 1 else 0
  }

  predicate Usable(s: Seg) { s.len >= HEADER && s.start % 8 == 0 }

  ghost predicate AllUsable(segs: seq<Seg>) {
    forall i :: 0 <= i < |segs| ==> Usable(segs[i])
  }

  ghost predicate Answered(live: seq<Seg>, asked: seq<nat>) {
    && |asked| == |live|
    && forall i :: 0 <= i < |live| ==> live[i].len >= HEADER + asked[i]
  }

  ghost predicate WellFormed(h: Heap) {
    && h.size < WORD
    && Tiled(h)
    && Sum(h.free) + Sum(h.live) == h.size
    && AllUsable(h.free)
    && AllUsable(h.live)
    && Answered(h.live, h.asked)
  }

  predicate Disjoint(s: Seg, t: Seg) { s.End() <= t.start || t.End() <= s.start }

  ghost predicate PairwiseDisjoint(segs: seq<Seg>) {
    forall i, j :: 0 <= i < j < |segs| ==> Disjoint(segs[i], segs[j])
  }

  /** Two blocks of a list no byte of which is counted twice do not overlap. */
  lemma SingleCoverDisjoint(segs: seq<Seg>, i: nat, j: nat)
    requires i < j < |segs|
    requires forall b: int :: Cover(segs, b) <= 1
    requires segs[i].len > 0 && segs[j].len > 0
    ensures Disjoint(segs[i], segs[j])
  {
    if !Disjoint(segs[i], segs[j]) {
      var b := if segs[i].start < segs[j].start then segs[j].start else segs[i].start;
      Remove(segs, j, b);
      CoverMember(segs[..j] + segs[j + 1..], i, b);
      assert false;
    }
  }

  /** In a well-formed heap all blocks, free or live, are in bounds and pairwise disjoint. */
  lemma BlocksDisjoint(h: Heap)
    requires WellFormed(h)
    ensures PairwiseDisjoint(h.free)
    ensures PairwiseDisjoint(h.live)
    ensures forall i, j :: 0 <= i < |h.free| && 0 <= j < |h.live| ==> Disjoint(h.free[i], h.live[j])
    ensures forall i :: 0 <= i < |h.free| ==> h.free[i].End() <= h.size
    ensures forall i :: 0 <= i < |h.live| ==> h.live[i].End() <= h.size
  {
    var all := h.free + h.live;
    forall b: int ensures Cover(all, b) == if 0 <= b < h.size then 1 else 0 {
      Concat(h.free, h.live, b);
    }
    forall i, j | 0 <= i < j < |all| ensures Disjoint(all[i], all[j]) {
      SingleCoverDisjoint(all, i, j);
    }
    forall i | 0 <= i < |all| ensures all[i].End() <= h.size {
      CoverMember(all, i, all[i].End() - 1);
    }
    forall i, j | 0 <= i < j < |h.free| ensures Disjoint(h.free[i], h.free[j]) {
      assert all[i] == h.free[i] && all[j] == h.free[j];
    }
    forall i, j | 0 <= i < j < |h.live| ensures Disjoint(h.live[i], h.live[j]) {
      assert all[|h.free| + i] == h.live[i] && all[|h.free| + j] == h.live[j];
    }
    forall i, j | 0 <= i < |h.free| && 0 <= j < |h.live| ensures Disjoint(h.free[i], h.live[j]) {
      assert all[i] == h.free[i] && all[|h.free| + j] == h.live[j];
    }
    forall i | 0 <= i < |h.free| ensures h.free[i].End() <= h.size {
      assert all[i] == h.free[i];
    }
    forall i | 0 <= i < |h.live| ensures h.live[i].End() <= h.size {
      assert all[|h.free| + i] == h.live[i];
    }
  }

  /** The bytes of a live block that the caller owns. */
  function Payload(s: Seg): Seg
    requires s.len >= HEADER
  {
    Seg(s.start + HEADER, s.len - HEADER)
  }

  /**
   What a caller may rely on: payloads are in bounds, 8-aligned, at least as long as requested
   and pairwise disjoint, and a header at the start of any block touches none of them.
   */
  lemma PayloadsSound(h: Heap)
    requires WellFormed(h)
    ensures forall i :: 0 <= i < |h.live| ==>
              && Payload(h.live[i]).End() <= h.size
              && Payload(h.live[i]).start % 8 == 0
              && Payload(h.live[i]).len >= h.asked[i]
    ensures forall i, j :: 0 <= i < j < |h.live| ==>
              Disjoint(Payload(h.live[i]), Payload(h.live[j]))
    ensures forall w, i :: w in Starts(h) && 0 <= i < |h.live| ==>
              Disjoint(Seg(w, HEADER), Payload(h.live[i]))
    ensures forall i, j :: 0 <= i < j < |h.free| ==> h.free[i].start != h.free[j].start
  {
    BlocksDisjoint(h);
    forall w, i | w in Starts(h) && 0 <= i < |h.live|
      ensures Disjoint(Seg(w, HEADER), Payload(h.live[i]))
    {
      if k :| 0 <= k < |h.free| && h.free[k].start == w {
        assert Disjoint(h.free[k], h.live[i]);
      } else {
        var k :| 0 <= k < |h.live| && h.live[k].start == w;
        assert k < i ==> Disjoint(h.live[k], h.live[i]);
        assert i < k ==> Disjoint(h.live[i], h.live[k]);
      }
    }
  }

  /** The offsets at which the heap holds block headers. */
  ghost function Starts(h: Heap): set<nat> {
    (set i | 0 <= i < |h.free| :: h.free[i].start) + (set i | 0 <= i < |h.live| :: h.live[i].start)
  }

  // ---------------------------------------------------------------- coalescing

  /** One pass over the list: an entry that ends where its successor starts absorbs it. */
  function Coalesce(segs: seq<Seg>): (r: seq<Seg>)
    ensures |r| <= |segs|
    decreases |segs|
  {
    if |segs| < 2 then segs
    else if segs[0].End() == segs[1].start then
      Coalesce([Seg(segs[0].start, segs[0].len + segs[1].len)] + segs[2..])
    else
      [segs[0]] + Coalesce(segs[1..])
  }

  /** Entry `i` ends where its successor in the list starts. */
  predicate MeetsNext(segs: seq<Seg>, i: nat)
    requires i < |segs| - 1
  {
    segs[i].End() == segs[i + 1].start
  }

  ghost predicate NothingToMerge(segs: seq<Seg>) {
    forall i :: 0 <= i < |segs| - 1 ==> !MeetsNext(segs, i)
  }

  /** Coalescing moves no byte into or out of the free list. */
  lemma {:induction false} CoalesceKeepsBytes(segs: seq<Seg>, b: int)
    ensures Cover(Coalesce(segs), b) == Cover(segs, b)
    ensures Sum(Coalesce(segs)) == Sum(segs)
    decreases |segs|
  {
    if |segs| < 2 {
    } else if segs[0].End() == segs[1].start {
      var merged := [Seg(segs[0].start, segs[0].len + segs[1].len)] + segs[2..];
      CoalesceKeepsBytes(merged, b);
      assert segs[1..][1..] == segs[2..] == merged[1..];
    } else {
      CoalesceKeepsBytes(segs[1..], b);
      var r := Coalesce(segs);
      assert r[1..] == Coalesce(segs[1..]);
    }
  }

  /** One pass already reaches a list in which no entry ends where its successor starts. */
  lemma {:induction false} CoalesceReachesFixpoint(segs: seq<Seg>)
    ensures NothingToMerge(Coalesce(segs))
    ensures segs != [] ==> Coalesce(segs) != [] && Coalesce(segs)[0].start == segs[0].start
    decreases |segs|
  {
    if |segs| < 2 {
    } else if segs[0].End() == segs[1].start {
      CoalesceReachesFixpoint([Seg(segs[0].start, segs[0].len + segs[1].len)] + segs[2..]);
    } else {
      CoalesceReachesFixpoint(segs[1..]);
      var r, t := Coalesce(segs), Coalesce(segs[1..]);
      assert r == [segs[0]] + t;
      forall i | 0 <= i < |r| - 1 ensures !MeetsNext(r, i) {
        if i > 0 {
          assert !MeetsNext(t, i - 1);
        }
      }
    }
  }

  lemma {:induction false} CoalesceIdempotent(segs: seq<Seg>)
    requires NothingToMerge(segs)
    ensures Coalesce(segs) == segs
    decreases |segs|
  {
    if |segs| >= 2 {
      assert !MeetsNext(segs, 0);
      var t := segs[1..];
      forall i | 0 <= i < |t| - 1 ensures !MeetsNext(t, i) {
        assert !MeetsNext(segs, i + 1);
      }
      CoalesceIdempotent(t);
    }
  }

  lemma {:induction false} CoalesceUsable(segs: seq<Seg>)
    requires AllUsable(segs)
    ensures AllUsable(Coalesce(segs))
    decreases |segs|
  {
    if |segs| < 2 {
    } else if segs[0].End() == segs[1].start {
      CoalesceUsable([Seg(segs[0].start, segs[0].len + segs[1].len)] + segs[2..]);
    } else {
      CoalesceUsable(segs[1..]);
    }
  }

  // ---------------------------------------------------------------- the operations

  function Fresh(size: nat): Heap { Heap(size, [Seg(0, size)], [], []) }

  /** Index of the first free entry of at least `total` bytes, or the list's length. */
  function FirstFit(free: seq<Seg>, total: nat): (i: nat)
    ensures i <= |free|
    ensures i < |free| ==> free[i].len >= total
    ensures forall j :: 0 <= j < i ==> free[j].len < total
  {
    if free == [] then 0
    else if free[0].len >= total then 0
    else 1 + FirstFit(free[1..], total)
  }

  function Carve(free: seq<Seg>, i: nat, total: nat): seq<Seg>
    requires i < |free| && free[i].len >= total
  {
    if free[i].len > total then free[i := Seg(free[i].start + total, free[i].len - total)]
    else free[..i] + free[i + 1..]
  }

  /** Hand out the first `total` bytes of the first free entry that has them, if there is one. */
  function Grant(h: Heap, n: nat, total: nat): Heap {
    var i := FirstFit(h.free, total);
    if i == |h.free| then h
    else Heap(h.size, Carve(h.free, i, total), h.live + [Seg(h.free[i].start, total)], h.asked + [n])
  }

  function Malloc(h: Heap, n: nat): Heap {
    if n == 0 || TotalSize(n) > h.size then h else Grant(h, n, TotalSize(n))
  }

  /** Free entry `i` serves a request of `n` bytes. */
  predicate Serves(h: Heap, n: nat, i: nat) {
    && n != 0
    && TotalSize(n) <= h.size
    && i == FirstFit(h.free, TotalSize(n))
    && i < |h.free|
  }

  function Free(h: Heap, k: nat): Heap
    requires k < |h.live| == |h.asked|
  {
    Heap(h.size, Coalesce([h.live[k]] + h.free),
         h.live[..k] + h.live[k + 1..], h.asked[..k] + h.asked[k + 1..])
  }

  /** The surplus of the chosen entry is nothing or has room for the header written into it. */
  predicate Splittable(free: seq<Seg>, total: nat) {
    var i := FirstFit(free, total);
    i < |free| ==> free[i].len == total || free[i].len >= total + HEADER
  }

  predicate SplitSafe(h: Heap, n: nat) {
    n == 0 || TotalSize(n) > h.size || Splittable(h.free, TotalSize(n))
  }

  /** Granting moves bytes from the free list to the live blocks and loses none. */
  lemma GrantTiled(h: Heap, n: nat, total: nat)
    requires Tiled(h) && Sum(h.free) + Sum(h.live) == h.size
    ensures Tiled(Grant(h, n, total))
    ensures Sum(Grant(h, n, total).free) + Sum(Grant(h, n, total).live) == h.size
  {
    var i := FirstFit(h.free, total);
    if i < |h.free| {
      var served := Seg(h.free[i].start, total);
      forall b: int
        ensures Cover(Carve(h.free, i, total), b) + Cover(h.live + [served], b)
                == Cover(h.free, b) + Cover(h.live, b)
      {
        CarveBytes(h.free, i, total, b);
        Concat(h.live, [served], b);
      }
      CarveBytes(h.free, i, total, 0);
      Concat(h.live, [served], 0);
      assert Sum([served]) == total;
    }
  }

  lemma GrantKeepsIff(h: Heap, n: nat, total: nat)
    requires WellFormed(h) && total % 8 == 0 && total >= HEADER + n
    ensures WellFormed(Grant(h, n, total)) <==> Splittable(h.free, total)
  {
    GrantTiled(h, n, total);
    var i := FirstFit(h.free, total);
    if i < |h.free| {
      CarveUsableIff(h.free, i, total);
      assert Usable(h.free[i]);
      assert AllUsable(Grant(h, n, total).live);
    }
  }

  lemma CarveUsableIff(free: seq<Seg>, i: nat, total: nat)
    requires AllUsable(free) && i < |free| && free[i].len >= total && total % 8 == 0
    ensures AllUsable(Carve(free, i, total)) <==> free[i].len == total || free[i].len >= total + HEADER
  {
    var free' := Carve(free, i, total);
    assert Usable(free[i]);
    if free[i].len > total {
      assert free'[i] == Seg(free[i].start + total, free[i].len - total);
      assert forall j :: 0 <= j < |free| && j != i ==> free'[j] == free[j];
    }
  }

  /** Nothing is handed out: a request of 0, one larger than the heap, or no entry is large enough. */
  predicate Refused(h: Heap, n: nat) {
    n == 0 || TotalSize(n) > h.size || FirstFit(h.free, TotalSize(n)) == |h.free|
  }

  /** A request that leaves the heap sound: refused, or neither wrapping nor splitting too thin. */
  predicate SafeRequest(h: Heap, n: nat) {
    Refused(h, n) || (n <= WORD - 32 && SplitSafe(h, n))
  }

  /** For every request of the type size_t: the heap stays well-formed exactly when it is safe. */
  lemma MallocKeepsIff(h: Heap, n: nat)
    requires WellFormed(h) && n < WORD
    ensures WellFormed(Malloc(h, n)) <==> SafeRequest(h, n)
  {
    TotalSizeExact(n);
    if !Refused(h, n) {
      if n <= WORD - 32 {
        GrantKeepsIff(h, n, TotalSize(n));
      } else {
        var h' := Malloc(h, n);
        assert h'.live[|h.live|].len == TotalSize(n) && h'.asked[|h.live|] == n;
      }
    }
  }

  lemma FreshWellFormed(size: nat)
    requires HEADER <= size < WORD
    ensures WellFormed(Fresh(size))
  {
  }

  /** Unsafe requests occur at once: all that wrap, or leave over something less than a header. */
  lemma FreshUnsafeIff(size: nat, n: nat)
    requires HEADER <= size < WORD && n < WORD
    ensures WellFormed(Malloc(Fresh(size), n)) <==>
              n == 0 || (n <= WORD - 32 && !(TotalSize(n) < size < TotalSize(n) + HEADER))
  {
    FreshWellFormed(size);
    if n > WORD - 32 {
      WrapsSmall(n);
    }
    MallocKeepsIff(Fresh(size), n);
  }

  /** For example 24 bytes out of 64: the second header would end at byte 72. */
  lemma UnsafeRequestExample()
    ensures TotalSize(24) + HEADER == 72
    ensures WellFormed(Fresh(64)) && !WellFormed(Malloc(Fresh(64), 24))
  {
    FreshWellFormed(64);
    FreshUnsafeIff(64, 24);
  }

  lemma CarveBytes(free: seq<Seg>, i: nat, total: nat, b: int)
    requires i < |free| && free[i].len >= total
    ensures Cover(Carve(free, i, total), b) + Cover([Seg(free[i].start, total)], b) == Cover(free, b)
    ensures Sum(Carve(free, i, total)) + total == Sum(free)
  {
    if free[i].len > total {
      Shrink(free, i, total, b);
    } else {
      Remove(free, i, b);
    }
  }

  /**
   What goes wrong otherwise: the header written behind the carved bytes stays inside the block
   being split exactly when the surplus holds it; if not, it reaches a byte past the heap or a
   byte of another block.
   */
  lemma SplitHeaderOverrun(h: Heap, n: nat, i: nat)
    requires WellFormed(h) && Serves(h, n, i) && h.free[i].len > TotalSize(n)
    ensures var w := Seg(h.free[i].start + TotalSize(n), HEADER);
            && (w.End() <= h.free[i].End() <==> SplitSafe(h, n))
            && (!SplitSafe(h, n) ==>
                  var b := h.free[i].End();
                  w.Has(b) && (b >= h.size ||
                               Cover(h.free[..i] + h.free[i + 1..], b) + Cover(h.live, b) == 1))
  {
    if !SplitSafe(h, n) {
      Remove(h.free, i, h.free[i].End());
    }
  }

  lemma FreeKeeps(h: Heap, k: nat)
    requires WellFormed(h) && k < |h.live|
    ensures WellFormed(Free(h, k))
    ensures NothingToMerge(Free(h, k).free)
  {
    var h', pushed := Free(h, k), [h.live[k]] + h.free;
    forall b: int ensures Cover(h'.free, b) + Cover(h'.live, b) == Cover(h.free, b) + Cover(h.live, b) {
      CoalesceKeepsBytes(pushed, b);
      Concat([h.live[k]], h.free, b);
      Remove(h.live, k, b);
    }
    CoalesceKeepsBytes(pushed, 0);
    Concat([h.live[k]], h.free, 0);
    Remove(h.live, k, 0);
    CoalesceUsable(pushed);
    CoalesceReachesFixpoint(pushed);
  }
}
