/**
 The two searches of 02_memory/mmap_playground/benchmark.c: counting a query in a file read in
 chunks, and in the whole file mapped at once. The chunked search cannot see an occurrence that
 begins in one chunk and ends in another; that is the whole difference.
 */
module FileSearch {
  import opened Common

  /** strncmp over the query's length is 0; the query is a C string, so it has no NUL. */
  predicate OccursAt(data: seq<Byte>, query: seq<Byte>, i: nat) {
    i + |query| <= |data| && data[i..i + |query|] == query
  }

  /** Number of occurrences that begin in [lo, hi). */
  ghost function Occurrences(data: seq<Byte>, query: seq<Byte>, lo: nat, hi: nat): nat
    decreases hi - lo
  {
    if lo >= hi then 0
    else (if OccursAt(data, query, lo) then 1 else 0) + Occurrences(data, query, lo + 1, hi)
  }

  ghost function Matches(data: seq<Byte>, query: seq<Byte>): nat {
    Occurrences(data, query, 0, |data|)
  }

  ghost function Flatten(chunks: seq<seq<Byte>>): seq<Byte> {
    if chunks == [] then [] else chunks[0] + Flatten(chunks[1..])
  }

  ghost function ChunkedMatches(chunks: seq<seq<Byte>>, query: seq<Byte>): nat {
    if chunks == [] then 0 else Matches(chunks[0], query) + ChunkedMatches(chunks[1..], query)
  }

  /** Index of the chunk that holds byte `pos` of the file. */
  ghost function ChunkOf(chunks: seq<seq<Byte>>, pos: nat): nat {
    if chunks == [] || pos < |chunks[0]| then 0 else 1 + ChunkOf(chunks[1..], pos - |chunks[0]|)
  }

  /** An occurrence whose first and last byte were read in different chunks. */
  ghost predicate StraddlesAt(chunks: seq<seq<Byte>>, query: seq<Byte>, i: nat)
    requires |query| >= 1
  {
    OccursAt(Flatten(chunks), query, i) && ChunkOf(chunks, i) != ChunkOf(chunks, i + |query| - 1)
  }

  ghost function Straddling(chunks: seq<seq<Byte>>, query: seq<Byte>, lo: nat, hi: nat): nat
    requires |query| >= 1
    decreases hi - lo
  {
    if lo >= hi then 0
    else (if StraddlesAt(chunks, query, lo) then 1 else 0) + Straddling(chunks, query, lo + 1, hi)
  }

  /** Behind the first chunk everything is as in the remaining chunks. */
  lemma {:induction false} ShiftCounts(chunks: seq<seq<Byte>>, query: seq<Byte>, lo: nat, hi: nat)
    requires |query| >= 1 && chunks != [] && |chunks[0]| <= lo
    ensures Occurrences(Flatten(chunks), query, lo, hi)
            == if lo >= hi then 0
               else Occurrences(Flatten(chunks[1..]), query, lo - |chunks[0]|, hi - |chunks[0]|)
    ensures Straddling(chunks, query, lo, hi)
            == if lo >= hi then 0
               else Straddling(chunks[1..], query, lo - |chunks[0]|, hi - |chunks[0]|)
    decreases hi - lo
  {
    if lo < hi {
      ShiftCounts(chunks, query, lo + 1, hi);
      var data, rest, c := Flatten(chunks), Flatten(chunks[1..]), |chunks[0]|;
      assert data == chunks[0] + rest;
      if lo + |query| <= |data| {
        assert data[lo..lo + |query|] == rest[lo - c..lo - c + |query|];
      }
    }
  }

  /** Inside the first chunk an occurrence is found by the chunk's own search or straddles. */
  lemma {:induction false} FirstChunkCounts(chunks: seq<seq<Byte>>, query: seq<Byte>, lo: nat)
    requires |query| >= 1 && chunks != [] && lo <= |chunks[0]|
    ensures Occurrences(Flatten(chunks), query, lo, |chunks[0]|)
            == Occurrences(chunks[0], query, lo, |chunks[0]|) + Straddling(chunks, query, lo, |chunks[0]|)
    decreases |chunks[0]| - lo
  {
    if lo < |chunks[0]| {
      FirstChunkCounts(chunks, query, lo + 1);
      var data, c := Flatten(chunks), chunks[0];
      if lo + |query| <= |c| {
        assert data[lo..lo + |query|] == c[lo..lo + |query|];
      }
    }
  }

  lemma {:induction false} SplitRange(chunks: seq<seq<Byte>>, query: seq<Byte>, lo: nat, mid: nat, hi: nat)
    requires |query| >= 1 && lo <= mid <= hi
    ensures Occurrences(Flatten(chunks), query, lo, hi)
            == Occurrences(Flatten(chunks), query, lo, mid) + Occurrences(Flatten(chunks), query, mid, hi)
    ensures Straddling(chunks, query, lo, hi)
            == Straddling(chunks, query, lo, mid) + Straddling(chunks, query, mid, hi)
    decreases mid - lo
  {
    if lo < mid {
      SplitRange(chunks, query, lo + 1, mid, hi);
    }
  }

  /** However the file is cut: whole-file count = chunked count + straddling occurrences. */
  lemma {:induction false} WholeEqualsChunkedPlusStraddling(chunks: seq<seq<Byte>>, query: seq<Byte>)
    requires |query| >= 1
    ensures Matches(Flatten(chunks), query)
            == ChunkedMatches(chunks, query) + Straddling(chunks, query, 0, |Flatten(chunks)|)
    decreases |chunks|
  {
    if chunks != [] {
      var c, n := |chunks[0]|, |Flatten(chunks)|;
      WholeEqualsChunkedPlusStraddling(chunks[1..], query);
      SplitRange(chunks, query, 0, c, n);
      FirstChunkCounts(chunks, query, 0);
      ShiftCounts(chunks, query, c, n);
    }
  }

  // ---------------------------------------------------------------- the loops

  lemma {:induction false} OccurrencesStep(data: seq<Byte>, query: seq<Byte>, lo: nat, hi: nat)
    requires lo <= hi
    ensures Occurrences(data, query, lo, hi + 1)
            == Occurrences(data, query, lo, hi) + (if OccursAt(data, query, hi) then 1 else 0)
    decreases hi - lo
  {
    if lo < hi {
      OccurrencesStep(data, query, lo + 1, hi);
    }
  }

  /** Nothing begins so late that the query would not fit. */
  lemma {:induction false} TooLate(data: seq<Byte>, query: seq<Byte>, lo: nat, hi: nat)
    requires lo + |query| > |data|
    ensures Occurrences(data, query, lo, hi) == 0
    decreases hi - lo
  {
    if lo < hi {
      TooLate(data, query, lo + 1, hi);
    }
  }

  /** The loop over one buffer filled by read(). */
  method SearchBuffer(buffer: seq<Byte>, query: seq<Byte>, found: nat) returns (matches: nat)
    requires |query| >= 1
    ensures matches == found + Matches(buffer, query)
  {
    matches := found;
    for i := 0 to |buffer|
      invariant matches == found + Occurrences(buffer, query, 0, i)
    {
      OccurrencesStep(buffer, query, 0, i);
      if buffer[i] == query[0] {
        if i + |query| <= |buffer| {
          if buffer[i..i + |query|] == query {
            matches := matches + 1;
          }
        }
      } else if i + |query| <= |buffer| {
        assert buffer[i..i + |query|][0] != query[0];
      }
    }
  }

  lemma {:induction false} ChunkedStep(chunks: seq<seq<Byte>>, query: seq<Byte>, i: nat)
    requires i < |chunks|
    ensures ChunkedMatches(chunks[..i + 1], query) == ChunkedMatches(chunks[..i], query) + Matches(chunks[i], query)
    decreases i
  {
    if i == 0 {
      assert chunks[..1][1..] == [];
    } else {
      ChunkedStep(chunks[1..], query, i - 1);
      assert chunks[..i + 1][1..] == chunks[1..][..i];
      assert chunks[..i][1..] == chunks[1..][..i - 1];
    }
  }

  /** search_with_read, given what the successive read() calls return. */
  method SearchWithRead(chunks: seq<seq<Byte>>, query: seq<Byte>) returns (matches: nat)
    requires |query| >= 1
    ensures matches + Straddling(chunks, query, 0, |Flatten(chunks)|) == Matches(Flatten(chunks), query)
  {
    matches := 0;
    for i := 0 to |chunks|
      invariant matches == ChunkedMatches(chunks[..i], query)
    {
      ChunkedStep(chunks, query, i);
      matches := SearchBuffer(chunks[i], query, matches);
    }
    assert chunks[..|chunks|] == chunks;
    WholeEqualsChunkedPlusStraddling(chunks, query);
  }

  /** search_with_mmap; a file shorter by two bytes or more makes the unsigned loop bound wrap. */
  method SearchWithMmap(data: seq<Byte>, query: seq<Byte>) returns (matches: nat)
    requires 1 <= |query| <= |data| + 1
    ensures matches == Matches(data, query)
  {
    matches := 0;
    for i := 0 to |data| - |query| + 1
      invariant matches == Occurrences(data, query, 0, i)
    {
      OccurrencesStep(data, query, 0, i);
      if data[i] == query[0] {
        if data[i..i + |query|] == query {
          matches := matches + 1;
        }
      } else {
        assert data[i..i + |query|][0] != query[0];
      }
    }
    var end := |data| - |query| + 1;
    TooLate(data, query, end, |data|);
    SplitRange([data], query, 0, end, |data|);
    assert Flatten([data]) == data;
  }
}
