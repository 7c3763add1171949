/**
 The cache of 06_storage/lru_cache/lru_cache.c as values, beside the least-recently-used cache it
 is meant to be. Entries are listed from the oldest to the newest. A node's single `next` field
 serves the recency list and the bucket chain at once; in the regime where no two entries share a
 bucket it is NULL or the next older node, and `linked` says which.
 */
module LruModel {
  import opened Common

  const TABLE_SIZE: nat := 1024

  function Bucket(key: int): nat { key % TABLE_SIZE }

  datatype Entry = Entry(key: int, value: int)

  datatype Cell = Cell(entry: Entry, linked: bool)

  /** Entries or cells, oldest first, and the counters. */
  datatype Store<T> = Store(items: seq<T>, maxSize: nat, hits: nat, misses: nat, evictions: nat)

  datatype Op = Get(key: int) | Put(key: int, value: int)

  function Empty<T>(maxSize: nat): Store<T> { Store([], maxSize, 0, 0, 0) }

  function Entries(cells: seq<Cell>): (r: seq<Entry>)
    ensures |r| == |cells| && forall i :: 0 <= i < |r| ==> r[i] == cells[i].entry
  {
    seq(|cells|, i requires 0 <= i < |cells| => cells[i].entry)
  }

  /** Position of the key, or the number of entries. */
  function Find(entries: seq<Entry>, key: int): (k: nat)
    ensures k <= |entries|
    ensures k < |entries| ==> entries[k].key == key
    ensures forall j :: 0 <= j < k ==> entries[j].key != key
  {
    if entries == [] || entries[0].key == key then 0 else 1 + Find(entries[1..], key)
  }

  /** What an operation returns to its caller. */
  function Answer(entries: seq<Entry>, op: Op): Option<int> {
    var k := Find(entries, op.key);
    if op.Get? && k < |entries| then Some(entries[k].value) else None
  }

  /** A get answers the value of the entry with its key, if there is one. */
  lemma AnswerIs(entries: seq<Entry>, key: int)
    requires forall i, j :: 0 <= i < j < |entries| ==> entries[i].key != entries[j].key
    ensures forall i :: 0 <= i < |entries| && entries[i].key == key ==>
              Answer(entries, Get(key)) == Some(entries[i].value)
    ensures (forall i :: 0 <= i < |entries| ==> entries[i].key != key) ==> Answer(entries, Get(key)) == None
  {
  }

  // ---------------------------------------------------------------- the cache as it should be

  function Without(entries: seq<Entry>, key: int): (r: seq<Entry>)
    ensures forall i :: 0 <= i < |r| ==> r[i].key != key
  {
    if entries == [] then []
    else (if entries[0].key == key then [] else [entries[0]]) + Without(entries[1..], key)
  }

  /** The entry becomes the newest; if that is one too many, the oldest leaves. */
  function Use(s: Store<Entry>, e: Entry): Store<Entry> {
    var items := Without(s.items, e.key) + [e];
    if |items| > s.maxSize then s.(items := items[1..], evictions := s.evictions + 1)
    else s.(items := items)
  }

  function LruStep(s: Store<Entry>, op: Op): Store<Entry> {
    match op
    case Get(key) =>
      var k := Find(s.items, key);
      if k < |s.items| then Use(s, s.items[k]).(hits := s.hits + 1) else s.(misses := s.misses + 1)
    case Put(key, value) => Use(s, Entry(key, value))
  }

  ghost function LruRun(s: Store<Entry>, ops: seq<Op>): Store<Entry>
    decreases |ops|
  {
    if ops == [] then s else LruRun(LruStep(s, ops[0]), ops[1..])
  }

  ghost function LruAnswers(s: Store<Entry>, ops: seq<Op>): seq<Option<int>>
    decreases |ops|
  {
    if ops == [] then [] else [Answer(s.items, ops[0])] + LruAnswers(LruStep(s, ops[0]), ops[1..])
  }

  // ---------------------------------------------------------------- the cache as it is

  /** The hit entry has no `next` although it is not the oldest: the code takes it for the oldest. */
  predicate Cuts(cells: seq<Cell>, k: nat)
    requires k < |cells|
  {
    0 < k < |cells| - 1 && !cells[k].linked
  }

  /** Taking cell `k` out; the next newer one inherits its link. */
  function Unlinked(cells: seq<Cell>, k: nat): seq<Cell>
    requires k < |cells| - 1
  {
    var next := cells[k + 1].(linked := cells[k].linked);
    if Cuts(cells, k) then cells[k + 1..][0 := next] else (cells[..k] + cells[k + 1..])[k := next]
  }

  function Moved(cells: seq<Cell>, k: nat): seq<Cell>
    requires k < |cells|
  {
    if k == |cells| - 1 then cells else Unlinked(cells, k) + [cells[k].(linked := true)]
  }

  function Evicted(cells: seq<Cell>): seq<Cell> {
    if |cells| <= 1 then [] else cells[1..][0 := cells[1].(linked := false)]
  }

  function Pushed(s: Store<Cell>, e: Entry): Store<Cell> {
    var cells := s.items + [Cell(e, false)];
    if |cells| > s.maxSize then s.(items := Evicted(cells), evictions := s.evictions + 1)
    else s.(items := cells)
  }

  function Set(cells: seq<Cell>, k: nat, e: Entry): seq<Cell>
    requires k < |cells|
  {
    cells[k := cells[k].(entry := e)]
  }

  function Step(s: Store<Cell>, op: Op): Store<Cell> {
    var k := Find(Entries(s.items), op.key);
    match op
    case Get(key) =>
      if k < |s.items| then s.(items := Moved(s.items, k), hits := s.hits + 1)
      else s.(misses := s.misses + 1)
    case Put(key, value) =>
      if k < |s.items| then s.(items := Moved(Set(s.items, k, Entry(key, value)), k))
      else Pushed(s, Entry(key, value))
  }

  predicate BucketFree(entries: seq<Entry>, key: int) {
    forall i :: 0 <= i < |entries| ==> Bucket(entries[i].key) != Bucket(key)
  }

  /** A key the table can index, and no new entry in an occupied bucket. */
  predicate InRegime(s: Store<Cell>, op: Op) {
    && op.key >= 0
    && (op.Put? && Find(Entries(s.items), op.key) == |s.items| ==> BucketFree(Entries(s.items), op.key))
  }

  predicate CutsAt(s: Store<Cell>, op: Op) {
    var k := Find(Entries(s.items), op.key);
    k < |s.items| && Cuts(s.items, k)
  }

  ghost predicate SafeRun(s: Store<Cell>, ops: seq<Op>)
    decreases |ops|
  {
    ops == [] || (InRegime(s, ops[0]) && !CutsAt(s, ops[0]) && SafeRun(Step(s, ops[0]), ops[1..]))
  }

  ghost function Run(s: Store<Cell>, ops: seq<Op>): Store<Cell>
    decreases |ops|
  {
    if ops == [] then s else Run(Step(s, ops[0]), ops[1..])
  }

  // ---------------------------------------------------------------- when the two agree

  ghost predicate OwnBuckets(entries: seq<Entry>) {
    forall i, j :: 0 <= i < j < |entries| ==> Bucket(entries[i].key) != Bucket(entries[j].key)
  }

  ghost predicate Good(s: Store<Cell>) {
    && 0 < s.maxSize && |s.items| <= s.maxSize
    && (s.items != [] ==> !s.items[0].linked)
    && OwnBuckets(Entries(s.items))
  }

  /** The cache without its links. */
  ghost function Abs(s: Store<Cell>): Store<Entry> {
    Store(Entries(s.items), s.maxSize, s.hits, s.misses, s.evictions)
  }

  /** The recency order after entry `k` was used. */
  function Refreshed<T>(order: seq<T>, k: nat): seq<T>
    requires k < |order|
  {
    order[..k] + order[k + 1..] + [order[k]]
  }

  lemma EntriesAppend(cells: seq<Cell>, c: Cell)
    ensures Entries(cells + [c]) == Entries(cells) + [c.entry]
  {
  }

  lemma UnlinkedWhole(cells: seq<Cell>, k: nat)
    requires k < |cells| - 1 && !Cuts(cells, k)
    ensures Entries(Unlinked(cells, k)) == Entries(cells)[..k] + Entries(cells)[k + 1..]
  {
  }

  lemma MovedWhole(cells: seq<Cell>, k: nat)
    requires k < |cells| && !Cuts(cells, k)
    ensures Entries(Moved(cells, k)) == Refreshed(Entries(cells), k)
  {
    var es := Entries(cells);
    if k < |cells| - 1 {
      UnlinkedWhole(cells, k);
      EntriesAppend(Unlinked(cells, k), cells[k].(linked := true));
    } else {
      assert es[k + 1..] == [] && es[..k] + [es[k]] == es;
    }
  }

  lemma MovedCut(cells: seq<Cell>, k: nat)
    requires k < |cells| && Cuts(cells, k)
    ensures Entries(Moved(cells, k)) == Entries(cells)[k + 1..] + [Entries(cells)[k]]
  {
  }

  /** move_to_front makes the entry the newest one and keeps the others exactly if it does not cut. */
  lemma HitKeepsRecencyIff(cells: seq<Cell>, k: nat)
    requires k < |cells| && !cells[0].linked
    ensures Entries(Moved(cells, k)) == Refreshed(Entries(cells), k)
            <==> k == 0 || k == |cells| - 1 || cells[k].linked
    ensures Cuts(cells, k) ==>
              Entries(Moved(cells, k)) == Entries(cells)[k + 1..] + [Entries(cells)[k]]
    ensures !Moved(cells, k)[0].linked
  {
    if Cuts(cells, k) {
      MovedCut(cells, k);
      assert |Moved(cells, k)| < |cells| == |Refreshed(Entries(cells), k)|;
    } else {
      MovedWhole(cells, k);
    }
  }

  lemma {:induction false} WithoutAbsent(entries: seq<Entry>, key: int)
    requires forall i :: 0 <= i < |entries| ==> entries[i].key != key
    ensures Without(entries, key) == entries
  {
    if entries != [] {
      WithoutAbsent(entries[1..], key);
    }
  }

  lemma {:induction false} WithoutConcat(a: seq<Entry>, b: seq<Entry>, key: int)
    ensures Without(a + b, key) == Without(a, key) + Without(b, key)
  {
    if a == [] {
      assert a + b == b;
    } else {
      var first := if a[0].key == key then [] else [a[0]];
      WithoutConcat(a[1..], b, key);
      assert (a + b)[1..] == a[1..] + b;
      assert Without(a + b, key) == first + (Without(a[1..], key) + Without(b, key));
    }
  }

  ghost predicate OwnKeys(entries: seq<Entry>) {
    forall i, j :: 0 <= i < j < |entries| ==> entries[i].key != entries[j].key
  }

  lemma {:induction false} WithoutAt(entries: seq<Entry>, k: nat)
    requires OwnKeys(entries) && k < |entries|
    ensures Without(entries, entries[k].key) == entries[..k] + entries[k + 1..]
  {
    var rest := entries[1..];
    if k == 0 {
      WithoutAbsent(rest, entries[0].key);
    } else {
      WithoutAt(rest, k - 1);
      assert entries[..k] == [entries[0]] + rest[..k - 1];
      assert entries[k + 1..] == rest[k..];
    }
  }

  lemma RefreshedOwn(entries: seq<Entry>, k: nat)
    requires OwnBuckets(entries) && k < |entries|
    ensures OwnBuckets(Refreshed(entries, k))
  {
    var r := Refreshed(entries, k);
    forall i, j | 0 <= i < j < |r| ensures Bucket(r[i].key) != Bucket(r[j].key) {
      var i' := if i < k then i else i + 1;
      assert r[i] == entries[i'];
      if j < |r| - 1 {
        assert r[j] == entries[if j < k then j else j + 1];
      }
    }
  }

  /** What a hit does, with the entry's value set to `e.value` before. */
  lemma HitExact(s: Store<Cell>, k: nat, e: Entry)
    requires Good(s) && k < |s.items| && s.items[k].entry.key == e.key
    ensures var items := Moved(Set(s.items, k, e), k);
            && (Entries(items) == Use(Abs(s), e).items <==> !Cuts(s.items, k))
            && Use(Abs(s), e) == Abs(s).(items := Use(Abs(s), e).items)
            && (!Cuts(s.items, k) ==> Good(s.(items := items)))
  {
    var cells, es := Set(s.items, k, e), Entries(s.items);
    HitKeepsRecencyIff(cells, k);
    WithoutAt(es, k);
    assert Entries(cells) == es[k := e];
    assert Refreshed(es[k := e], k) == es[..k] + es[k + 1..] + [e];
    assert OwnBuckets(es[k := e]);
    RefreshedOwn(es[k := e], k);
  }

  lemma PushExact(s: Store<Cell>, e: Entry)
    requires Good(s) && BucketFree(Entries(s.items), e.key)
    ensures Abs(Pushed(s, e)) == Use(Abs(s), e) && Good(Pushed(s, e))
  {
    var es := Entries(s.items);
    assert forall i :: 0 <= i < |es| ==> es[i].key != e.key;
    WithoutAbsent(es, e.key);
    var cells := s.items + [Cell(e, false)];
    assert Entries(cells) == es + [e];
    assert OwnBuckets(es + [e]);
    if |cells| > s.maxSize {
      assert Entries(Evicted(cells)) == (es + [e])[1..];
    }
  }

  /**
   One operation, with no new key in an occupied bucket: the entries and their order are those of
   a least-recently-used cache exactly when the operation does not cut, and then all else agrees.
   */
  lemma StepExactIff(s: Store<Cell>, op: Op)
    requires Good(s) && InRegime(s, op)
    ensures Entries(Step(s, op).items) == LruStep(Abs(s), op).items <==> !CutsAt(s, op)
    ensures !CutsAt(s, op) ==> Abs(Step(s, op)) == LruStep(Abs(s), op) && Good(Step(s, op))
  {
    var k := Find(Entries(s.items), op.key);
    if k < |s.items| {
      var e := if op.Get? then s.items[k].entry else Entry(op.key, op.value);
      HitExact(s, k, e);
      assert op.Get? ==> Set(s.items, k, e) == s.items;
    } else if op.Put? {
      PushExact(s, Entry(op.key, op.value));
    }
  }

  /** Every run of gets and puts up to the first operation that cuts is that of an LRU cache. */
  lemma {:induction false} RunExact(s: Store<Cell>, ops: seq<Op>)
    requires Good(s) && SafeRun(s, ops)
    ensures Good(Run(s, ops)) && Abs(Run(s, ops)) == LruRun(Abs(s), ops)
    decreases |ops|
  {
    if ops != [] {
      StepExactIff(s, ops[0]);
      RunExact(Step(s, ops[0]), ops[1..]);
    }
  }

  lemma RunOfThree(s: Store<Cell>, a: Op, b: Op, c: Op)
    ensures Run(s, [a, b, c]) == Step(Step(Step(s, a), b), c)
    ensures InRegime(s, a) && !CutsAt(s, a)
            && InRegime(Step(s, a), b) && !CutsAt(Step(s, a), b)
            && InRegime(Step(Step(s, a), b), c) && !CutsAt(Step(Step(s, a), b), c)
            ==> SafeRun(s, [a, b, c])
  {
    assert [a, b, c][1..] == [b, c] && [b, c][1..] == [c] && [c][1..] == [];
    var s3 := Step(Step(Step(s, a), b), c);
    assert Run(s3, []) == s3 && SafeRun(s3, []);
    assert Run(Step(Step(s, a), b), [c]) == s3;
    assert Run(Step(s, a), [b, c]) == s3;
  }

  /** Three puts and a get of the middle key: the oldest entry drops out of the list. */
  lemma CutExample(maxSize: nat)
    requires maxSize >= 3
    ensures var puts, init := [Put(1, 0), Put(2, 0), Put(3, 0)], Empty<Cell>(maxSize);
            && SafeRun(init, puts) && CutsAt(Run(init, puts), Get(2))
            && Entries(Step(Run(init, puts), Get(2)).items) == [Entry(3, 0), Entry(2, 0)]
  {
    var s0 := Empty<Cell>(maxSize);
    var s1 := s0.(items := [Cell(Entry(1, 0), false)]);
    var s2 := s0.(items := s1.items + [Cell(Entry(2, 0), false)]);
    var s3 := s0.(items := s2.items + [Cell(Entry(3, 0), false)]);
    assert Step(s0, Put(1, 0)) == s1;
    assert Find(Entries(s1.items), 2) == 1;
    assert Step(s1, Put(2, 0)) == s2;
    assert Find(Entries(s2.items), 3) == 2;
    assert Step(s2, Put(3, 0)) == s3;
    assert Find(Entries(s3.items), 2) == 1;
    RunOfThree(s0, Put(1, 0), Put(2, 0), Put(3, 0));
  }

  /** No operation of any run cuts exactly when the cache holds at most two entries. */
  lemma NeverCutsIff(maxSize: nat)
    requires maxSize > 0
    ensures (forall ops, op :: SafeRun(Empty(maxSize), ops) && InRegime(Run(Empty(maxSize), ops), op)
                               ==> !CutsAt(Run(Empty(maxSize), ops), op))
            <==> maxSize <= 2
  {
    if maxSize <= 2 {
      forall ops, op | SafeRun(Empty(maxSize), ops) && InRegime(Run(Empty(maxSize), ops), op)
        ensures !CutsAt(Run(Empty(maxSize), ops), op)
      {
        RunExact(Empty(maxSize), ops);
        RunSize(Empty(maxSize), ops);
      }
    } else {
      CutExample(maxSize);
      assert InRegime(Run(Empty(maxSize), [Put(1, 0), Put(2, 0), Put(3, 0)]), Get(2));
    }
  }

  lemma {:induction false} RunSize(s: Store<Cell>, ops: seq<Op>)
    ensures Run(s, ops).maxSize == s.maxSize
    decreases |ops|
  {
    if ops != [] {
      RunSize(Step(s, ops[0]), ops[1..]);
    }
  }

  // ---------------------------------------------------------------- which entries are inside

  /** What an operation uses: the entry put, or the entry a get has hit. */
  ghost function Used(s: Store<Entry>, op: Op): seq<Entry> {
    match op
    case Get(key) => var k := Find(s.items, key); if k < |s.items| then [s.items[k]] else []
    case Put(key, value) => [Entry(key, value)]
  }

  ghost function AllUsed(s: Store<Entry>, ops: seq<Op>): seq<Entry>
    decreases |ops|
  {
    if ops == [] then [] else Used(s, ops[0]) + AllUsed(LruStep(s, ops[0]), ops[1..])
  }

  /** Every key used once, ordered by its last use. */
  ghost function Recent(used: seq<Entry>): seq<Entry> {
    if used == [] then []
    else Without(Recent(used[..|used| - 1]), used[|used| - 1].key) + [used[|used| - 1]]
  }

  function Latest<T>(items: seq<T>, n: nat): seq<T> {
    if |items| > n then items[|items| - n..] else items
  }

  lemma {:induction false} WithoutOwn(entries: seq<Entry>, key: int)
    requires OwnKeys(entries)
    ensures OwnKeys(Without(entries, key)) && |entries| - 1 <= |Without(entries, key)| <= |entries|
  {
    var k := Find(entries, key);
    if k < |entries| {
      WithoutAt(entries, k);
    } else {
      WithoutAbsent(entries, key);
    }
  }

  lemma {:induction false} RecentOwn(used: seq<Entry>)
    ensures OwnKeys(Recent(used))
  {
    if used != [] {
      RecentOwn(used[..|used| - 1]);
      WithoutOwn(Recent(used[..|used| - 1]), used[|used| - 1].key);
    }
  }

  lemma LatestJoin<T>(a: seq<T>, b: seq<T>, x: T, n: nat)
    requires a == [] || |b| + 1 >= n
    ensures Latest(a + b + [x], n) == Latest(b + [x], n)
  {
    if a == [] {
      assert a + b == b;
    } else {
      var ab, bx := a + b + [x], b + [x];
      assert ab[|ab| - n..] == bx[|bx| - n..];
    }
  }

  lemma UseDropsOne(s: Store<Entry>, e: Entry)
    requires |Without(s.items, e.key)| <= s.maxSize
    ensures Use(s, e).items == Latest(Without(s.items, e.key) + [e], s.maxSize)
  {
    var items := Without(s.items, e.key) + [e];
    assert |items| > s.maxSize ==> |items| - s.maxSize == 1;
  }

  lemma WithoutSplit(entries: seq<Entry>, n: nat, key: int)
    requires OwnKeys(entries) && n <= |entries|
    ensures Without(entries, key) == Without(entries[..n], key) + Without(entries[n..], key)
    ensures |entries| - n - 1 <= |Without(entries[n..], key)| <= |entries| - n
  {
    assert entries == entries[..n] + entries[n..];
    WithoutConcat(entries[..n], entries[n..], key);
    WithoutOwn(entries[n..], key);
  }

  lemma UseLatest(s: Store<Entry>, recent: seq<Entry>, e: Entry)
    requires s.maxSize > 0 && OwnKeys(recent) && s.items == Latest(recent, s.maxSize)
    ensures Use(s, e).items == Latest(Without(recent, e.key) + [e], s.maxSize)
  {
    var n := |recent| - |s.items|;
    assert s.items == recent[n..];
    WithoutSplit(recent, n, e.key);
    UseDropsOne(s, e);
    assert n == 0 ==> recent[..n] == [];
    LatestJoin(Without(recent[..n], e.key), Without(recent[n..], e.key), e, s.maxSize);
  }

  lemma StepLatest(s: Store<Entry>, used: seq<Entry>, op: Op)
    requires s.maxSize > 0 && s.items == Latest(Recent(used), s.maxSize)
    ensures LruStep(s, op).maxSize == s.maxSize
    ensures LruStep(s, op).items == Latest(Recent(used + Used(s, op)), s.maxSize)
  {
    if Used(s, op) == [] {
      assert used + [] == used;
    } else {
      var e := Used(s, op)[0];
      RecentOwn(used);
      UseLatest(s, Recent(used), e);
      assert (used + [e])[..|used|] == used;
    }
  }

  lemma Associate<T>(a: seq<T>, b: seq<T>, c: seq<T>)
    ensures (a + b) + c == a + (b + c)
  {
  }

  lemma {:induction false} RunLatest(s: Store<Entry>, used: seq<Entry>, ops: seq<Op>)
    requires s.maxSize > 0 && s.items == Latest(Recent(used), s.maxSize)
    ensures LruRun(s, ops).items == Latest(Recent(used + AllUsed(s, ops)), s.maxSize)
    decreases |ops|
  {
    if ops == [] {
      assert used + [] == used;
    } else {
      var now, later := Used(s, ops[0]), AllUsed(LruStep(s, ops[0]), ops[1..]);
      StepLatest(s, used, ops[0]);
      RunLatest(LruStep(s, ops[0]), used + now, ops[1..]);
      Associate(used, now, later);
    }
  }

  /** After any safe run from an empty cache it holds the `maxSize` entries used last, in that order. */
  lemma LastUsedInside(maxSize: nat, ops: seq<Op>)
    requires maxSize > 0 && SafeRun(Empty(maxSize), ops)
    ensures Entries(Run(Empty(maxSize), ops).items)
            == Latest(Recent(AllUsed(Empty(maxSize), ops)), maxSize)
  {
    assert Abs(Empty(maxSize)) == Empty(maxSize);
    RunExact(Empty(maxSize), ops);
    RunLatest(Empty(maxSize), [], ops);
    assert [] + AllUsed(Empty(maxSize), ops) == AllUsed(Empty(maxSize), ops);
  }

  // ---------------------------------------------------------------- a cyclic scan

  /** The key of access `i` in a cyclic scan over `k` keys. */
  function ScanKey(i: nat, k: nat): (key: nat)
    requires k > 0
    ensures key < k
  {
    i % k
  }

  /** The keys of the first `n` accesses. */
  ghost function Scanned(n: nat, k: nat): seq<int>
    requires k > 0
  {
    seq(n, i requires 0 <= i < n => ScanKey(i, k))
  }

  ghost function Keys(cells: seq<Cell>): seq<int> {
    seq(|cells|, i requires 0 <= i < |cells| => cells[i].entry.key)
  }

  /** With room for all keys every access after the first round hits; otherwise none ever does. */
  function ScanHits(n: nat, k: nat, maxSize: nat): nat {
    if maxSize >= k && n > k then n - k else 0
  }

  /** After `n` accesses: so many hits, the last keys inside, the others evicted. */
  ghost predicate ScannedSoFar(s: Store<Cell>, n: nat, k: nat)
    requires k > 0
  {
    && s.hits == ScanHits(n, k, s.maxSize) && s.misses == n - s.hits
    && s.evictions == (if s.maxSize < k && n > s.maxSize then n - s.maxSize else 0)
    && Keys(s.items) == Latest(Scanned(n, k), Min(s.maxSize, k))
  }

  lemma ScanKeysDiffer(i: nat, j: nat, k: nat)
    requires k > 0 && i < j < i + k
    ensures ScanKey(i, k) != ScanKey(j, k)
  {
    var a, b := i / k, j / k;
    assert i == k * a + i % k && j == k * b + j % k;
    if i % k == j % k {
      assert j - i == k * (b - a);
      NoMultipleBetween(k, b - a);
      assert false;
    }
  }

  lemma NoMultipleBetween(k: nat, d: int)
    requires k > 0
    ensures !(0 < k * d < k)
  {
  }

  lemma SmallKeys(a: nat, b: nat)
    requires a < TABLE_SIZE && b < TABLE_SIZE && a != b
    ensures Bucket(a) != Bucket(b)
  {
  }

  lemma ScanRepeats(n: nat, k: nat)
    requires 0 < k <= n
    ensures ScanKey(n - k, k) == ScanKey(n, k)
  {
    var a, b := (n - k) / k, n / k;
    assert n - k == k * a + (n - k) % k && n == k * b + n % k;
    assert k * (b - a - 1) == (n - k) % k - n % k;
    NoMultipleBetween(k, b - a - 1);
    NoMultipleBetween(k, a + 1 - b);
  }

  lemma ScanBucketFree(s: Store<Cell>, n: nat, k: nat)
    requires 0 < k <= TABLE_SIZE && (s.maxSize < k || n < k) && ScannedSoFar(s, n, k)
    ensures BucketFree(Entries(s.items), ScanKey(n, k))
  {
    forall i | 0 <= i < |s.items| ensures Bucket(s.items[i].entry.key) != Bucket(ScanKey(n, k)) {
      var j := n - |s.items| + i;
      assert s.items[i].entry.key == Keys(s.items)[i] == ScanKey(j, k);
      ScanKeysDiffer(j, n, k);
      SmallKeys(ScanKey(j, k), ScanKey(n, k));
    }
  }

  lemma ScanInserts(s: Store<Cell>, n: nat, k: nat, e: Entry)
    requires 0 < s.maxSize && 0 < k && (s.maxSize < k || n < k) && ScannedSoFar(s, n, k)
    requires e.key == ScanKey(n, k)
    ensures ScannedSoFar(Pushed(s, e).(misses := s.misses + 1), n + 1, k)
  {
    var cells := s.items + [Cell(e, false)];
    assert Keys(cells) == Keys(s.items) + [ScanKey(n, k)];
    assert |cells| > 1 ==> Keys(Evicted(cells)) == Keys(cells)[1..];
    assert Scanned(n + 1, k) == Scanned(n, k) + [ScanKey(n, k)];
  }

  lemma MissThenPut(s: Store<Cell>, e: Entry)
    requires e.key >= 0 && BucketFree(Entries(s.items), e.key)
    ensures var get, put := Get(e.key), Put(e.key, e.value);
            var s' := Step(s, get);
            && InRegime(s, get) && !CutsAt(s, get)
            && InRegime(s', put) && !CutsAt(s', put)
            && Step(s', put) == Pushed(s, e).(misses := s.misses + 1)
  {
    assert Find(Entries(s.items), e.key) == |s.items|;
  }

  /** An access to a key that is not inside: the get misses, the put inserts. */
  lemma ScanMiss(s: Store<Cell>, n: nat, k: nat, value: int)
    requires Good(s) && 0 < k <= TABLE_SIZE && (s.maxSize < k || n < k) && ScannedSoFar(s, n, k)
    ensures ScanGoesOn(s, n, k, value)
  {
    ScanBucketFree(s, n, k);
    ScanInserts(s, n, k, Entry(ScanKey(n, k), value));
    MissThenPut(s, Entry(ScanKey(n, k), value));
  }

  /** The oldest entry becomes the newest. */
  lemma RotatedKeys(items: seq<Cell>)
    requires items != []
    ensures Keys(Moved(items, 0)) == Keys(items)[1..] + [Keys(items)[0]]
  {
    if |items| > 1 {
      assert Keys(Unlinked(items, 0)) == Keys(items)[1..];
    }
  }

  /** The keys of the last `k` accesses, and how they change with the next. */
  lemma LastRound(n: nat, k: nat)
    requires 0 < k <= n
    ensures var last := Latest(Scanned(n, k), k);
            && |last| == k && (forall i :: 0 <= i < k ==> last[i] == ScanKey(n - k + i, k))
            && Latest(Scanned(n + 1, k), k) == last[1..] + [ScanKey(n, k)]
  {
  }

  lemma ScanRotates(s: Store<Cell>, n: nat, k: nat)
    requires 0 < k <= n && k <= s.maxSize && ScannedSoFar(s, n, k)
    ensures |s.items| == k && s.items[0].entry.key == ScanKey(n, k)
    ensures var keys := Keys(Moved(s.items, 0));
            && keys == Latest(Scanned(n + 1, k), k)
            && |keys| == k && keys[k - 1] == ScanKey(n, k)
            && forall i :: 0 <= i < k - 1 ==> keys[i] != ScanKey(n, k)
  {
    ScanRepeats(n, k);
    LastRound(n, k);
    LastRoundDiffers(n, k);
    assert Keys(s.items) == Latest(Scanned(n, k), k);
    assert Keys(s.items)[0] == ScanKey(n, k);
    RotatedKeys(s.items);
  }

  lemma LastRoundDiffers(n: nat, k: nat)
    requires 0 < k <= n
    ensures var keys := Latest(Scanned(n + 1, k), k);
            && |keys| == k && keys[k - 1] == ScanKey(n, k)
            && forall i :: 0 <= i < k - 1 ==> keys[i] != ScanKey(n, k)
  {
    LastRound(n + 1, k);
    var keys := Latest(Scanned(n + 1, k), k);
    forall i | 0 <= i < k - 1 ensures keys[i] != ScanKey(n, k) {
      ScanKeysDiffer(n + 1 - k + i, n, k);
    }
  }

  /** An access when all keys are inside: the get hits the oldest entry, the put the newest. */
  lemma ScanHit(s: Store<Cell>, n: nat, k: nat, value: int)
    requires Good(s) && 0 < k <= n && k <= s.maxSize && ScannedSoFar(s, n, k)
    ensures ScanGoesOn(s, n, k, value)
  {
    ScanRotates(s, n, k);
    var items, e := Moved(s.items, 0), Entry(ScanKey(n, k), value);
    FindIs(Entries(s.items), ScanKey(n, k), 0);
    forall i | 0 <= i < k - 1 ensures Entries(items)[i].key != ScanKey(n, k) {
      assert Keys(items)[i] != ScanKey(n, k);
    }
    assert Entries(items)[k - 1].key == Keys(items)[k - 1];
    FindIs(Entries(items), ScanKey(n, k), k - 1);
    assert Keys(Set(items, k - 1, e)) == Keys(items);
  }

  lemma {:induction false} FindIs(entries: seq<Entry>, key: int, i: nat)
    requires i < |entries| && entries[i].key == key && forall j :: 0 <= j < i ==> entries[j].key != key
    ensures Find(entries, key) == i
  {
  }

  /** A get and a put of the next key are performed soundly and lead to the next stage. */
  ghost predicate ScanGoesOn(s: Store<Cell>, n: nat, k: nat, value: int)
    requires k > 0
  {
    var get, put := Get(ScanKey(n, k)), Put(ScanKey(n, k), value);
    var s' := Step(s, get);
    && InRegime(s, get) && !CutsAt(s, get)
    && InRegime(s', put) && !CutsAt(s', put) && ScannedSoFar(Step(s', put), n + 1, k)
  }

  lemma ScanAccess(s: Store<Cell>, n: nat, k: nat, value: int)
    requires Good(s) && 0 < k <= TABLE_SIZE && ScannedSoFar(s, n, k)
    ensures ScanGoesOn(s, n, k, value)
  {
    if s.maxSize < k || n < k {
      ScanMiss(s, n, k, value);
    } else {
      ScanHit(s, n, k, value);
    }
  }
}
