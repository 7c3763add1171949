/**
 What a least-recently-used cache answers, said of the operations alone: no cache, no order of
 entries, only which keys were used since and what was last put. The cache of LruModel, and so the
 one in place, is proved to answer and count exactly so.
 */
module LruBehaviour {
  import opened Common
  import opened LruModel

  /** The value of the last put of the key. */
  ghost function LastPut(ops: seq<Op>, key: int): Option<int> {
    if ops == [] then None
    else
      var last := ops[|ops| - 1];
      if last.Put? && last.key == key then Some(last.value) else LastPut(ops[..|ops| - 1], key)
  }

  /** The keys used after the last use of `key`. */
  ghost function UsedSince(uses: seq<int>, key: int): set<int> {
    if uses == [] || uses[|uses| - 1] == key then {}
    else UsedSince(uses[..|uses| - 1], key) + {uses[|uses| - 1]}
  }

  /** The key was used, and fewer than `maxSize` other keys have been used since. */
  ghost predicate Recently(uses: seq<int>, key: int, maxSize: nat) {
    key in uses && |UsedSince(uses, key)| < maxSize
  }

  /** The keys that the operations use, in order: all keys put, and those got while recently used. */
  ghost function Uses(ops: seq<Op>, maxSize: nat): seq<int> {
    if ops == [] then []
    else
      var before, op := Uses(ops[..|ops| - 1], maxSize), ops[|ops| - 1];
      if op.Put? || Recently(before, op.key, maxSize) then before + [op.key] else before
  }

  /** What operation `i` should answer, given those before it. */
  ghost function Expected(ops: seq<Op>, i: nat, maxSize: nat): Option<int>
    requires i < |ops|
  {
    match ops[i]
    case Get(key) => if Recently(Uses(ops[..i], maxSize), key, maxSize) then LastPut(ops[..i], key) else None
    case Put(_, _) => None
  }

  /** How many operations are gets of a key recently used, other gets, and puts of other keys. */
  datatype Tally = Tally(hits: nat, misses: nat, inserts: nat)

  ghost function Count(ops: seq<Op>, maxSize: nat): Tally {
    if ops == [] then Tally(0, 0, 0)
    else
      var before, op := ops[..|ops| - 1], ops[|ops| - 1];
      var t, recent := Count(before, maxSize), Recently(Uses(before, maxSize), op.key, maxSize);
      match op
      case Get(_) => if recent then t.(hits := t.hits + 1) else t.(misses := t.misses + 1)
      case Put(_, _) => if recent then t else t.(inserts := t.inserts + 1)
  }

  // ---------------------------------------------------------------- the entries by recency

  ghost function KeySet(entries: seq<Entry>): set<int> { set e | e in entries :: e.key }

  lemma KeySetConcat(a: seq<Entry>, b: seq<Entry>)
    ensures KeySet(a + b) == KeySet(a) + KeySet(b)
  {
  }

  lemma {:induction false} KeySetSize(entries: seq<Entry>)
    requires OwnKeys(entries)
    ensures |KeySet(entries)| == |entries|
  {
    if entries != [] {
      var rest := entries[1..];
      KeySetSize(rest);
      KeySetConcat([entries[0]], rest);
      assert [entries[0]] + rest == entries;
      assert entries[0].key !in KeySet(rest);
      assert KeySet([entries[0]]) == {entries[0].key};
    }
  }

  /** Entry `i` was used, and the keys used since are those of the newer entries. */
  ghost predicate Ranked(items: seq<Entry>, uses: seq<int>, i: nat)
    requires i < |items|
  {
    items[i].key in uses && UsedSince(uses, items[i].key) == KeySet(items[i + 1..])
  }

  /** All entries are ranked, and every other key used has at least `size` keys used since. */
  ghost predicate Ranks(items: seq<Entry>, uses: seq<int>, size: nat) {
    && OwnKeys(items)
    && (forall i :: 0 <= i < |items| ==> Ranked(items, uses, i))
    && (forall key :: key in uses && key !in KeySet(items) ==> |UsedSince(uses, key)| >= size)
  }

  lemma FindInKeySet(items: seq<Entry>, key: int)
    ensures Find(items, key) < |items| <==> key in KeySet(items)
  {
    var k := Find(items, key);
    if k < |items| {
      assert items[k] in items;
    }
  }

  lemma RecentlyInside(items: seq<Entry>, uses: seq<int>, maxSize: nat, key: int)
    requires Ranks(items, uses, maxSize) && |items| <= maxSize
    ensures Recently(uses, key, maxSize) <==> Find(items, key) < |items|
  {
    var k := Find(items, key);
    FindInKeySet(items, key);
    if k < |items| {
      assert Ranked(items, uses, k);
      KeySetSize(items[k + 1..]);
    }
  }

  lemma UsedSinceAppend(uses: seq<int>, x: int, key: int)
    ensures UsedSince(uses + [x], key) == if x == key then {} else UsedSince(uses, key) + {x}
  {
    assert (uses + [x])[..|uses|] == uses;
  }

  /** The list without entry `k`, if there is one. */
  ghost function Rest(items: seq<Entry>, k: nat): seq<Entry> {
    if k < |items| then items[..k] + items[k + 1..] else items
  }

  lemma WithoutIsRest(items: seq<Entry>, key: int)
    requires OwnKeys(items)
    ensures Without(items, key) == Rest(items, Find(items, key))
  {
    if Find(items, key) < |items| {
      WithoutAt(items, Find(items, key));
    } else {
      WithoutAbsent(items, key);
    }
  }

  /** Where an entry goes when another one is used, and the keys behind it then. */
  lemma StaysBehind(items: seq<Entry>, e: Entry, k: nat, i: nat)
    requires i < |items| && i != k && k <= |items| && (k < |items| ==> items[k].key == e.key)
    ensures var all, i' := Rest(items, k) + [e], if i < k then i else i - 1;
            && 0 <= i' < |all| - 1 && all[i'] == items[i]
            && KeySet(all[i' + 1..]) == KeySet(items[i + 1..]) + {e.key}
  {
    if k == |items| {
      BehindNew(items, e, i);
    } else if i < k {
      BehindBoth(items, e, i, k);
    } else {
      BehindOlder(items, e, i, k);
    }
  }

  lemma BehindNew(items: seq<Entry>, e: Entry, i: nat)
    requires i < |items|
    ensures KeySet((items + [e])[i + 1..]) == KeySet(items[i + 1..]) + {e.key}
  {
    assert (items + [e])[i + 1..] == items[i + 1..] + [e];
    KeySetConcat(items[i + 1..], [e]);
    assert KeySet([e]) == {e.key};
  }

  lemma BehindOlder(items: seq<Entry>, e: Entry, i: nat, k: nat)
    requires k < i < |items|
    ensures KeySet((items[..k] + items[k + 1..] + [e])[i..]) == KeySet(items[i + 1..]) + {e.key}
  {
    assert (items[..k] + items[k + 1..] + [e])[i..] == items[i + 1..] + [e];
    KeySetConcat(items[i + 1..], [e]);
    assert KeySet([e]) == {e.key};
  }

  lemma BehindBoth(items: seq<Entry>, e: Entry, i: nat, k: nat)
    requires i < k < |items| && items[k].key == e.key
    ensures KeySet((items[..k] + items[k + 1..] + [e])[i + 1..]) == KeySet(items[i + 1..]) + {e.key}
  {
    var a, b := items[i + 1..k], items[k + 1..];
    assert (items[..k] + b + [e])[i + 1..] == a + b + [e];
    assert items[i + 1..] == a + ([items[k]] + b);
    KeySetConcat(a + b, [e]);
    KeySetConcat(a, b);
    KeySetConcat(a, [items[k]] + b);
    KeySetConcat([items[k]], b);
    assert KeySet([items[k]]) == {e.key} == KeySet([e]);
  }

  /** Entry `i` of the list after the use was entry `i` or `i + 1` before, unless it is the one used. */
  lemma WasBefore(items: seq<Entry>, e: Entry, i: nat)
    requires OwnKeys(items) && i < |Without(items, e.key)|
    ensures var k := Find(items, e.key);
            var j := if i < k then i else i + 1;
            j < |items| && j != k && items[j].key != e.key && Without(items, e.key)[i] == items[j]
  {
    WithoutIsRest(items, e.key);
  }

  lemma RankMoves(items: seq<Entry>, uses: seq<int>, e: Entry, k: nat, j: nat)
    requires k <= |items| && j < |items| && j != k && items[j].key != e.key && Ranked(items, uses, j)
    requires k < |items| ==> items[k].key == e.key
    ensures (if j < k then j else j - 1) < |Rest(items, k)|
    ensures Ranked(Rest(items, k) + [e], uses + [e.key], if j < k then j else j - 1)
  {
    StaysBehind(items, e, k, j);
    UsedSinceAppend(uses, e.key, items[j].key);
  }

  lemma RankedAfterUse(items: seq<Entry>, uses: seq<int>, size: nat, e: Entry, i: nat)
    requires Ranks(items, uses, size) && i <= |Without(items, e.key)|
    ensures Ranked(Without(items, e.key) + [e], uses + [e.key], i)
  {
    var kept, k := Without(items, e.key), Find(items, e.key);
    if i == |kept| {
      UsedSinceAppend(uses, e.key, e.key);
      assert (kept + [e])[i + 1..] == [];
    } else {
      WasBefore(items, e, i);
      WithoutIsRest(items, e.key);
      assert Ranked(items, uses, if i < k then i else i + 1);
      RankMoves(items, uses, e, k, if i < k then i else i + 1);
    }
  }

  lemma {:induction false} WithoutKeys(items: seq<Entry>, key: int)
    ensures KeySet(Without(items, key)) == KeySet(items) - {key}
  {
    if items != [] {
      WithoutKeys(items[1..], key);
      var first := if items[0].key == key then [] else [items[0]];
      KeySetConcat(first, Without(items[1..], key));
      KeySetConcat([items[0]], items[1..]);
      assert [items[0]] + items[1..] == items;
      assert KeySet([items[0]]) == {items[0].key};
    }
  }

  lemma UseOwn(items: seq<Entry>, e: Entry)
    requires OwnKeys(items)
    ensures OwnKeys(Without(items, e.key) + [e])
  {
    WithoutOwn(items, e.key);
  }

  lemma UseRanks(items: seq<Entry>, uses: seq<int>, size: nat, e: Entry)
    requires Ranks(items, uses, size)
    ensures Ranks(Without(items, e.key) + [e], uses + [e.key], size)
  {
    var all, uses' := Without(items, e.key) + [e], uses + [e.key];
    UseOwn(items, e);
    WithoutKeys(items, e.key);
    KeySetConcat(Without(items, e.key), [e]);
    assert KeySet([e]) == {e.key};
    forall i | 0 <= i < |all| ensures Ranked(all, uses', i) {
      RankedAfterUse(items, uses, size, e, i);
    }
    forall key | key in uses' && key !in KeySet(all) ensures |UsedSince(uses', key)| >= size {
      UsedSinceAppend(uses, e.key, key);
      SubsetSize(UsedSince(uses, key), UsedSince(uses', key));
    }
  }

  lemma SubsetSize(a: set<int>, b: set<int>)
    requires a <= b
    ensures |a| <= |b|
  {
    assert b == a + (b - a);
    assert |a + (b - a)| == |a| + |b - a|;
  }

  lemma DropRanks(all: seq<Entry>, uses: seq<int>, size: nat)
    requires Ranks(all, uses, size) && |all| == size + 1
    ensures Ranks(all[1..], uses, size)
  {
    var items := all[1..];
    forall i | 0 <= i < |items| ensures Ranked(items, uses, i) {
      assert Ranked(all, uses, i + 1);
      assert items[i + 1..] == all[(i + 1) + 1..];
    }
    assert OwnKeys(items);
    assert Ranked(all, uses, 0);
    forall key | key in uses && key !in KeySet(items) ensures |UsedSince(uses, key)| >= size {
      DroppedRank(all, uses, size, key);
    }
  }

  lemma DroppedRank(all: seq<Entry>, uses: seq<int>, size: nat, key: int)
    requires |all| == size + 1 && OwnKeys(all[1..]) && Ranked(all, uses, 0)
    requires key !in KeySet(all) ==> |UsedSince(uses, key)| >= size
    requires key !in KeySet(all[1..])
    ensures |UsedSince(uses, key)| >= size
  {
    var items := all[1..];
    if key == all[0].key {
      KeySetSize(items);
    } else {
      KeySetConcat([all[0]], items);
      assert [all[0]] + items == all && KeySet([all[0]]) == {all[0].key};
    }
  }

  // ---------------------------------------------------------------- the cache does just that

  /** The entries hold the values last put. */
  ghost predicate Current(items: seq<Entry>, done: seq<Op>) {
    forall i :: 0 <= i < |items| ==> LastPut(done, items[i].key) == Some(items[i].value)
  }

  ghost predicate Counted(s: Store<Entry>, done: seq<Op>) {
    var t := Count(done, s.maxSize);
    s.hits == t.hits && s.misses == t.misses && s.evictions + |s.items| == t.inserts
  }

  /** The cache is as the operations done call for. */
  ghost predicate Tracks(s: Store<Entry>, done: seq<Op>) {
    && |s.items| <= s.maxSize
    && Ranks(s.items, Uses(done, s.maxSize), s.maxSize)
    && Current(s.items, done) && Counted(s, done)
  }

  lemma LastPutAppend(done: seq<Op>, op: Op, key: int)
    ensures LastPut(done + [op], key)
            == if op.Put? && op.key == key then Some(op.value) else LastPut(done, key)
  {
    assert (done + [op])[..|done|] == done;
  }

  lemma UsesAppend(done: seq<Op>, op: Op, maxSize: nat)
    ensures var before := Uses(done, maxSize);
            Uses(done + [op], maxSize)
            == if op.Put? || Recently(before, op.key, maxSize) then before + [op.key] else before
  {
    assert (done + [op])[..|done|] == done;
  }

  lemma CountAppend(done: seq<Op>, op: Op, maxSize: nat)
    ensures var t, recent := Count(done, maxSize), Recently(Uses(done, maxSize), op.key, maxSize);
            Count(done + [op], maxSize)
            == if op.Get? then if recent then t.(hits := t.hits + 1) else t.(misses := t.misses + 1)
               else if recent then t else t.(inserts := t.inserts + 1)
  {
    assert (done + [op])[..|done|] == done;
  }

  /** How the number of entries changes with a use. */
  lemma UseSize(s: Store<Entry>, e: Entry)
    requires OwnKeys(s.items) && 0 < s.maxSize && |s.items| <= s.maxSize
    ensures var s', known := Use(s, e), Find(s.items, e.key) < |s.items|;
            && |s'.items| <= s.maxSize && s'.hits == s.hits && s'.misses == s.misses && s'.maxSize == s.maxSize
            && s'.evictions + |s'.items| == s.evictions + |s.items| + (if known then 0 else 1)
  {
    var k := Find(s.items, e.key);
    if k < |s.items| {
      WithoutAt(s.items, k);
    } else {
      WithoutAbsent(s.items, e.key);
    }
  }

  lemma UseTracksRanks(s: Store<Entry>, uses: seq<int>, e: Entry)
    requires 0 < s.maxSize && |s.items| <= s.maxSize && Ranks(s.items, uses, s.maxSize)
    ensures Ranks(Use(s, e).items, uses + [e.key], s.maxSize)
  {
    UseRanks(s.items, uses, s.maxSize, e);
    UseSize(s, e);
    var all := Without(s.items, e.key) + [e];
    if |all| > s.maxSize {
      DropRanks(all, uses + [e.key], s.maxSize);
    }
  }

  lemma UseCurrent(s: Store<Entry>, done: seq<Op>, op: Op, e: Entry)
    requires OwnKeys(s.items) && Current(s.items, done) && e.key == op.key
    requires LastPut(done + [op], e.key) == Some(e.value)
    ensures Current(Use(s, e).items, done + [op])
  {
    var kept := Without(s.items, e.key);
    forall i | 0 <= i < |kept| ensures LastPut(done + [op], kept[i].key) == Some(kept[i].value) {
      WasBefore(s.items, e, i);
      LastPutAppend(done, op, kept[i].key);
    }
    assert Current(kept + [e], done + [op]);
  }

  /** The entry an operation uses, if it uses one. */
  ghost function UsedBy(s: Store<Entry>, op: Op): Entry
    requires op.Put? || Find(s.items, op.key) < |s.items|
  {
    if op.Put? then Entry(op.key, op.value) else s.items[Find(s.items, op.key)]
  }

  lemma TracksUse(s: Store<Entry>, done: seq<Op>, op: Op)
    requires 0 < s.maxSize && Tracks(s, done) && (op.Put? || Find(s.items, op.key) < |s.items|)
    ensures Tracks(LruStep(s, op), done + [op])
  {
    var e := UsedBy(s, op);
    RecentlyInside(s.items, Uses(done, s.maxSize), s.maxSize, op.key);
    UsesAppend(done, op, s.maxSize);
    CountAppend(done, op, s.maxSize);
    LastPutAppend(done, op, op.key);
    UseTracksRanks(s, Uses(done, s.maxSize), e);
    UseSize(s, e);
    UseCurrent(s, done, op, e);
  }

  lemma TracksMiss(s: Store<Entry>, done: seq<Op>, op: Op)
    requires Tracks(s, done) && op.Get? && Find(s.items, op.key) == |s.items|
    ensures Tracks(LruStep(s, op), done + [op])
  {
    RecentlyInside(s.items, Uses(done, s.maxSize), s.maxSize, op.key);
    UsesAppend(done, op, s.maxSize);
    CountAppend(done, op, s.maxSize);
    forall i | 0 <= i < |s.items| ensures LastPut(done + [op], s.items[i].key) == Some(s.items[i].value) {
      LastPutAppend(done, op, s.items[i].key);
    }
  }

  lemma {:induction false} RunTracks(s: Store<Entry>, done: seq<Op>, ops: seq<Op>)
    requires 0 < s.maxSize && Tracks(s, done)
    ensures Tracks(LruRun(s, ops), done + ops) && LruRun(s, ops).maxSize == s.maxSize
    decreases |ops|
  {
    if ops == [] {
      assert done + ops == done;
    } else {
      StepTracks(s, done, ops[0]);
      RunTracks(LruStep(s, ops[0]), done + [ops[0]], ops[1..]);
      assert (done + [ops[0]]) + ops[1..] == done + ops;
    }
  }

  lemma StepTracks(s: Store<Entry>, done: seq<Op>, op: Op)
    requires 0 < s.maxSize && Tracks(s, done)
    ensures Tracks(LruStep(s, op), done + [op]) && LruStep(s, op).maxSize == s.maxSize
  {
    if op.Put? || Find(s.items, op.key) < |s.items| {
      TracksUse(s, done, op);
    } else {
      TracksMiss(s, done, op);
    }
  }

  /** A get answers the value last put if the key is recently used, and nothing else. */
  lemma AnswerExact(s: Store<Entry>, done: seq<Op>, op: Op)
    requires 0 < s.maxSize && Tracks(s, done)
    ensures Answer(s.items, op)
            == if op.Get? && Recently(Uses(done, s.maxSize), op.key, s.maxSize) then LastPut(done, op.key) else None
  {
    RecentlyInside(s.items, Uses(done, s.maxSize), s.maxSize, op.key);
  }

  lemma {:induction false} AnswersExact(s: Store<Entry>, done: seq<Op>, ops: seq<Op>)
    requires 0 < s.maxSize && Tracks(s, done)
    ensures |LruAnswers(s, ops)| == |ops|
    ensures forall i :: 0 <= i < |ops| ==> LruAnswers(s, ops)[i] == Expected(done + ops, |done| + i, s.maxSize)
    decreases |ops|
  {
    if ops != [] {
      var s1 := LruStep(s, ops[0]);
      AnswerExact(s, done, ops[0]);
      StepTracks(s, done, ops[0]);
      AnswersExact(s1, done + [ops[0]], ops[1..]);
      assert (done + [ops[0]]) + ops[1..] == done + ops;
      assert (done + ops)[..|done|] == done;
      forall i | 0 <= i < |ops| ensures LruAnswers(s, ops)[i] == Expected(done + ops, |done| + i, s.maxSize) {
        if i > 0 {
          assert LruAnswers(s1, ops[1..])[i - 1] == Expected(done + ops, |done + [ops[0]]| + (i - 1), s.maxSize);
        }
      }
    }
  }

  /**
   An LRU cache from empty: every get answers the value last put for its key if fewer than
   `maxSize` other keys have been used since its last use, and nothing otherwise; hits and misses
   are these two kinds of gets, and every new key is still inside or was evicted.
   */
  lemma LruExact(maxSize: nat, ops: seq<Op>)
    requires maxSize > 0
    ensures |LruAnswers(Empty(maxSize), ops)| == |ops|
    ensures forall i :: 0 <= i < |ops| ==> LruAnswers(Empty(maxSize), ops)[i] == Expected(ops, i, maxSize)
    ensures var s, t := LruRun(Empty(maxSize), ops), Count(ops, maxSize);
            s.hits == t.hits && s.misses == t.misses && s.evictions + |s.items| == t.inserts
  {
    var s := Empty<Entry>(maxSize);
    assert Tracks(s, []);
    AnswersExact(s, [], ops);
    RunTracks(s, [], ops);
    assert [] + ops == ops;
  }
}
