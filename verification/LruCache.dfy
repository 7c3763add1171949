/**
 The cache of 06_storage/lru_cache/lru_cache.c in place: nodes with `prev` and `next` fields, a
 table of buckets, head and tail. It is proved to follow LruModel as long as no new key is put
 into an occupied bucket, and what a cutting hit leaves behind is stated too.
 */
module LruCache {
  import opened Common
  import opened LruModel
  import opened LruBehaviour

  class Node {
    const key: int
    var value: int
    var prev: Node?
    var next: Node?

    constructor (key: int, value: int)
      ensures this.key == key && this.value == value && this.prev == null
    {
      this.key, this.value, this.prev, this.next := key, value, null, null;
    }
  }

  function NodeAt(order: seq<Node>, i: int): Node? { if 0 <= i < |order| then order[i] else null }

  /** Node `i` holds its cell; `prev` is the next newer node, `next` NULL or the next older one. */
  ghost predicate At(order: seq<Node>, cells: seq<Cell>, i: nat)
    requires i < |order| == |cells|
    reads order[i]
  {
    && Entry(order[i].key, order[i].value) == cells[i].entry
    && order[i].prev == NodeAt(order, i + 1)
    && order[i].next == if cells[i].linked then NodeAt(order, i - 1) else null
  }

  ghost predicate Differ(order: seq<Node>, i: nat, j: nat)
    requires i < |order| && j < |order|
  {
    order[i] != order[j]
  }

  ghost predicate Distinct(order: seq<Node>) {
    forall i, j :: 0 <= i < j < |order| ==> Differ(order, i, j)
  }

  lemma Same(order: seq<Node>, i: nat, j: nat)
    requires Distinct(order) && i < |order| && j < |order|
    ensures order[i] == order[j] <==> i == j
  {
    assert i < j ==> Differ(order, i, j);
    assert j < i ==> Differ(order, j, i);
  }

  /** Following `prev` from `first` visits exactly `order`. */
  ghost predicate PrevChain(first: Node?, order: seq<Node>)
    reads order
  {
    first == NodeAt(order, 0) && forall i :: 0 <= i < |order| ==> order[i].prev == NodeAt(order, i + 1)
  }

  lemma PrevChainRest(first: Node?, order: seq<Node>)
    requires PrevChain(first, order) && order != []
    ensures PrevChain(order[0].prev, order[1..])
  {
    var rest := order[1..];
    forall i | 0 <= i < |rest| ensures rest[i].prev == NodeAt(rest, i + 1) {
      assert rest[i] == order[i + 1];
    }
  }

  /** So the list is determined by the nodes' fields. */
  lemma {:induction false} PrevChainUnique(first: Node?, a: seq<Node>, b: seq<Node>)
    requires PrevChain(first, a) && PrevChain(first, b)
    ensures a == b
  {
    if a != [] && b != [] {
      PrevChainRest(first, a);
      PrevChainRest(first, b);
      PrevChainUnique(first.prev, a[1..], b[1..]);
      assert a == [a[0]] + a[1..] && b == [b[0]] + b[1..];
    }
  }

  /** The nodes that stay in the list when node `k` is taken out. */
  ghost function Remaining(order: seq<Node>, cells: seq<Cell>, k: nat): seq<Node>
    requires k < |order| - 1 && |cells| == |order|
  {
    if Cuts(cells, k) then order[k + 1..] else order[..k] + order[k + 1..]
  }

  lemma RemainingDistinct(order: seq<Node>, cells: seq<Cell>, k: nat)
    requires k < |order| - 1 && |cells| == |order| && Distinct(order)
    ensures Distinct(Remaining(order, cells, k)) && order[k] !in Remaining(order, cells, k)
  {
    var rest := Remaining(order, cells, k);
    forall i, j | 0 <= i < j < |rest| ensures Differ(rest, i, j) {
      Same(order, Before(cells, k, i), Before(cells, k, j));
    }
    forall i | 0 <= i < |rest| ensures rest[i] != order[k] {
      Same(order, Before(cells, k, i), k);
    }
  }

  lemma RestDistinct(order: seq<Node>)
    requires Distinct(order) && order != []
    ensures Distinct(order[1..]) && order[0] !in order[1..]
  {
    var rest := order[1..];
    forall i, j | 0 <= i < j < |rest| ensures Differ(rest, i, j) {
      Same(order, i + 1, j + 1);
    }
    forall i | 0 <= i < |rest| ensures rest[i] != order[0] {
      Same(order, i + 1, 0);
    }
  }

  ghost function Reordered(order: seq<Node>, cells: seq<Cell>, k: nat): seq<Node>
    requires k < |order| == |cells|
  {
    if k == |order| - 1 then order else Remaining(order, cells, k) + [order[k]]
  }

  /** Where entry `i` of the shortened list was, and what its neighbours were. */
  ghost function Before(cells: seq<Cell>, k: nat, i: nat): nat
    requires k < |cells| - 1
  {
    if Cuts(cells, k) then i + k + 1 else if i < k then i else i + 1
  }

  lemma RemainingAt(order: seq<Node>, cells: seq<Cell>, k: nat, i: nat)
    requires k < |order| - 1 && |cells| == |order| && i < |Remaining(order, cells, k)|
    ensures var rest, j := Remaining(order, cells, k), Before(cells, k, i);
            && j < |order| && j != k && rest[i] == order[j]
            && NodeAt(rest, i + 1) == NodeAt(order, if j + 1 == k then k + 1 else j + 1)
            && NodeAt(rest, i - 1) == (if j != k + 1 then NodeAt(order, j - 1)
                                       else if Cuts(cells, k) then null else NodeAt(order, k - 1))
            && Unlinked(cells, k)[i] == if j == k + 1 then cells[j].(linked := cells[k].linked) else cells[j]
    ensures Cuts(cells, k) ==> Before(cells, k, i) > k
  {
  }

  /** Node `j` after the neighbours of node `k` were pointed past it. */
  ghost predicate PointsPast(order: seq<Node>, cells: seq<Cell>, k: nat, j: nat)
    requires j < |order| == |cells| && k < |order| - 1
    reads order[j]
  {
    && Entry(order[j].key, order[j].value) == cells[j].entry
    && order[j].prev == NodeAt(order, if j + 1 == k && cells[k].linked then k + 1 else j + 1)
    && order[j].next == if j == k + 1 then (if cells[k].linked then NodeAt(order, k - 1) else null)
                        else if cells[j].linked then NodeAt(order, j - 1) else null
  }

  lemma RestAt(order: seq<Node>, cells: seq<Cell>, k: nat, i: nat)
    requires k < |order| - 1 && |cells| == |order| && i < |Remaining(order, cells, k)|
    requires !cells[0].linked
    requires Before(cells, k, i) < |order| && PointsPast(order, cells, k, Before(cells, k, i))
    ensures At(Remaining(order, cells, k), Unlinked(cells, k), i)
  {
    RemainingAt(order, cells, k, i);
  }

  lemma ReorderedIff(order: seq<Node>, cells: seq<Cell>, k: nat)
    requires k < |order| == |cells|
    ensures Reordered(order, cells, k) == Refreshed(order, k) <==> !Cuts(cells, k)
  {
    if Cuts(cells, k) {
      assert |Reordered(order, cells, k)| < |Refreshed(order, k)|;
    }
  }

  lemma ReorderedMembers(order: seq<Node>, cells: seq<Cell>, k: nat)
    requires k < |order| == |cells|
    ensures forall x :: x in Reordered(order, cells, k) ==> x in order
    ensures !Cuts(cells, k) ==> forall x :: x in order ==> x in Reordered(order, cells, k)
  {
    if !Cuts(cells, k) && k < |order| - 1 {
      var r := Reordered(order, cells, k);
      forall i | 0 <= i < |order| ensures order[i] in r {
        assert r[if i < k then i else if i == k then |r| - 1 else i - 1] == order[i];
      }
    }
  }

  class Cache {
    var head: Node?
    var tail: Node?
    const maxSize: nat
    var currentSize: nat
    const table: array<Node?>
    var hits: nat
    var misses: nat
    var evictions: nat

    ghost var order: seq<Node>  // the list from tail to head
    ghost var cells: seq<Cell>  // what the nodes hold

    /** Head, tail and the nodes' fields agree on `order` and `cells`. */
    ghost predicate List()
      reads this`head, this`tail, this`order, this`cells, order
    {
      && |order| == |cells|
      && tail == NodeAt(order, 0) && head == NodeAt(order, |order| - 1)
      && (cells != [] ==> !cells[0].linked)
      && Distinct(order)
      && forall i :: 0 <= i < |order| ==> At(order, cells, i)
    }

    /** The table has exactly the given nodes, each alone in its bucket. */
    ghost predicate Indexes(nodes: seq<Node>)
      reads this`currentSize, table
    {
      && table.Length == TABLE_SIZE && currentSize == |nodes|
      && (forall x :: x in nodes ==> x.key >= 0 && table[Bucket(x.key)] == x)
      && (forall b :: 0 <= b < TABLE_SIZE && table[b] != null ==>
            table[b] in nodes && Bucket(table[b].key) == b)
    }

    ghost predicate Valid()
      reads this`head, this`tail, this`order, this`cells, this`currentSize, table, order
    {
      0 < maxSize && |order| <= maxSize && List() && Indexes(order)
    }

    ghost function Model(): Store<Cell>
      reads this
    {
      Store(cells, maxSize, hits, misses, evictions)
    }

    lemma IsGood()
      requires Valid()
      ensures Good(Model())
    {
      var es := Entries(cells);
      forall i, j | 0 <= i < j < |es| ensures Bucket(es[i].key) != Bucket(es[j].key) {
        assert At(order, cells, i) && At(order, cells, j);
        assert order[i] in order && order[j] in order;
        Same(order, i, j);
      }
    }

    constructor (maxSize: nat)
      requires maxSize > 0
      ensures Valid() && fresh(table) && order == [] && Model() == Empty(maxSize)
    {
      table := new Node?[TABLE_SIZE](_ => null);
      head, tail := null, null;
      this.maxSize := maxSize;
      currentSize, hits, misses, evictions := 0, 0, 0, 0;
      order, cells := [], [];
    }

    ghost predicate Absent(key: int)
      reads this
    {
      forall x :: x in order ==> x.key != key
    }

    lemma AbsentNotFound(key: int)
      requires List() && Absent(key)
      ensures Find(Entries(cells), key) == |order|
    {
      forall i | 0 <= i < |order| ensures Entries(cells)[i].key != key {
        assert At(order, cells, i);
        assert order[i] in order;
      }
    }

    lemma PresentFound(key: int, i: nat)
      requires Valid() && i < |order| && order[i].key == key
      ensures Find(Entries(cells), key) == i
    {
      var k := Find(Entries(cells), key);
      assert At(order, cells, i);
      assert k < |order|;
      assert At(order, cells, k);
      assert order[i] in order && order[k] in order;
      Same(order, i, k);
    }

    /** A walk along `next` may leave the bucket and follow the recency list, always to older nodes. */
    method FindNode(key: int) returns (node: Node?)
      requires Valid() && key >= 0
      ensures node == NodeAt(order, Find(Entries(cells), key))
    {
      var hash := Bucket(key);
      node := table[hash];
      ghost var i := -1;
      if node != null {
        i :| 0 <= i < |order| && order[i] == node;
      }
      while node != null
        invariant node != null ==> 0 <= i < |order| && node == order[i]
        invariant node != table[hash] || node == null ==> Absent(key)
        decreases if node == null then -1 else i
      {
        assert At(order, cells, i);
        if node.key == key {
          PresentFound(key, i);
          return;
        }
        node := node.next;
        i := i - 1;
      }
      AbsentNotFound(key);
    }

    /** The neighbours of the node, which is not the head, are pointed past it. */
    method PointPast(node: Node, ghost k: nat)
      requires List() && k < |order| - 1 && node == order[k]
      modifies this`tail, order
      ensures tail == if cells[k].linked then old(tail) else order[k + 1]
      ensures forall j :: 0 <= j < |order| ==> PointsPast(order, cells, k, j)
    {
      assert At(order, cells, k);
      Same(order, k, k + 1);
      node.prev.next := node.next;
      if node.next != null {
        Same(order, k, k - 1);
        node.next.prev := node.prev;
      } else {
        tail := node.prev;
      }
      forall j | 0 <= j < |order| ensures PointsPast(order, cells, k, j) {
        assert old(At(order, cells, j));
        Same(order, j, k + 1);
        if cells[k].linked {
          Same(order, j, k - 1);
        }
      }
    }

    /** The first half of move_to_front, for a node that is not the head. */
    method Unlink(node: Node, ghost k: nat)
      requires List() && k < |order| - 1 && node == order[k]
      modifies this`tail, this`order, this`cells, order
      ensures List() && order == Remaining(old(order), old(cells), k) && cells == Unlinked(old(cells), k)
      ensures node !in order && node.value == old(node.value)
    {
      assert At(order, cells, k);
      PointPast(node, k);
      assert PointsPast(order, cells, k, k);
      ghost var was, had := order, cells;
      order, cells := Remaining(order, cells, k), Unlinked(cells, k);
      RemainingDistinct(was, had, k);
      forall i | 0 <= i < |order| ensures At(order, cells, i) {
        assert PointsPast(was, had, k, Before(had, k, i));
        RestAt(was, had, k, i);
      }
    }

    /** The second half: the node becomes the head. */
    method PushFront(node: Node)
      requires List() && node !in order
      modifies this`head, this`tail, this`order, this`cells, order, node
      ensures List() && order == old(order) + [node]
      ensures cells == old(cells) + [Cell(Entry(node.key, old(node.value)), old(order) != [])]
    {
      node.prev := null;
      node.next := head;
      if head != null {
        head.prev := node;
      }
      head := node;
      if tail == null {
        tail := node;
      }
      cells := cells + [Cell(Entry(node.key, node.value), order != [])];
      order := order + [node];
      forall i | 0 <= i < |order| ensures At(order, cells, i) {
        if i < |order| - 1 {
          assert old(At(order, cells, i));
          Same(old(order), i, old(|order|) - 1);
        }
      }
      forall i, j | 0 <= i < j < |order| ensures Differ(order, i, j) {
        if j < |order| - 1 {
          Same(old(order), i, j);
        }
      }
    }

    /**
     The node becomes the newest and all others stay, exactly when it was the oldest, the newest, or
     has a `next`. Otherwise every older node drops out of the list.
     */
    method MoveToFront(node: Node, ghost k: nat)
      requires List() && k < |order| && node == order[k]
      modifies this`head, this`tail, this`order, this`cells, order
      ensures List() && order == Reordered(old(order), old(cells), k) && cells == Moved(old(cells), k)
      ensures PrevChain(tail, Refreshed(old(order), k))
              <==> k == 0 || k == old(|order|) - 1 || old(node.next) != null
    {
      assert At(order, cells, k);
      ReorderedIff(order, cells, k);
      if node.prev != null {
        assert k < |order| - 1;
        Unlink(node, k);
        PushFront(node);
      }
      ListIsPrevChain(Refreshed(old(order), k));
    }

    lemma ListIsPrevChain(other: seq<Node>)
      requires List()
      ensures PrevChain(tail, other) <==> other == order
    {
      forall i | 0 <= i < |order| ensures order[i].prev == NodeAt(order, i + 1) {
        assert At(order, cells, i);
      }
      if PrevChain(tail, other) {
        PrevChainUnique(tail, other, order);
      }
    }

    /** The answer is right even if the hit cuts the list; if it does not, the cache stays sound. */
    method Get(key: int) returns (r: Option<int>)
      requires Valid() && key >= 0
      modifies this`head, this`tail, this`hits, this`misses, this`order, this`cells, order
      ensures r == Answer(Entries(old(cells)), Op.Get(key))
      ensures forall i :: 0 <= i < |old(cells)| && old(cells)[i].entry.key == key ==>
                r == Some(old(cells)[i].entry.value)
      ensures (forall i :: 0 <= i < |old(cells)| ==> old(cells)[i].entry.key != key) ==> r == None
      ensures List() && Model() == Step(old(Model()), Op.Get(key))
      ensures !CutsAt(old(Model()), Op.Get(key)) ==> Valid()
      ensures forall x :: x in order ==> x in old(order)
      ensures Find(Entries(old(cells)), key) == |old(order)| ==> order == old(order)
    {
      IsGood();
      AnswerIs(Entries(cells), key);
      var node := FindNode(key);
      if node == null {
        Miss(key);
        r := None;
      } else {
        r := Hit(key, node);
      }
    }

    method Miss(ghost key: int)
      requires Find(Entries(cells), key) == |cells|
      modifies this`misses
      ensures Model() == Step(old(Model()), Op.Get(key))
    {
      misses := misses + 1;
    }

    method Hit(ghost key: int, node: Node) returns (r: Option<int>)
      requires Valid() && node == NodeAt(order, Find(Entries(cells), key))
      modifies this`head, this`tail, this`hits, this`order, this`cells, order
      ensures r == Answer(Entries(old(cells)), Op.Get(key))
      ensures List() && Model() == Step(old(Model()), Op.Get(key))
      ensures !CutsAt(old(Model()), Op.Get(key)) ==> Valid()
      ensures forall x :: x in order ==> x in old(order)
    {
      Touch(node, Find(Entries(cells), key));
      hits := hits + 1;
      r := Some(node.value);
    }

    lemma StaysIndexed(k: nat)
      requires Indexes(order) && k < |order| == |cells| && !Cuts(cells, k)
      ensures Indexes(Reordered(order, cells, k))
    {
      ReorderedMembers(order, cells, k);
    }

    method Touch(node: Node, ghost k: nat)
      requires Valid() && k < |order| && node == order[k]
      modifies this`head, this`tail, this`order, this`cells, order
      ensures List() && cells == Moved(old(cells), k) && node.value == old(cells)[k].entry.value
      ensures !Cuts(old(cells), k) ==> Valid()
      ensures forall x :: x in order ==> x in old(order)
    {
      ReorderedMembers(order, cells, k);
      if !Cuts(cells, k) {
        StaysIndexed(k);
      }
      MoveToFront(node, k);
      assert At(order, cells, |order| - 1);
    }

    /** A present key gets its value and counts as used. */
    method Update(node: Node, value: int, ghost k: nat)
      requires Valid() && k < |order| && node == order[k]
      modifies this`head, this`tail, this`order, this`cells, order
      ensures List() && cells == Moved(Set(old(cells), k, Entry(node.key, value)), k)
      ensures !Cuts(old(cells), k) ==> Valid()
      ensures forall x :: x in order ==> x in old(order)
    {
      node.value := value;
      cells := Set(cells, k, Entry(node.key, value));
      forall i | 0 <= i < |order| ensures At(order, cells, i) {
        assert old(At(order, cells, i));
        Same(order, i, k);
      }
      Touch(node, k);
    }

    method Insert(key: int, value: int) returns (node: Node)
      requires Valid() && key >= 0 && BucketFree(Entries(cells), key)
      modifies this`head, this`tail, this`currentSize, this`order, this`cells, table, order
      ensures List() && Indexes(order) && fresh(node) && order == old(order) + [node]
      ensures cells == old(cells) + [Cell(Entry(key, value), false)]
    {
      BucketEmpty(key);
      node := new Node(key, value);
      PushFront(node);
      label pushed:
      var hash := Bucket(key);
      node.next := table[hash];
      cells := old(cells) + [Cell(Entry(key, value), false)];
      table[hash] := node;
      currentSize := currentSize + 1;
      forall i | 0 <= i < |order| ensures At(order, cells, i) {
        assert old@pushed(At(order, cells, i));
      }
    }

    lemma BucketEmpty(key: int)
      requires Valid() && key >= 0 && BucketFree(Entries(cells), key)
      ensures table[Bucket(key)] == null
      ensures forall x :: x in order ==> Bucket(x.key) != Bucket(key)
    {
      forall x | x in order ensures Bucket(x.key) != Bucket(key) {
        var i :| 0 <= i < |order| && order[i] == x;
        assert At(order, cells, i);
      }
    }

    /** The oldest node leaves list and table; its bucket's chain is the node itself. */
    method EvictLru()
      requires List() && Indexes(order)
      modifies this`head, this`tail, this`currentSize, this`evictions, this`order, this`cells, table, order
      ensures List() && Indexes(order)
      ensures order == (if old(order) == [] then [] else old(order)[1..]) && cells == Evicted(old(cells))
      ensures evictions == old(evictions) + (if old(order) == [] then 0 else 1)
    {
      if tail == null {
        return;
      }
      var victim := tail;
      assert At(order, cells, 0);
      assert victim in order;
      if victim.prev != null {
        victim.prev.next := null;
      } else {
        head := null;
      }
      tail := victim.prev;
      var hash := Bucket(victim.key);
      assert table[hash] == victim;
      table[hash] := victim.next;
      currentSize := currentSize - 1;
      evictions := evictions + 1;
      order, cells := order[1..], Evicted(cells);
      forall i | 0 <= i < |order| ensures At(order, cells, i) {
        assert old(At(order, cells, i + 1));
        Same(old(order), i + 1, 1);
      }
      RestDistinct(old(order));
    }

    method Put(key: int, value: int)
      requires Valid() && InRegime(Model(), Op.Put(key, value))
      modifies this`head, this`tail, this`currentSize, this`evictions, this`order, this`cells, table, order
      ensures List() && Model() == Step(old(Model()), Op.Put(key, value))
      ensures !CutsAt(old(Model()), Op.Put(key, value)) ==> Valid()
      ensures forall x :: x in order ==> x in old(order) || fresh(x)
    {
      var existing := FindNode(key);
      if existing != null {
        ghost var k := Find(Entries(cells), key);
        assert At(order, cells, k);
        Update(existing, value, k);
      } else {
        var _ := Insert(key, value);
        if currentSize > maxSize {
          EvictLru();
        }
      }
    }
  }

  method Perform(cache: Cache, op: Op) returns (r: Option<int>)
    requires cache.Valid() && InRegime(cache.Model(), op) && !CutsAt(cache.Model(), op)
    modifies cache, cache.table, cache.order
    ensures cache.Valid() && cache.Model() == Step(old(cache.Model()), op)
    ensures Abs(cache.Model()) == LruStep(old(Abs(cache.Model())), op)
    ensures r == Answer(old(Abs(cache.Model())).items, op)
    ensures forall x :: x in cache.order && x !in old(cache.order) ==> fresh(x)
  {
    cache.IsGood();
    StepExactIff(cache.Model(), op);
    match op
    case Get(key) =>
      r := cache.Get(key);
    case Put(key, value) =>
      cache.Put(key, value);
      r := None;
  }

  /** The rest of the operations leads to the same end and the same answers as all of them. */
  ghost predicate Midway(s: Store<Cell>, answers: seq<Option<int>>, rest: seq<Op>, maxSize: nat, ops: seq<Op>) {
    && SafeRun(s, rest)
    && Run(s, rest) == Run(Empty(maxSize), ops)
    && LruRun(Abs(s), rest) == LruRun(Empty(maxSize), ops)
    && answers + LruAnswers(Abs(s), rest) == LruAnswers(Empty(maxSize), ops)
  }

  lemma MidwayStep(s: Store<Cell>, answers: seq<Option<int>>, rest: seq<Op>, maxSize: nat, ops: seq<Op>)
    requires Good(s) && rest != [] && Midway(s, answers, rest, maxSize, ops)
    ensures InRegime(s, rest[0]) && !CutsAt(s, rest[0])
    ensures Midway(Step(s, rest[0]), answers + [Answer(Abs(s).items, rest[0])], rest[1..], maxSize, ops)
  {
    StepExactIff(s, rest[0]);
    var a, later := Answer(Abs(s).items, rest[0]), LruAnswers(LruStep(Abs(s), rest[0]), rest[1..]);
    assert answers + ([a] + later) == answers + [a] + later;
  }

  lemma MidwayEnd(s: Store<Cell>, answers: seq<Option<int>>, maxSize: nat, ops: seq<Op>)
    requires Midway(s, answers, [], maxSize, ops)
    ensures s == Run(Empty(maxSize), ops) && Abs(s) == LruRun(Empty(maxSize), ops)
    ensures answers == LruAnswers(Empty(maxSize), ops)
  {
    assert answers + [] == answers;
  }

  lemma MidwayStart(maxSize: nat, ops: seq<Op>)
    requires SafeRun(Empty(maxSize), ops)
    ensures Midway(Empty(maxSize), [], ops, maxSize, ops)
  {
    assert Abs(Empty(maxSize)) == Empty(maxSize);
    assert [] + LruAnswers(Empty(maxSize), ops) == LruAnswers(Empty(maxSize), ops);
  }

  /** The cache has performed the first `i` operations. */
  ghost predicate Underway(cache: Cache, answers: seq<Option<int>>, i: nat, maxSize: nat, ops: seq<Op>)
    reads cache, cache.table, cache.order
  {
    i <= |ops| && cache.Valid() && Midway(cache.Model(), answers, ops[i..], maxSize, ops)
  }

  method PerformNext(cache: Cache, answers: seq<Option<int>>, i: nat, maxSize: nat, ops: seq<Op>)
    returns (answers': seq<Option<int>>)
    requires i < |ops| && Underway(cache, answers, i, maxSize, ops)
    modifies cache, cache.table, cache.order
    ensures Underway(cache, answers', i + 1, maxSize, ops)
    ensures forall j :: 0 <= j < |cache.order| ==> cache.order[j] in old(cache.order) || fresh(cache.order[j])
  {
    cache.IsGood();
    MidwayStep(cache.Model(), answers, ops[i..], maxSize, ops);
    assert ops[i..][1..] == ops[i + 1..];
    var r := Perform(cache, ops[i]);
    answers' := answers + [r];
  }

  /**
   Any sequence of gets and puts up to the first hit that cuts. The cache holds what a
   least-recently-used cache holds, in its order. Put answers nothing; get answers the value last
   put for the key if fewer than `maxSize` other keys were used since its last use, and NULL
   otherwise; hits and misses count these gets.
   */
  method Replay(maxSize: nat, ops: seq<Op>) returns (cache: Cache, answers: seq<Option<int>>)
    requires maxSize > 0 && SafeRun(Empty(maxSize), ops)
    ensures cache.Valid() && cache.Model() == Run(Empty(maxSize), ops)
    ensures Abs(cache.Model()) == LruRun(Empty(maxSize), ops)
    ensures |answers| == |ops| && forall i :: 0 <= i < |ops| ==> answers[i] == Expected(ops, i, maxSize)
    ensures var t := Count(ops, maxSize);
            cache.hits == t.hits && cache.misses == t.misses && cache.evictions + |cache.cells| == t.inserts
  {
    cache := new Cache(maxSize);
    answers := [];
    MidwayStart(maxSize, ops);
    assert ops[0..] == ops;
    for i := 0 to |ops|
      invariant fresh(cache) && fresh(cache.table) && fresh(cache.order)
      invariant Underway(cache, answers, i, maxSize, ops)
    {
      answers := PerformNext(cache, answers, i, maxSize, ops);
    }
    MidwayEnd(cache.Model(), answers, maxSize, ops);
    LruExact(maxSize, ops);
  }

  method GetNext(cache: Cache, key: nat)
    requires cache.Valid() && !CutsAt(cache.Model(), Get(key))
    modifies cache, cache.table, cache.order
    ensures cache.Valid() && cache.Model() == Step(old(cache.Model()), Get(key))
    ensures forall j :: 0 <= j < |cache.order| ==> cache.order[j] in old(cache.order) || fresh(cache.order[j])
  {
    var _ := cache.Get(key);
  }

  method PutNext(cache: Cache, n: nat, k: nat, key: nat)
    requires cache.Valid() && 0 < k && InRegime(cache.Model(), Put(key, 0)) && !CutsAt(cache.Model(), Put(key, 0))
    requires ScannedSoFar(Step(cache.Model(), Put(key, 0)), n + 1, k)
    modifies cache, cache.table, cache.order
    ensures cache.Valid() && ScannedSoFar(cache.Model(), n + 1, k)
    ensures forall j :: 0 <= j < |cache.order| ==> cache.order[j] in old(cache.order) || fresh(cache.order[j])
  {
    cache.Put(key, 0);
  }

  method GetThenPut(cache: Cache, n: nat, k: nat)
    requires cache.Valid() && 0 < k <= TABLE_SIZE && ScannedSoFar(cache.Model(), n, k)
    modifies cache, cache.table, cache.order
    ensures cache.Valid() && ScannedSoFar(cache.Model(), n + 1, k)
    ensures forall j :: 0 <= j < |cache.order| ==> cache.order[j] in old(cache.order) || fresh(cache.order[j])
  {
    cache.IsGood();
    ScanAccess(cache.Model(), n, k, 0);
    var key := ScanKey(n, k);
    GetNext(cache, key);
    PutNext(cache, n, k, key);
  }

  /**
   A cyclic get-then-put scan: with room for all keys everything after the first round hits. With
   room for one key less nothing ever hits: every access misses, and once the cache is full every
   put evicts.
   */
  method SequentialScan(maxSize: nat, k: nat, accesses: nat) returns (cache: Cache)
    requires 0 < maxSize && 0 < k <= TABLE_SIZE
    ensures cache.maxSize == maxSize && cache.Valid() && ScannedSoFar(cache.Model(), accesses, k)
    ensures cache.hits == if maxSize >= k && accesses > k then accesses - k else 0
    ensures cache.hits == 0 <==> maxSize < k || accesses <= k
  {
    cache := new Cache(maxSize);
    for i := 0 to accesses
      invariant fresh(cache) && fresh(cache.table) && fresh(cache.order)
      invariant cache.maxSize == maxSize && cache.Valid() && ScannedSoFar(cache.Model(), i, k)
    {
      GetThenPut(cache, i, k);
    }
  }
}
