/**
 The shared-memory ring of 08_advanced/shared_memory_ipc: any number of producers in buffer_write
 and consumers in the guarded read loop of consumer.c, interleaved one shared access at a time
 (one semaphore operation, one byte, one position) under sequential consistency.
 */
module SharedRing {
  import opened Common

  const MSG_SIZE: nat := 256
  const MAX_MESSAGES: nat := 4096

  /** Where a producer is inside buffer_write. */
  datatype Producer =
    | Idle
    | Queued(msg: seq<Byte>)                // has a slot, waits for the mutex
    | Copying(msg: seq<Byte>, done: nat)    // `done` bytes copied
    | Sealed(msg: seq<Byte>)                // NUL written
    | Advanced                              // write_pos incremented
    | Unlocked                              // mutex released

  /** Where a consumer is in its loop or inside buffer_read. */
  datatype Stage =
    | Polling
    | Entered                               // guard passed
    | Scanning(len: nat)                    // strlen has seen `len` bytes
    | Reading(len: nat, buf: seq<Byte>)     // memcpy
    | Bumped                                // read position incremented

  datatype Consumer = Consumer(pos: nat, stage: Stage, received: seq<seq<Byte>>)

  datatype State = State(
    data: seq<Byte>,
    writePos: nat,
    semEmpty: nat,
    semFull: nat,
    semMutex: nat,
    producers: seq<Producer>,
    consumers: seq<Consumer>,
    maxlen: nat,                  // size of the consumers' message buffer
    written: seq<seq<Byte>>,      // history: messages whose write_pos++ happened
    posts: nat,                   // history: sem_post(sem_empty) by readers
    fullWaits: nat)               // history: sem_wait(sem_full) by readers

  datatype Step =
    | BeginWrite(p: nat, msg: seq<Byte>)
    | RefuseWrite(p: nat, msg: seq<Byte>)   // message too long, or sem_wait(sem_empty) failed
    | GiveBack(p: nat)                      // sem_wait(sem_mutex) failed
    | Lock(p: nat)
    | CopyByte(p: nat)
    | Seal(p: nat)
    | Advance(p: nat)
    | Unlock(p: nat)
    | PostFull(p: nat)
    | Poll(c: nat)
    | Enter(c: nat)
    | Scan(c: nat)
    | ReadByte(c: nat)
    | Bump(c: nat)
    | PostEmpty(c: nat)

  function Offset(pos: nat): nat { pos % MAX_MESSAGES * MSG_SIZE }

  predicate Enabled(s: State, step: Step) {
    match step
    case BeginWrite(p, msg) =>
      p < |s.producers| && s.producers[p].Idle? && |msg| <= MSG_SIZE - 1 && s.semEmpty > 0
    case RefuseWrite(p, msg) => p < |s.producers| && s.producers[p].Idle?
    case GiveBack(p) => p < |s.producers| && s.producers[p].Queued?
    case Lock(p) => p < |s.producers| && s.producers[p].Queued? && s.semMutex > 0
    case CopyByte(p) =>
      p < |s.producers| && s.producers[p].Copying? && s.producers[p].done < |s.producers[p].msg|
    case Seal(p) =>
      p < |s.producers| && s.producers[p].Copying? && s.producers[p].done >= |s.producers[p].msg|
    case Advance(p) => p < |s.producers| && s.producers[p].Sealed?
    case Unlock(p) => p < |s.producers| && s.producers[p].Advanced?
    case PostFull(p) => p < |s.producers| && s.producers[p].Unlocked?
    case Poll(c) => c < |s.consumers| && s.consumers[c].stage.Polling?
    case Enter(c) =>
      c < |s.consumers| && s.consumers[c].stage.Entered? && (s.consumers[c].pos < s.writePos || s.semFull > 0)
    case Scan(c) =>
      && c < |s.consumers| && s.consumers[c].stage.Scanning?
      && Offset(s.consumers[c].pos) + s.consumers[c].stage.len < |s.data|
    case ReadByte(c) =>
      && c < |s.consumers| && s.consumers[c].stage.Reading?
      && |s.consumers[c].stage.buf| < s.consumers[c].stage.len
      && Offset(s.consumers[c].pos) + |s.consumers[c].stage.buf| < |s.data|
    case Bump(c) =>
      && c < |s.consumers| && s.consumers[c].stage.Reading?
      && |s.consumers[c].stage.buf| >= s.consumers[c].stage.len
    case PostEmpty(c) => c < |s.consumers| && s.consumers[c].stage.Bumped?
  }

  function SetProducer(s: State, p: nat, producer: Producer): State
    requires p < |s.producers|
  {
    s.(producers := s.producers[p := producer])
  }

  function SetStage(s: State, c: nat, stage: Stage): State
    requires c < |s.consumers|
  {
    s.(consumers := s.consumers[c := s.consumers[c].(stage := stage)])
  }

  predicate Sized(s: State) {
    && |s.data| == MAX_MESSAGES * MSG_SIZE && s.maxlen >= 1
    && forall p :: 0 <= p < |s.producers| ==>
         && (s.producers[p].Queued? ==> |s.producers[p].msg| < MSG_SIZE)
         && (s.producers[p].Copying? ==> s.producers[p].done <= |s.producers[p].msg| < MSG_SIZE)
         && (s.producers[p].Sealed? ==> |s.producers[p].msg| < MSG_SIZE)
  }

  function Next(s: State, step: Step): State
    requires Sized(s) && Enabled(s, step)
  {
    match step
    case BeginWrite(p, msg) => SetProducer(s, p, Queued(msg)).(semEmpty := s.semEmpty - 1)
    case RefuseWrite(p, msg) => s
    case GiveBack(p) => SetProducer(s, p, Idle).(semEmpty := s.semEmpty + 1)
    case Lock(p) => SetProducer(s, p, Copying(s.producers[p].msg, 0)).(semMutex := s.semMutex - 1)
    case CopyByte(p) =>
      var Copying(msg, k) := s.producers[p];
      SetProducer(s, p, Copying(msg, k + 1)).(data := s.data[Offset(s.writePos) + k := msg[k]])
    case Seal(p) =>
      var msg := s.producers[p].msg;
      SetProducer(s, p, Sealed(msg)).(data := s.data[Offset(s.writePos) + |msg| := 0])
    case Advance(p) =>
      SetProducer(s, p, Advanced).(writePos := s.writePos + 1, written := s.written + [s.producers[p].msg])
    case Unlock(p) => SetProducer(s, p, Unlocked).(semMutex := s.semMutex + 1)
    case PostFull(p) => SetProducer(s, p, Idle).(semFull := s.semFull + 1)
    case Poll(c) => if s.consumers[c].pos >= s.writePos then s else SetStage(s, c, Entered)
    case Enter(c) =>
      SetStage(s, c, Scanning(0))
        .(semFull := if s.consumers[c].pos >= s.writePos then s.semFull - 1 else s.semFull,
          fullWaits := if s.consumers[c].pos >= s.writePos then s.fullWaits + 1 else s.fullWaits)
    case Scan(c) =>
      var Consumer(pos, stage, _) := s.consumers[c];
      if s.data[Offset(pos) + stage.len] == 0 then SetStage(s, c, Reading(Min(stage.len, s.maxlen - 1), []))
      else SetStage(s, c, Scanning(stage.len + 1))
    case ReadByte(c) =>
      var Consumer(pos, stage, _) := s.consumers[c];
      SetStage(s, c, Reading(stage.len, stage.buf + [s.data[Offset(pos) + |stage.buf|]]))
    case Bump(c) =>
      var Consumer(pos, stage, received) := s.consumers[c];
      s.(consumers := s.consumers[c := Consumer(pos + 1, Bumped, received + [stage.buf])])
    case PostEmpty(c) =>
      SetStage(s, c, Polling).(semEmpty := s.semEmpty + 1, posts := s.posts + 1)
  }

  ghost predicate Initial(s: State) {
    && |s.data| == MAX_MESSAGES * MSG_SIZE && s.maxlen >= 1
    && s.writePos == 0 && s.semEmpty == MAX_MESSAGES && s.semFull == 0 && s.semMutex == 1
    && (forall p :: 0 <= p < |s.producers| ==> s.producers[p].Idle?)
    && (forall c :: 0 <= c < |s.consumers| ==> s.consumers[c] == Consumer(0, Polling, []))
    && s.written == [] && s.posts == 0 && s.fullWaits == 0
  }

  // ---------------------------------------------------------------- slots are conserved

  predicate HasSlot(p: Producer) { p.Queued? || p.Copying? || p.Sealed? }

  predicate OwesFull(p: Producer) { p.Advanced? || p.Unlocked? }

  predicate HasMutex(p: Producer) { p.Copying? || p.Sealed? || p.Advanced? }

  /** The producers whose buffer_write holds a slot it has not yet published. */
  ghost function Held(s: State): set<nat> {
    set p | 0 <= p < |s.producers| && HasSlot(s.producers[p])
  }

  /** The producers that have published a message but not yet posted sem_full for it. */
  ghost function Unposted(s: State): set<nat> {
    set p | 0 <= p < |s.producers| && OwesFull(s.producers[p])
  }

  ghost function Inside(s: State): set<nat> {
    set p | 0 <= p < |s.producers| && HasMutex(s.producers[p])
  }

  /** Slots a consumer has given back: one per message read, except one just about to be. */
  function Posted(c: Consumer): int { if c.stage.Bumped? then c.pos - 1 else c.pos }

  ghost function TotalPosted(cs: seq<Consumer>): int {
    if cs == [] then 0 else Posted(cs[0]) + TotalPosted(cs[1..])
  }

  lemma {:induction false} TotalPostedUpdate(cs: seq<Consumer>, c: nat, x: Consumer)
    requires c < |cs|
    ensures TotalPosted(cs[c := x]) == TotalPosted(cs) - Posted(cs[c]) + Posted(x)
  {
    if c == 0 {
      assert cs[c := x][1..] == cs[1..];
    } else {
      TotalPostedUpdate(cs[1..], c - 1, x);
      assert cs[c := x][1..] == cs[1..][c - 1 := x];
    }
  }

  ghost predicate Accounts(s: State) {
    && Sized(s)
    && s.semEmpty + |Held(s)| + s.writePos == MAX_MESSAGES + s.posts
    && s.semFull + |Unposted(s)| + s.fullWaits == s.writePos
    && s.semMutex + |Inside(s)| == 1
    && s.posts == TotalPosted(s.consumers)
  }

  lemma {:induction false} InitialPosted(cs: seq<Consumer>)
    requires forall c :: 0 <= c < |cs| ==> cs[c] == Consumer(0, Polling, [])
    ensures TotalPosted(cs) == 0
  {
    if cs != [] {
      InitialPosted(cs[1..]);
    }
  }

  lemma InitialAccounts(s: State)
    requires Initial(s)
    ensures Accounts(s)
  {
    InitialPosted(s.consumers);
    assert Held(s) == {} && Inside(s) == {} && Unposted(s) == {};
  }

  /** Two sets that differ in at most one element. */
  lemma OneMoves(before: set<nat>, after: set<nat>, p: nat)
    requires after - {p} == before - {p}
    ensures |after| == |before| + (if p in after then 1 else 0) - (if p in before then 1 else 0)
  {
    Without(before, p);
    Without(after, p);
  }

  lemma Without(ps: set<nat>, p: nat)
    ensures |ps - {p}| == |ps| - (if p in ps then 1 else 0)
  {
  }

  /** From `s` to `s'` at most producer `p` has moved on. */
  predicate OnlyMoves(s: State, p: nat, s': State) {
    && p < |s.producers| == |s'.producers|
    && forall q :: 0 <= q < |s.producers| && q != p ==> s'.producers[q] == s.producers[q]
  }

  lemma HeldMoves(s: State, p: nat, s': State)
    requires OnlyMoves(s, p, s')
    ensures |Held(s')| == |Held(s)| + (if HasSlot(s'.producers[p]) then 1 else 0)
                          - (if HasSlot(s.producers[p]) then 1 else 0)
  {
    assert Held(s') - {p} == Held(s) - {p};
    OneMoves(Held(s), Held(s'), p);
  }

  lemma InsideMoves(s: State, p: nat, s': State)
    requires OnlyMoves(s, p, s')
    ensures |Inside(s')| == |Inside(s)| + (if HasMutex(s'.producers[p]) then 1 else 0)
                            - (if HasMutex(s.producers[p]) then 1 else 0)
  {
    assert Inside(s') - {p} == Inside(s) - {p};
    OneMoves(Inside(s), Inside(s'), p);
  }

  lemma UnpostedMoves(s: State, p: nat, s': State)
    requires OnlyMoves(s, p, s')
    ensures |Unposted(s')| == |Unposted(s)| + (if OwesFull(s'.producers[p]) then 1 else 0)
                              - (if OwesFull(s.producers[p]) then 1 else 0)
  {
    assert Unposted(s') - {p} == Unposted(s) - {p};
    OneMoves(Unposted(s), Unposted(s'), p);
  }

  ghost predicate IsProducerStep(step: Step) {
    step.BeginWrite? || step.RefuseWrite? || step.GiveBack? || step.Lock? || step.CopyByte?
    || step.Seal? || step.Advance? || step.Unlock? || step.PostFull?
  }

  lemma ProducerAccounts(s: State, step: Step)
    requires Accounts(s) && Enabled(s, step) && IsProducerStep(step)
    ensures Accounts(Next(s, step))
  {
    var p, s' := step.p, Next(s, step);
    HeldMoves(s, p, s');
    InsideMoves(s, p, s');
    UnpostedMoves(s, p, s');
  }

  lemma ConsumerAccounts(s: State, step: Step)
    requires Accounts(s) && Enabled(s, step) && !IsProducerStep(step)
    ensures Accounts(Next(s, step))
  {
    var c, s' := step.c, Next(s, step);
    assert s'.consumers == s.consumers[c := s'.consumers[c]];
    TotalPostedUpdate(s.consumers, c, s'.consumers[c]);
    assert s'.producers == s.producers && s'.writePos == s.writePos && s'.semMutex == s.semMutex;
    assert Held(s') == Held(s) && Inside(s') == Inside(s) && Unposted(s') == Unposted(s);
  }

  // ---------------------------------------------------------------- what a message becomes

  /** The message as a C string: up to its first NUL. */
  ghost function CString(msg: seq<Byte>): (r: seq<Byte>)
    ensures r <= msg
    ensures forall j :: 0 <= j < |r| ==> r[j] != 0
    ensures |r| < |msg| ==> msg[|r|] == 0
  {
    if msg == [] || msg[0] == 0 then [] else [msg[0]] + CString(msg[1..])
  }

  /** What buffer_read delivers of a message, given the size of the caller's buffer. */
  ghost function Delivered(msg: seq<Byte>, maxlen: nat): seq<Byte>
    requires maxlen >= 1
  {
    CString(msg)[..Min(|CString(msg)|, maxlen - 1)]
  }

  /** The message arrives unchanged exactly when it has no NUL and fits the caller's buffer. */
  lemma DeliveredExactIff(msg: seq<Byte>, maxlen: nat)
    requires maxlen >= 1
    ensures Delivered(msg, maxlen) == msg <==> 0 !in msg && |msg| <= maxlen - 1
  {
  }

  // ---------------------------------------------------------------- what every run keeps

  /** Slot `k` holds `msg` and its terminator; what lies behind may be left from older messages. */
  ghost predicate Stored(data: seq<Byte>, k: nat, msg: seq<Byte>)
    requires |data| == MAX_MESSAGES * MSG_SIZE && |msg| < MSG_SIZE
  {
    && (forall j :: 0 <= j < |msg| ==> data[Offset(k) + j] == msg[j])
    && data[Offset(k) + |msg|] == 0
  }

  ghost predicate Published(s: State) {
    && |s.written| == s.writePos
    && forall k :: 0 <= k < s.writePos ==> |s.written[k]| < MSG_SIZE
  }

  /** The slot under construction holds what its producer has copied so far. */
  ghost predicate InProgress(s: State)
    requires Sized(s)
  {
    forall p :: 0 <= p < |s.producers| ==>
      && (s.producers[p].Copying? ==>
            forall j :: 0 <= j < s.producers[p].done ==>
              s.data[Offset(s.writePos) + j] == s.producers[p].msg[j])
      && (s.producers[p].Sealed? ==> Stored(s.data, s.writePos, s.producers[p].msg))
  }

  predicate InRead(stage: Stage) { stage.Entered? || stage.Scanning? || stage.Reading? }

  /** A consumer reads only what has been published. */
  ghost predicate Behind(c: Consumer, writePos: nat) {
    && c.pos <= writePos
    && (InRead(c.stage) ==> c.pos < writePos)
    && (c.stage.Bumped? ==> c.pos > 0)
    && |c.received| == c.pos
  }

  ghost predicate Guarded(s: State) {
    && Accounts(s)
    && s.fullWaits == 0
    && Published(s)
    && InProgress(s)
    && forall c :: 0 <= c < |s.consumers| ==> Behind(s.consumers[c], s.writePos)
  }

  /** The mutex admits one producer at a time. */
  lemma OneInside(s: State, p: nat, q: nat)
    requires Accounts(s) && p < |s.producers| && q < |s.producers| && p != q
    requires HasMutex(s.producers[p])
    ensures !HasMutex(s.producers[q])
  {
    assert |{p, q}| == 2;
    if {p, q} <= Inside(s) {
      SubsetCard({p, q}, Inside(s));
    }
  }

  lemma SubsetCard(a: set<nat>, b: set<nat>)
    requires a <= b
    ensures |a| <= |b|
  {
    assert b == a + (b - a);
    assert |a + (b - a)| == |a| + |b - a|;
  }

  lemma ProducerGuarded(s: State, step: Step)
    requires Guarded(s) && Enabled(s, step) && IsProducerStep(step)
    ensures Guarded(Next(s, step))
  {
    ProducerAccounts(s, step);
    ProducerCopies(s, step);
  }

  lemma ProducerCopies(s: State, step: Step)
    requires Accounts(s) && InProgress(s) && Enabled(s, step) && IsProducerStep(step)
    requires Sized(Next(s, step))
    ensures InProgress(Next(s, step))
  {
    var p, s' := step.p, Next(s, step);
    if HasMutex(s.producers[p]) {
      forall q | 0 <= q < |s.producers| && q != p
        ensures s'.producers[q] == s.producers[q] && !HasMutex(s.producers[q])
      {
        OneInside(s, p, q);
      }
    }
  }

  /** A consumer that passed the guard never waits on sem_full inside buffer_read. */
  lemma ConsumerGuarded(s: State, step: Step)
    requires Guarded(s) && Enabled(s, step) && !IsProducerStep(step)
    ensures Guarded(Next(s, step)) && Next(s, step).semFull == s.semFull
  {
    ConsumerAccounts(s, step);
    var c, s' := step.c, Next(s, step);
    assert Behind(s.consumers[c], s.writePos);
    assert s'.consumers == s.consumers[c := s'.consumers[c]];
    assert Behind(s'.consumers[c], s'.writePos);
    assert s'.data == s.data && s'.producers == s.producers;
  }

  // ---------------------------------------------------------------- delivery to one consumer

  /** The messages consumer `c` has yet to read are intact. */
  ghost predicate Unread(s: State, pos: nat)
    requires Sized(s) && Published(s)
  {
    forall k :: pos <= k < s.writePos ==> Stored(s.data, k, s.written[k])
  }

  /** Consumer `c` is somewhere in reading its message correctly, as it has all before. */
  ghost predicate Reader(s: State, c: Consumer)
    requires Sized(s) && Published(s) && Behind(c, s.writePos)
  {
    && (c.stage.Scanning? ==> c.stage.len <= |CString(s.written[c.pos])|)
    && (c.stage.Reading? ==>
          && c.stage.len == |Delivered(s.written[c.pos], s.maxlen)|
          && |c.stage.buf| <= c.stage.len
          && c.stage.buf == Delivered(s.written[c.pos], s.maxlen)[..|c.stage.buf|])
    && forall i :: 0 <= i < c.pos ==> c.received[i] == Delivered(s.written[i], s.maxlen)
  }

  ghost predicate Inv(s: State, c: nat) {
    && Guarded(s)
    && c < |s.consumers|
    && Unread(s, s.consumers[c].pos)
    && Reader(s, s.consumers[c])
  }

  /** The slot at write_pos is not one that consumer `c` has yet to read. */
  ghost predicate Room(s: State, c: nat) {
    c < |s.consumers| && s.writePos < s.consumers[c].pos + MAX_MESSAGES
  }

  predicate Writes(step: Step) { step.CopyByte? || step.Seal? }

  /** Positions less than a full turn apart lie in different slots. */
  lemma SlotsApart(a: nat, b: nat)
    requires a < b < a + MAX_MESSAGES
    ensures a % MAX_MESSAGES != b % MAX_MESSAGES
    ensures Offset(a) + MSG_SIZE <= Offset(b) || Offset(b) + MSG_SIZE <= Offset(a)
  {
  }

  /** With room, the slot being written differs from the slot the consumer reads. */
  lemma WriterAndReaderApart(s: State, c: nat)
    requires Inv(s, c) && Room(s, c) && InRead(s.consumers[c].stage)
    ensures s.writePos % MAX_MESSAGES != s.consumers[c].pos % MAX_MESSAGES
  {
    assert Behind(s.consumers[c], s.writePos);
    SlotsApart(s.consumers[c].pos, s.writePos);
  }

  /** Writing into the slot at write_pos leaves every unread message as it is. */
  lemma WriteKeeps(s: State, step: Step, c: nat)
    requires Inv(s, c) && Room(s, c) && Enabled(s, step) && Writes(step)
    ensures Inv(Next(s, step), c)
  {
    var s' := Next(s, step);
    ProducerGuarded(s, step);
    forall k | s.consumers[c].pos <= k < s.writePos ensures Stored(s'.data, k, s.written[k]) {
      SlotsApart(k, s.writePos);
      assert Stored(s.data, k, s.written[k]);
    }
  }

  lemma AdvanceKeeps(s: State, step: Step, c: nat)
    requires Inv(s, c) && Enabled(s, step) && step.Advance?
    ensures Inv(Next(s, step), c)
  {
    var s' := Next(s, step);
    ProducerGuarded(s, step);
    assert forall k :: 0 <= k < s.writePos ==> s'.written[k] == s.written[k];
    forall k | s.consumers[c].pos <= k < s'.writePos ensures Stored(s'.data, k, s'.written[k]) {
      if k < s.writePos {
        assert Stored(s.data, k, s.written[k]);
      }
    }
  }

  lemma OtherProducerKeeps(s: State, step: Step, c: nat)
    requires Inv(s, c) && Enabled(s, step) && IsProducerStep(step) && !Writes(step) && !step.Advance?
    ensures Inv(Next(s, step), c)
  {
    ProducerGuarded(s, step);
    var s' := Next(s, step);
    assert s'.data == s.data && s'.written == s.written && s'.consumers == s.consumers;
  }

  lemma OtherConsumerKeeps(s: State, step: Step, c: nat)
    requires Inv(s, c) && Enabled(s, step) && !IsProducerStep(step) && step.c != c
    ensures Inv(Next(s, step), c)
  {
    ConsumerGuarded(s, step);
    var s' := Next(s, step);
    assert s'.data == s.data && s'.written == s.written && s'.consumers[c] == s.consumers[c];
  }

  /** The scan meets its first NUL where the message as a C string ends. */
  lemma ScanStops(data: seq<Byte>, k: nat, msg: seq<Byte>, len: nat)
    requires |data| == MAX_MESSAGES * MSG_SIZE && |msg| < MSG_SIZE && Stored(data, k, msg)
    requires len <= |CString(msg)|
    ensures Offset(k) + len < |data|
    ensures data[Offset(k) + len] == 0 <==> len == |CString(msg)|
  {
    var cs := CString(msg);
    assert data[Offset(k) + len] == if len < |msg| then msg[len] else 0;
    assert len < |cs| ==> cs[len] == msg[len];
  }

  /** A consumer that is served right never runs past the data array, nor into another slot. */
  lemma ReadsInside(s: State, c: nat)
    requires Inv(s, c)
    ensures s.consumers[c].stage.Scanning? ==> Enabled(s, Scan(c)) && s.consumers[c].stage.len < MSG_SIZE
    ensures s.consumers[c].stage.Reading? ==> Enabled(s, ReadByte(c)) || Enabled(s, Bump(c))
  {
    assert Behind(s.consumers[c], s.writePos);
  }

  lemma ScanKeeps(s: State, step: Step)
    requires step.Scan? && Inv(s, step.c) && Enabled(s, step)
    ensures Inv(Next(s, step), step.c)
  {
    ConsumerGuarded(s, step);
    var c := s.consumers[step.c];
    var msg := s.written[c.pos];
    assert Stored(s.data, c.pos, msg);
    ScanStops(s.data, c.pos, msg, c.stage.len);
  }

  lemma ReadByteKeeps(s: State, step: Step)
    requires step.ReadByte? && Inv(s, step.c) && Enabled(s, step)
    ensures Inv(Next(s, step), step.c)
  {
    ConsumerGuarded(s, step);
    var c := s.consumers[step.c];
    var msg := s.written[c.pos];
    assert Stored(s.data, c.pos, msg);
    var d, k := Delivered(msg, s.maxlen), |c.stage.buf|;
    assert s.data[Offset(c.pos) + k] == msg[k] == d[k];
    assert d[..k + 1] == d[..k] + [d[k]];
  }

  lemma BumpKeeps(s: State, step: Step)
    requires step.Bump? && Inv(s, step.c) && Enabled(s, step)
    ensures Inv(Next(s, step), step.c)
  {
    ConsumerGuarded(s, step);
    var c := s.consumers[step.c];
    var d := Delivered(s.written[c.pos], s.maxlen);
    assert c.stage.buf == d[..|d|] == d;
  }

  lemma PollEnterPostKeeps(s: State, step: Step)
    requires (step.Poll? || step.Enter? || step.PostEmpty?) && Inv(s, step.c) && Enabled(s, step)
    ensures Inv(Next(s, step), step.c)
  {
    ConsumerGuarded(s, step);
  }

  lemma StepKeeps(s: State, step: Step, c: nat)
    requires Inv(s, c) && Enabled(s, step) && (Writes(step) ==> Room(s, c))
    ensures Inv(Next(s, step), c)
  {
    if Writes(step) {
      WriteKeeps(s, step, c);
    } else if step.Advance? {
      AdvanceKeeps(s, step, c);
    } else if IsProducerStep(step) {
      OtherProducerKeeps(s, step, c);
    } else if step.c != c {
      OtherConsumerKeeps(s, step, c);
    } else if step.Scan? {
      ScanKeeps(s, step);
    } else if step.ReadByte? {
      ReadByteKeeps(s, step);
    } else if step.Bump? {
      BumpKeeps(s, step);
    } else {
      PollEnterPostKeeps(s, step);
    }
  }

  // ---------------------------------------------------------------- whole runs

  ghost predicate Feasible(s: State, steps: seq<Step>)
    decreases |steps|
  {
    || steps == []
    || (Sized(s) && Enabled(s, steps[0]) && Feasible(Next(s, steps[0]), steps[1..]))
  }

  ghost function Run(s: State, steps: seq<Step>): State
    requires Feasible(s, steps)
    decreases |steps|
  {
    if steps == [] then s else Run(Next(s, steps[0]), steps[1..])
  }

  /**
   For any number of producers and consumers, in every reachable state: free slots, slots held by
   unfinished writes and published messages add up to the ring's size plus what readers posted,
   also through the error path that gives a slot back; and sem_full counts the messages published
   whose token no reader has taken.
   */
  lemma {:induction false} SlotsConserved(s: State, steps: seq<Step>)
    requires Accounts(s) && Feasible(s, steps)
    ensures var s' := Run(s, steps);
            && Accounts(s')
            && s'.semEmpty + |Held(s')| + s'.writePos == MAX_MESSAGES + s'.posts
            && s'.posts == TotalPosted(s'.consumers)
            && s'.semFull + |Unposted(s')| + s'.fullWaits == s'.writePos
            && |s'.consumers| == |s.consumers|
    decreases |steps|
  {
    if steps != [] {
      StepAccounts(s, steps[0]);
      SlotsConserved(Next(s, steps[0]), steps[1..]);
    }
  }

  lemma StepAccounts(s: State, step: Step)
    requires Accounts(s) && Enabled(s, step)
    ensures Accounts(Next(s, step)) && |Next(s, step).consumers| == |s.consumers|
  {
    if IsProducerStep(step) {
      ProducerAccounts(s, step);
    } else {
      ConsumerAccounts(s, step);
    }
  }

  lemma {:induction false} CaughtUpTotal(cs: seq<Consumer>, w: nat)
    requires forall c :: 0 <= c < |cs| ==> cs[c].pos == w && cs[c].stage.Polling?
    ensures TotalPosted(cs) == |cs| * w
  {
    if cs != [] {
      CaughtUpTotal(cs[1..], w);
      assert |cs| * w == w + (|cs| - 1) * w;
    }
  }

  /**
   Why several consumers may lose messages: when all have read everything and no write is under
   way, sem_empty exceeds the ring's size by one turn of credit for each consumer but the first,
   so it is right exactly with one consumer or before the first message.
   */
  lemma CreditWhenCaughtUp(init: State, steps: seq<Step>)
    requires Initial(init) && Feasible(init, steps) && |init.consumers| >= 1
    requires var s := Run(init, steps);
             Held(s) == {} && forall c :: 0 <= c < |s.consumers| ==>
               s.consumers[c].pos == s.writePos && s.consumers[c].stage.Polling?
    ensures var s := Run(init, steps);
            && s.semEmpty == MAX_MESSAGES + (|s.consumers| - 1) * s.writePos
            && (s.semEmpty == MAX_MESSAGES <==> |s.consumers| == 1 || s.writePos == 0)
  {
    InitialAccounts(init);
    SlotsConserved(init, steps);
    var s := Run(init, steps);
    CaughtUpTotal(s.consumers, s.writePos);
    Turns(|s.consumers|, s.writePos);
  }

  lemma Turns(n: nat, w: nat)
    requires n >= 1
    ensures n * w == w + (n - 1) * w
    ensures (n - 1) * w == 0 <==> n == 1 || w == 0
  {
  }

  // ---------------------------------------------------------------- what the producers sent

  /** The message of the last buffer_write that producer `p` began. */
  ghost function LastBegun(steps: seq<Step>, p: nat): Option<seq<Byte>> {
    if steps == [] then None
    else
      var last := steps[|steps| - 1];
      if last.BeginWrite? && last.p == p then Some(last.msg) else LastBegun(steps[..|steps| - 1], p)
  }

  /**
   The messages passed to the buffer_write calls that reached the increment of write_pos, in the
   order of the increments. Read from the steps taken alone.
   */
  ghost function Sent(steps: seq<Step>): seq<seq<Byte>> {
    if steps == [] then []
    else
      var before, last := steps[..|steps| - 1], steps[|steps| - 1];
      Sent(before) +
      if last.Advance? && LastBegun(before, last.p).Some? then [LastBegun(before, last.p).value] else []
  }

  /** Every unfinished write carries the message its caller passed. */
  ghost predicate Carries(producer: Producer, begun: Option<seq<Byte>>) {
    producer.Queued? || producer.Copying? || producer.Sealed? ==> begun == Some(producer.msg)
  }

  ghost predicate Faithful(s: State, done: seq<Step>) {
    && s.written == Sent(done)
    && forall p :: 0 <= p < |s.producers| ==> Carries(s.producers[p], LastBegun(done, p))
  }

  lemma LastBegunAppend(done: seq<Step>, step: Step, p: nat)
    ensures LastBegun(done + [step], p)
            == if step.BeginWrite? && step.p == p then Some(step.msg) else LastBegun(done, p)
  {
    assert (done + [step])[..|done|] == done;
  }

  lemma SentAppend(done: seq<Step>, step: Step)
    ensures Sent(done + [step]) == Sent(done) +
            if step.Advance? && LastBegun(done, step.p).Some? then [LastBegun(done, step.p).value] else []
  {
    assert (done + [step])[..|done|] == done;
  }

  lemma FaithfulStep(s: State, step: Step, done: seq<Step>)
    requires Sized(s) && Enabled(s, step) && Faithful(s, done)
    ensures Faithful(Next(s, step), done + [step])
  {
    var s' := Next(s, step);
    SentAppend(done, step);
    if step.Advance? {
      assert Carries(s.producers[step.p], LastBegun(done, step.p));
    }
    forall p | 0 <= p < |s'.producers| ensures Carries(s'.producers[p], LastBegun(done + [step], p)) {
      LastBegunAppend(done, step, p);
      assert Carries(s.producers[p], LastBegun(done, p));
    }
  }

  lemma {:induction false} FaithfulRun(s: State, steps: seq<Step>, done: seq<Step>)
    requires Feasible(s, steps) && Faithful(s, done)
    ensures Faithful(Run(s, steps), done + steps)
    decreases |steps|
  {
    if steps == [] {
      assert done + steps == done;
    } else {
      FaithfulStep(s, steps[0], done);
      FaithfulRun(Next(s, steps[0]), steps[1..], done + [steps[0]]);
      assert (done + [steps[0]]) + steps[1..] == done + steps;
    }
  }

  /** In every run the messages in the ring are, in order, those the callers passed, whole. */
  lemma WrittenIsSent(init: State, steps: seq<Step>)
    requires Initial(init) && Feasible(init, steps)
    ensures Run(init, steps).written == Sent(steps)
  {
    FaithfulRun(init, steps, []);
    assert [] + steps == steps;
  }

  // ---------------------------------------------------------------- runs with room

  /** Whenever a producer writes a byte, consumer `c` is less than a full ring behind. */
  ghost predicate RoomyRun(s: State, steps: seq<Step>, c: nat)
    requires Feasible(s, steps)
    decreases |steps|
  {
    steps == [] ||
    ((Writes(steps[0]) ==> Room(s, c)) && RoomyRun(Next(s, steps[0]), steps[1..], c))
  }

  /** Consumer `c` has received, message by message, what was sent, as far as it has read. */
  ghost predicate InStep(s: State, c: nat, sent: seq<seq<Byte>>, maxlen: nat)
    requires maxlen >= 1
  {
    && c < |s.consumers|
    && |s.consumers[c].received| == s.consumers[c].pos <= s.writePos == |sent|
    && forall i :: 0 <= i < s.consumers[c].pos ==>
         s.consumers[c].received[i] == Delivered(sent[i], maxlen)
  }

  lemma {:induction false} RunKeeps(s: State, steps: seq<Step>, c: nat)
    requires Inv(s, c) && Feasible(s, steps) && RoomyRun(s, steps, c)
    ensures Inv(Run(s, steps), c) && Run(s, steps).maxlen == s.maxlen
    decreases |steps|
  {
    if steps != [] {
      StepKeeps(s, steps[0], c);
      RunKeeps(Next(s, steps[0]), steps[1..], c);
    }
  }

  lemma InitialInv(s: State, c: nat)
    requires Initial(s) && c < |s.consumers|
    ensures Inv(s, c)
  {
    InitialAccounts(s);
  }

  /** A consumer, among any number, is served right in every run that leaves it room. */
  lemma DeliveryWithRoom(init: State, steps: seq<Step>, c: nat)
    requires Initial(init) && c < |init.consumers| && Feasible(init, steps) && RoomyRun(init, steps, c)
    ensures InStep(Run(init, steps), c, Sent(steps), init.maxlen)
  {
    InitialInv(init, c);
    RunKeeps(init, steps, c);
    WrittenIsSent(init, steps);
    assert Behind(Run(init, steps).consumers[c], Run(init, steps).writePos);
  }

  /** A producer with a slot keeps a single consumer less than a full turn behind write_pos. */
  lemma RoomForWriter(s: State, p: nat)
    requires Accounts(s) && |s.consumers| == 1 && p < |s.producers| && HasSlot(s.producers[p])
    ensures Room(s, 0)
  {
    assert TotalPosted(s.consumers) == Posted(s.consumers[0]);
    assert p in Held(s);
    assert |Held(s)| >= 1 by { assert Held(s) != {}; }
  }

  lemma {:induction false} OneConsumerHasRoom(s: State, steps: seq<Step>)
    requires Accounts(s) && |s.consumers| == 1 && Feasible(s, steps)
    ensures RoomyRun(s, steps, 0)
    decreases |steps|
  {
    if steps != [] {
      if Writes(steps[0]) {
        RoomForWriter(s, steps[0].p);
      }
      StepAccounts(s, steps[0]);
      OneConsumerHasRoom(Next(s, steps[0]), steps[1..]);
    }
  }

  /** How many writes get past the mutex. */
  ghost function Locks(steps: seq<Step>): nat {
    if steps == [] then 0 else (if steps[0].Lock? then 1 else 0) + Locks(steps[1..])
  }

  predicate IsWriting(p: Producer) { p.Copying? || p.Sealed? }

  ghost function Writing(s: State): set<nat> {
    set p | 0 <= p < |s.producers| && IsWriting(s.producers[p])
  }

  lemma WritingMoves(s: State, p: nat, s': State)
    requires OnlyMoves(s, p, s')
    ensures |Writing(s')| == |Writing(s)| + (if IsWriting(s'.producers[p]) then 1 else 0)
                             - (if IsWriting(s.producers[p]) then 1 else 0)
  {
    assert Writing(s') - {p} == Writing(s) - {p};
    OneMoves(Writing(s), Writing(s'), p);
  }

  lemma StepWriting(s: State, step: Step)
    requires Sized(s) && Enabled(s, step)
    ensures var s' := Next(s, step);
            s'.writePos + |Writing(s')| == s.writePos + |Writing(s)| + (if step.Lock? then 1 else 0)
  {
    var s' := Next(s, step);
    if IsProducerStep(step) {
      WritingMoves(s, step.p, s');
    } else {
      assert Writing(s') == Writing(s);
    }
  }

  lemma {:induction false} FewWritesHaveRoom(s: State, steps: seq<Step>, c: nat)
    requires Feasible(s, steps) && c < |s.consumers|
    requires s.writePos + |Writing(s)| + Locks(steps) <= MAX_MESSAGES
    ensures RoomyRun(s, steps, c)
    decreases |steps|
  {
    if steps != [] {
      if Writes(steps[0]) {
        assert steps[0].p in Writing(s);
      }
      StepWriting(s, steps[0]);
      FewWritesHaveRoom(Next(s, steps[0]), steps[1..], c);
    }
  }

  /** Several consumers are all served right as long as the ring does not come around. */
  lemma FirstTurnDelivers(init: State, steps: seq<Step>, c: nat)
    requires Initial(init) && c < |init.consumers| && Feasible(init, steps)
    requires Locks(steps) <= MAX_MESSAGES
    ensures InStep(Run(init, steps), c, Sent(steps), init.maxlen)
  {
    assert Writing(init) == {};
    FewWritesHaveRoom(init, steps, c);
    DeliveryWithRoom(init, steps, c);
  }

  /**
   With one guarded consumer, at every interleaving point of any number of producers: the consumer
   is at most a full ring behind, a slot being written is never the slot being read, sem_full keeps
   a token for every message however many were read, and what it has received is, message by
   message, what was written, cut at a NUL or at its buffer's end.
   */
  lemma ReaderSound(init: State, steps: seq<Step>)
    requires Initial(init) && |init.consumers| == 1 && Feasible(init, steps)
    ensures var s := Run(init, steps);
            InStep(s, 0, Sent(steps), init.maxlen) &&
            var c := s.consumers[0];
            && s.writePos <= c.pos + MAX_MESSAGES
            && (c.stage.Scanning? ==> c.stage.len < MSG_SIZE)
            && s.semFull + |Unposted(s)| == s.writePos
            && (forall p :: 0 <= p < |s.producers| && HasSlot(s.producers[p]) && InRead(c.stage) ==>
                  s.writePos % MAX_MESSAGES != c.pos % MAX_MESSAGES)
  {
    InitialInv(init, 0);
    OneConsumerHasRoom(init, steps);
    RunKeeps(init, steps, 0);
    DeliveryWithRoom(init, steps, 0);
    SlotsConserved(init, steps);
    var s := Run(init, steps);
    assert TotalPosted(s.consumers) == Posted(s.consumers[0]);
    forall p | 0 <= p < |s.producers| && HasSlot(s.producers[p]) && InRead(s.consumers[0].stage)
      ensures s.writePos % MAX_MESSAGES != s.consumers[0].pos % MAX_MESSAGES
    {
      RoomForWriter(s, p);
      WriterAndReaderApart(s, 0);
    }
  }

  /**
   Hence exact delivery in every run with room: the messages received are a prefix of those sent,
   byte for byte, exactly when those read so far have no NUL and fit the consumer's buffer; with
   the buffer of MSG_SIZE bytes that consumer.c uses they always fit.
   */
  lemma ExactDeliveryIff(init: State, steps: seq<Step>, c: nat)
    requires Initial(init) && c < |init.consumers| && Feasible(init, steps) && RoomyRun(init, steps, c)
    ensures var s, sent := Run(init, steps), Sent(steps);
            InStep(s, c, sent, init.maxlen) &&
            (s.consumers[c].received <= sent <==>
               forall i :: 0 <= i < s.consumers[c].pos ==>
                 0 !in sent[i] && |sent[i]| <= init.maxlen - 1)
    ensures init.maxlen >= MSG_SIZE ==>
              forall i :: 0 <= i < |Sent(steps)| ==> |Sent(steps)[i]| <= init.maxlen - 1
  {
    InitialInv(init, c);
    RunKeeps(init, steps, c);
    DeliveryWithRoom(init, steps, c);
    WrittenIsSent(init, steps);
    var sent, x := Sent(steps), Run(init, steps).consumers[c];
    forall i | 0 <= i < x.pos
      ensures x.received[i] == sent[i] <==> 0 !in sent[i] && |sent[i]| <= init.maxlen - 1
    {
      DeliveredExactIff(sent[i], init.maxlen);
    }
    assert x.received <= sent <==> forall i :: 0 <= i < x.pos ==> x.received[i] == sent[i];
  }

  // ---------------------------------------------------------------- writers and readers get on

  /** The steps producer `p` still needs from its lock to its return, and more while it waits for it. */
  ghost function WriteLeft(producer: Producer): int {
    match producer
    case Idle => 0
    case Queued(msg) => |msg| + 5
    case Copying(msg, done) => |msg| - done + 4
    case Sealed(_) => 3
    case Advanced => 2
    case Unlocked => 1
  }

  /** What a producer inside buffer_write does next. */
  ghost function WriterNext(s: State, p: nat): Step
    requires p < |s.producers| && !s.producers[p].Idle?
  {
    match s.producers[p]
    case Queued(_) => Lock(p)
    case Copying(msg, done) => if done < |msg| then CopyByte(p) else Seal(p)
    case Sealed(_) => Advance(p)
    case Advanced => Unlock(p)
    case Unlocked => PostFull(p)
  }

  /**
   A producer that has its slot waits for the mutex only, and only while another producer inside
   can go on; each of its steps brings it nearer to its return, and no step of others sets it back.
   */
  lemma WriterGetsOn(s: State, p: nat, step: Step)
    requires Accounts(s) && p < |s.producers| && !s.producers[p].Idle? && Enabled(s, step)
    ensures Enabled(s, WriterNext(s, p)) ||
            (s.producers[p].Queued? && exists q :: q in Inside(s) && Enabled(s, WriterNext(s, q)))
    ensures var x, x' := s.producers[p], Next(s, step).producers[p];
            if IsProducerStep(step) && step.p == p then WriteLeft(x') < WriteLeft(x) else x' == x
  {
    if s.producers[p].Queued? && s.semMutex == 0 {
      assert Inside(s) != {};
      var q :| q in Inside(s);
      assert Enabled(s, WriterNext(s, q));
    }
  }

  /** A polling consumer enters buffer_read exactly if there is a message it has not read. */
  lemma PollEntersIff(s: State, c: nat)
    requires Guarded(s) && Enabled(s, Poll(c))
    ensures InRead(Next(s, Poll(c)).consumers[c].stage) <==> s.consumers[c].pos < |s.written|
  {
  }

  /** More than the steps of its own that consumer `c` still needs for the message it is reading. */
  ghost function ReadLeft(stage: Stage): int {
    match stage
    case Entered => 2 * MSG_SIZE + 2
    case Scanning(len) => 2 * MSG_SIZE + 1 - len
    case Reading(_, buf) => MSG_SIZE - |buf|
    case _ => 0
  }

  ghost function OwnSteps(steps: seq<Step>, c: nat): nat {
    if steps == [] then 0
    else (if !IsProducerStep(steps[0]) && steps[0].c == c then 1 else 0) + OwnSteps(steps[1..], c)
  }

  lemma ReaderStep(s: State, step: Step, c: nat)
    requires Inv(s, c) && InRead(s.consumers[c].stage) && Enabled(s, step) && Inv(Next(s, step), c)
    ensures var x, x' := s.consumers[c], Next(s, step).consumers[c];
            if IsProducerStep(step) || step.c != c then x' == x
            else if step.Bump? then x'.pos == x.pos + 1
            else x'.pos == x.pos && InRead(x'.stage) && ReadLeft(x'.stage) < ReadLeft(x.stage)
    ensures ReadLeft(s.consumers[c].stage) > 0
  {
  }

  lemma PosGrows(s: State, step: Step, c: nat)
    requires Inv(s, c) && Enabled(s, step)
    ensures |Next(s, step).consumers| == |s.consumers|
    ensures s.consumers[c].pos <= Next(s, step).consumers[c].pos
  {
  }

  lemma {:induction false} PosNeverFalls(s: State, steps: seq<Step>, c: nat)
    requires Inv(s, c) && Feasible(s, steps) && RoomyRun(s, steps, c)
    ensures |Run(s, steps).consumers| == |s.consumers|
    ensures s.consumers[c].pos <= Run(s, steps).consumers[c].pos
    decreases |steps|
  {
    if steps != [] {
      StepKeeps(s, steps[0], c);
      PosGrows(s, steps[0], c);
      PosNeverFalls(Next(s, steps[0]), steps[1..], c);
    }
  }

  /**
   A consumer past the guard that is left room has received its message after a bounded number of
   steps of its own, whatever the others do; `ReadsInside` says that it can always take the next.
   */
  lemma {:induction false} ReaderGetsOn(s: State, steps: seq<Step>, c: nat)
    requires Inv(s, c) && Feasible(s, steps) && RoomyRun(s, steps, c)
    requires InRead(s.consumers[c].stage) && OwnSteps(steps, c) >= ReadLeft(s.consumers[c].stage)
    ensures |Run(s, steps).consumers| == |s.consumers|
    ensures Run(s, steps).consumers[c].pos > s.consumers[c].pos
    decreases |steps|
  {
    var s1 := Next(s, steps[0]);
    StepKeeps(s, steps[0], c);
    ReaderStep(s, steps[0], c);
    PosGrows(s, steps[0], c);
    if s1.consumers[c].pos > s.consumers[c].pos {
      PosNeverFalls(s1, steps[1..], c);
    } else {
      ReaderGetsOn(s1, steps[1..], c);
    }
  }

  // ---------------------------------------------------------------- a slow reader loses a message

  ghost predicate Reaches(s: State, t: State) {
    exists steps :: Feasible(s, steps) && Run(s, steps) == t
  }

  lemma Stays(s: State)
    ensures Reaches(s, s)
  {
    assert Feasible(s, []) && Run(s, []) == s;
  }

  lemma StepThen(s: State, step: Step, u: State)
    requires Sized(s) && Enabled(s, step) && Reaches(Next(s, step), u)
    ensures Reaches(s, u)
  {
    var rest :| Feasible(Next(s, step), rest) && Run(Next(s, step), rest) == u;
    assert ([step] + rest)[1..] == rest;
    assert Feasible(s, [step] + rest) && Run(s, [step] + rest) == u;
  }

  lemma OneStep(s: State, step: Step)
    requires Sized(s) && Enabled(s, step)
    ensures Reaches(s, Next(s, step))
  {
    Stays(Next(s, step));
    StepThen(s, step, Next(s, step));
  }

  lemma {:induction false} RunThen(s: State, steps: seq<Step>, u: State)
    requires Feasible(s, steps) && Reaches(Run(s, steps), u)
    ensures Reaches(s, u)
    decreases |steps|
  {
    if steps != [] {
      RunThen(Next(s, steps[0]), steps[1..], u);
      StepThen(s, steps[0], u);
    }
  }

  lemma Then(s: State, t: State, u: State)
    requires Reaches(s, t) && Reaches(t, u)
    ensures Reaches(s, u)
  {
    var steps :| Feasible(s, steps) && Run(s, steps) == t;
    RunThen(s, steps, u);
  }

  lemma TwoSteps(s: State, a: Step, b: Step)
    requires Sized(s) && Enabled(s, a)
    requires Sized(Next(s, a)) && Enabled(Next(s, a), b)
    ensures Reaches(s, Next(Next(s, a), b))
  {
    OneStep(Next(s, a), b);
    StepThen(s, a, Next(Next(s, a), b));
  }

  /** Nothing under way on the producers' side and a slot to be had. */
  ghost predicate Quiet(s: State) {
    && Sized(s) && |s.producers| >= 1 && s.producers[0].Idle?
    && s.semEmpty > 0 && s.semMutex == 1
  }

  /** The state after producer 0 has written the one-byte message `b`. */
  ghost function Wrote(s: State, b: Byte): State
    requires Quiet(s)
  {
    s.(data := s.data[Offset(s.writePos) := b][Offset(s.writePos) + 1 := 0],
       writePos := s.writePos + 1, semEmpty := s.semEmpty - 1, semFull := s.semFull + 1,
       written := s.written + [[b]])
  }

  lemma SetProducerTwice(s: State, p: nat, x: Producer, y: Producer)
    requires p < |s.producers|
    ensures SetProducer(SetProducer(s, p, x), p, y) == SetProducer(s, p, y)
  {
    assert s.producers[p := x][p := y] == s.producers[p := y];
  }

  lemma LockReaches(s: State, b: Byte)
    requires Quiet(s)
    ensures Reaches(s, SetProducer(s, 0, Copying([b], 0)).(semEmpty := s.semEmpty - 1, semMutex := 0))
  {
    TwoSteps(s, BeginWrite(0, [b]), Lock(0));
    SetProducerTwice(s, 0, Queued([b]), Copying([b], 0));
  }

  lemma CopyReaches(s: State, b: Byte)
    requires Sized(s) && |s.producers| >= 1 && s.producers[0] == Copying([b], 0)
    ensures Reaches(s, SetProducer(s, 0, Sealed([b]))
                         .(data := s.data[Offset(s.writePos) := b][Offset(s.writePos) + 1 := 0]))
  {
    TwoSteps(s, CopyByte(0), Seal(0));
    SetProducerTwice(s, 0, Copying([b], 1), Sealed([b]));
  }

  lemma PublishReaches(s: State, b: Byte)
    requires Sized(s) && |s.producers| >= 1 && s.producers[0] == Sealed([b])
    ensures Reaches(s, SetProducer(s, 0, Idle)
                         .(writePos := s.writePos + 1, semMutex := s.semMutex + 1,
                           semFull := s.semFull + 1, written := s.written + [[b]]))
  {
    var t := Next(s, Advance(0));
    TwoSteps(t, Unlock(0), PostFull(0));
    StepThen(s, Advance(0), Next(Next(t, Unlock(0)), PostFull(0)));
    SetProducerTwice(s, 0, Advanced, Unlocked);
    SetProducerTwice(s, 0, Unlocked, Idle);
  }

  lemma WriteReaches(s: State, b: Byte)
    requires Quiet(s)
    ensures Reaches(s, Wrote(s, b))
  {
    var locked := SetProducer(s, 0, Copying([b], 0)).(semEmpty := s.semEmpty - 1, semMutex := 0);
    var data' := s.data[Offset(s.writePos) := b][Offset(s.writePos) + 1 := 0];
    var copied := SetProducer(s, 0, Sealed([b])).(semEmpty := s.semEmpty - 1, semMutex := 0, data := data');
    LockReaches(s, b);
    CopyReaches(locked, b);
    SetProducerTwice(s, 0, Copying([b], 0), Sealed([b]));
    Then(s, locked, copied);
    PublishReaches(copied, b);
    SetProducerTwice(s, 0, Sealed([b]), Idle);
    assert SetProducer(s, 0, Idle) == s;
    Then(s, copied, Wrote(s, b));
  }

  /** Consumer `c` is about to read the one-byte message `b`. */
  ghost predicate Readable(s: State, c: nat, b: Byte) {
    && Sized(s) && s.maxlen >= 2 && c < |s.consumers|
    && s.consumers[c].stage.Polling? && s.consumers[c].pos < s.writePos
    && b != 0 && s.data[Offset(s.consumers[c].pos)] == b && s.data[Offset(s.consumers[c].pos) + 1] == 0
  }

  ghost function Consumed(s: State, c: nat, b: Byte): State
    requires Readable(s, c, b)
  {
    var Consumer(pos, _, received) := s.consumers[c];
    s.(consumers := s.consumers[c := Consumer(pos + 1, Bumped, received + [[b]])])
  }

  lemma SetStageTwice(s: State, c: nat, x: Stage, y: Stage)
    requires c < |s.consumers|
    ensures SetStage(SetStage(s, c, x), c, y) == SetStage(s, c, y)
  {
    assert SetStage(SetStage(s, c, x), c, y).consumers == SetStage(s, c, y).consumers;
  }

  lemma EnterReaches(s: State, c: nat)
    requires Sized(s) && c < |s.consumers| && s.consumers[c].stage.Polling? && s.consumers[c].pos < s.writePos
    ensures Reaches(s, SetStage(s, c, Scanning(0)))
  {
    TwoSteps(s, Poll(c), Enter(c));
    SetStageTwice(s, c, Entered, Scanning(0));
  }

  lemma ScanReaches(s: State, c: nat)
    requires Sized(s) && s.maxlen >= 2 && c < |s.consumers| && s.consumers[c].stage == Scanning(0)
    requires s.data[Offset(s.consumers[c].pos)] != 0 && s.data[Offset(s.consumers[c].pos) + 1] == 0
    ensures Reaches(s, SetStage(s, c, Reading(1, [])))
  {
    TwoSteps(s, Scan(c), Scan(c));
    SetStageTwice(s, c, Scanning(1), Reading(1, []));
  }

  lemma TakeReaches(s: State, c: nat)
    requires Sized(s) && c < |s.consumers| && s.consumers[c].stage == Reading(1, [])
    ensures var Consumer(pos, _, received) := s.consumers[c];
            Reaches(s, s.(consumers := s.consumers[c :=
              Consumer(pos + 1, Bumped, received + [[s.data[Offset(pos)]]])]))
  {
    TwoSteps(s, ReadByte(c), Bump(c));
    var Consumer(pos, _, received) := s.consumers[c];
    assert [] + [s.data[Offset(pos)]] == [s.data[Offset(pos)]];
    assert Next(Next(s, ReadByte(c)), Bump(c)).consumers == s.consumers[c :=
      Consumer(pos + 1, Bumped, received + [[s.data[Offset(pos)]]])];
  }

  lemma ScannedReaches(s: State, c: nat, b: Byte)
    requires Readable(s, c, b)
    ensures Reaches(s, SetStage(s, c, Reading(1, [])))
  {
    var scanning := SetStage(s, c, Scanning(0));
    EnterReaches(s, c);
    ScanReaches(scanning, c);
    SetStageTwice(s, c, Scanning(0), Reading(1, []));
    Then(s, scanning, SetStage(s, c, Reading(1, [])));
  }

  lemma ReadReaches(s: State, c: nat, b: Byte)
    requires Readable(s, c, b)
    ensures Reaches(s, Consumed(s, c, b))
  {
    var reading := SetStage(s, c, Reading(1, []));
    ScannedReaches(s, c, b);
    TakeReaches(reading, c);
    assert Consumed(s, c, b) == reading.(consumers := reading.consumers[c := Consumed(s, c, b).consumers[c]]);
    Then(s, reading, Consumed(s, c, b));
  }

  /** The first `n` messages were `[1]`, nobody has read, and producer 0 is idle. */
  ghost predicate Filled(init: State, s: State, n: nat)
    requires Initial(init) && n <= MAX_MESSAGES
  {
    && Sized(s) && s.consumers == init.consumers && s.producers == init.producers
    && s.maxlen == init.maxlen && s.semMutex == 1
    && s.writePos == n && s.semEmpty == MAX_MESSAGES - n && |s.written| == n
    && (n > 0 ==> s.written[0] == [1] && s.data[0] == 1 && s.data[1] == 0)
  }

  lemma FilledGrows(init: State, s: State, n: nat)
    requires Initial(init) && |init.producers| >= 1 && n < MAX_MESSAGES && Filled(init, s, n)
    ensures Quiet(s) && Filled(init, Wrote(s, 1), n + 1)
  {
    if n > 0 {
      SlotsApart(0, n);
    }
  }

  lemma {:induction false} FillReaches(init: State, n: nat) returns (s: State)
    requires Initial(init) && |init.producers| >= 1 && n <= MAX_MESSAGES
    ensures Reaches(init, s) && Filled(init, s, n)
  {
    if n == 0 {
      s := init;
      Stays(s);
    } else {
      var t := FillReaches(init, n - 1);
      FilledGrows(init, t, n - 1);
      s := Wrote(t, 1);
      WriteReaches(t, 1);
      Then(init, t, s);
    }
  }

  /** Once consumer `d` has read and posted, the next message goes into slot 0. */
  lemma OverwriteReaches(init: State, full: State, d: nat) returns (s: State)
    requires Initial(init) && |init.producers| >= 1 && init.maxlen >= 2 && d < |init.consumers|
    requires Filled(init, full, MAX_MESSAGES)
    ensures Reaches(full, s) && Sized(s) && s.maxlen == init.maxlen
    ensures s.writePos == MAX_MESSAGES + 1 && s.written == full.written + [[2]]
    ensures s.data[0] == 2 && s.data[1] == 0
    ensures |s.consumers| == |init.consumers|
    ensures forall c :: 0 <= c < |s.consumers| && c != d ==> s.consumers[c] == init.consumers[c]
  {
    ReadReaches(full, d, 1);
    var read := Consumed(full, d, 1);
    var posted := Next(read, PostEmpty(d));
    OneStep(read, PostEmpty(d));
    Then(full, read, posted);
    s := Wrote(posted, 2);
    WriteReaches(posted, 2);
    Then(full, posted, s);
  }

  /**
   A second consumer is enough to lose messages: the first one reads a message of a full ring, its
   post of sem_empty lets a producer overwrite it, and consumer `c` gets the new message instead.
   */
  lemma SlowReaderLoses(init: State, c: nat, d: nat) returns (steps: seq<Step>)
    requires Initial(init) && |init.producers| >= 1 && init.maxlen >= 2
    requires c < |init.consumers| && d < |init.consumers| && c != d
    ensures Feasible(init, steps)
    ensures |Sent(steps)| == MAX_MESSAGES + 1 && Sent(steps)[0] == [1] && Sent(steps)[MAX_MESSAGES] == [2]
    ensures |Run(init, steps).consumers| == |init.consumers| && Run(init, steps).consumers[c].received == [[2]]
  {
    var full := FillReaches(init, MAX_MESSAGES);
    var over := OverwriteReaches(init, full, d);
    Then(init, full, over);
    ReadReaches(over, c, 2);
    var lost := Consumed(over, c, 2);
    Then(init, over, lost);
    steps :| Feasible(init, steps) && Run(init, steps) == lost;
    WrittenIsSent(init, steps);
  }

  lemma OutOfStep(s: State, c: nat, sent: seq<seq<Byte>>, maxlen: nat)
    requires maxlen >= 2 && c < |s.consumers| && s.consumers[c].received == [[2]]
    requires sent != [] && sent[0] == [1]
    ensures !InStep(s, c, sent, maxlen)
  {
    DeliveredExactIff([1], maxlen);
    assert s.consumers[c].received[0] == [2] != Delivered(sent[0], maxlen);
  }

  lemma {:induction false} NoWritersHaveRoom(s: State, steps: seq<Step>, c: nat)
    requires |s.producers| == 0 && Feasible(s, steps)
    ensures RoomyRun(s, steps, c)
    decreases |steps|
  {
    if steps != [] {
      NoWritersHaveRoom(Next(s, steps[0]), steps[1..], c);
    }
  }

  /** A buffer that holds the terminator only receives empty messages, whatever was written. */
  ghost predicate OnlyTerminators(s: State) {
    s.maxlen == 1 && forall c :: 0 <= c < |s.consumers| ==> OnlyTerminator(s.consumers[c])
  }

  ghost predicate OnlyTerminator(c: Consumer) {
    && (c.stage.Reading? ==> c.stage == Reading(0, []))
    && forall i :: 0 <= i < |c.received| ==> c.received[i] == []
  }

  lemma TerminatorStep(s: State, step: Step)
    requires Sized(s) && OnlyTerminators(s) && Enabled(s, step)
    ensures OnlyTerminators(Next(s, step)) && |Next(s, step).consumers| == |s.consumers|
  {
    if !IsProducerStep(step) {
      assert OnlyTerminator(s.consumers[step.c]);
      assert OnlyTerminator(Next(s, step).consumers[step.c]);
    }
  }

  lemma {:induction false} TerminatorRun(s: State, steps: seq<Step>, c: nat)
    requires Guarded(s) && OnlyTerminators(s) && Feasible(s, steps) && c < |s.consumers|
    ensures InStep(Run(s, steps), c, Run(s, steps).written, 1)
    decreases |steps|
  {
    if steps == [] {
      assert Behind(s.consumers[c], s.writePos) && OnlyTerminator(s.consumers[c]);
    } else {
      if IsProducerStep(steps[0]) {
        ProducerGuarded(s, steps[0]);
      } else {
        ConsumerGuarded(s, steps[0]);
      }
      TerminatorStep(s, steps[0]);
      TerminatorRun(Next(s, steps[0]), steps[1..], c);
    }
  }

  lemma ServedAlways(init: State, steps: seq<Step>, c: nat)
    requires Initial(init) && c < |init.consumers| && Feasible(init, steps)
    requires |init.consumers| == 1 || |init.producers| == 0 || init.maxlen == 1
    ensures InStep(Run(init, steps), c, Sent(steps), init.maxlen)
  {
    InitialInv(init, c);
    if init.maxlen == 1 {
      TerminatorRun(init, steps, c);
      WrittenIsSent(init, steps);
    } else if |init.consumers| == 1 {
      OneConsumerHasRoom(init, steps);
      DeliveryWithRoom(init, steps, c);
    } else {
      NoWritersHaveRoom(init, steps, c);
      DeliveryWithRoom(init, steps, c);
    }
  }

  /**
   So a reader is served right whatever the schedule exactly when it is the only one (or nobody
   writes, or its buffer has room for nothing).
   */
  lemma ReaderServedIff(init: State, c: nat)
    requires Initial(init) && c < |init.consumers|
    ensures (forall steps :: Feasible(init, steps) ==> InStep(Run(init, steps), c, Sent(steps), init.maxlen))
            <==> |init.consumers| == 1 || |init.producers| == 0 || init.maxlen == 1
  {
    if |init.consumers| == 1 || |init.producers| == 0 || init.maxlen == 1 {
      forall steps | Feasible(init, steps) ensures InStep(Run(init, steps), c, Sent(steps), init.maxlen) {
        ServedAlways(init, steps, c);
      }
    } else {
      var d := if c == 0 then 1 else 0;
      var steps := SlowReaderLoses(init, c, d);
      OutOfStep(Run(init, steps), c, Sent(steps), init.maxlen);
    }
  }
}
