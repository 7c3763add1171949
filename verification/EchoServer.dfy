/**
 The event loop of 04_networking/tcp_echo_server/server_epoll.c: the slot table of sockets and
 clients, each client's buffer, and the cleanup. What poll, accept, read and write return is
 arbitrary and comes in as parameters.
 */
module EchoServer {
  import opened Common

  const BUFFER_SIZE: nat := 4096
  const MAX_CLIENTS: nat := 10000
  // the listening socket has the first place in the tables
  const SLOTS: nat := MAX_CLIENTS - 1

  /** `buffer` is the filled part of the client's buffer; `received` and `sent` are its history. */
  datatype Client = Client(fd: nat, buffer: seq<Byte>, received: seq<Byte>, sent: seq<Byte>)

  /**
   One client's outcome in one round: the poll flags, the bytes read() finds (none if the peer
   closed or read failed) and the number of bytes write() takes (negative if it failed).
   */
  datatype Event = Event(pollIn: bool, hupOrErr: bool, incoming: seq<Byte>, written: int)

  /** An accepted socket and whether it could be made non-blocking. */
  datatype Arrival = Arrival(fd: nat, nonblocking: bool)

  datatype Round = Round(arrivals: seq<Arrival>, events: nat -> Event)

  function NewClient(fd: nat): Client { Client(fd, [], [], []) }

  /** read() into the rest of the buffer; None when it returns 0 or fails. */
  function Receive(c: Client, ev: Event): (r: Option<Client>)
    ensures r.Some? ==> r.value.fd == c.fd && r.value.sent == c.sent && c.received <= r.value.received
  {
    var n := Min(|ev.incoming|, BUFFER_SIZE - |c.buffer|);
    if n <= 0 then None
    else Some(c.(buffer := c.buffer + ev.incoming[..n], received := c.received + ev.incoming[..n]))
  }

  /** write() what is buffered and keep the rest. */
  function Reply(c: Client, accepts: int): (r: Client)
    ensures r.fd == c.fd && r.received == c.received && c.sent <= r.sent
  {
    var n := Min(accepts, |c.buffer|);
    if n <= 0 then c else c.(buffer := c.buffer[n..], sent := c.sent + c.buffer[..n])
  }

  /** A slot after its client's turn; None when the connection is dropped. */
  function Served(c: Client, ev: Event): Option<Client> {
    var r := if ev.pollIn then Receive(c, ev) else Some(c);
    if r.None? || ev.hupOrErr then None else Some(Reply(r.value, ev.written))
  }

  function After(slot: Option<Client>, ev: Event): Option<Client> {
    if slot.Some? then Served(slot.value, ev) else None
  }

  /** Everything received was sent back or is buffered, in order. */
  ghost predicate Echoes(c: Client) {
    c.sent + c.buffer == c.received && |c.buffer| <= BUFFER_SIZE
  }

  lemma ServedEchoes(c: Client, ev: Event)
    requires Echoes(c)
    ensures Served(c, ev).Some? ==>
              && Echoes(Served(c, ev).value)
              && Served(c, ev).value.fd == c.fd
              && c.sent <= Served(c, ev).value.sent && c.received <= Served(c, ev).value.received
  {
  }

  /** The client as it is when its connection is dropped: what was read just before counts. */
  function Dropped(c: Client, ev: Event): Client {
    var r := if ev.pollIn then Receive(c, ev) else None;
    if r.Some? then r.value else c
  }

  /**
   Exactly when a client is dropped. One case is a live client: read() into a full buffer has
   length 0, returns 0 and is taken for the end of the connection.
   */
  lemma DroppedIff(c: Client, ev: Event)
    requires Echoes(c)
    ensures Served(c, ev).None? <==>
              ev.hupOrErr || (ev.pollIn && (ev.incoming == [] || |c.buffer| == BUFFER_SIZE))
    ensures Echoes(Dropped(c, ev)) && Dropped(c, ev).fd == c.fd
    ensures c.sent == Dropped(c, ev).sent && c.received <= Dropped(c, ev).received
  {
  }

  /** So a peer whose first 4096 bytes cannot be echoed at once loses all of them by sending more. */
  lemma FullBufferLost(fd: nat, bytes: seq<Byte>, ev: Event)
    requires |bytes| == BUFFER_SIZE && ev.pollIn
    ensures var c := Served(NewClient(fd), Event(true, false, bytes, -1));
            && c.Some? && Echoes(c.value)
            && Served(c.value, ev).None?
            && Dropped(c.value, ev).sent == [] && Dropped(c.value, ev).received == bytes
  {
    var event := Event(true, false, bytes, -1);
    ServedEchoes(NewClient(fd), event);
    DroppedIff(NewClient(fd), event);
    var c := Served(NewClient(fd), event).value;
    assert bytes[..BUFFER_SIZE] == bytes;
    assert c == Client(fd, bytes, bytes, []);
    DroppedIff(c, ev);
  }

  // ---------------------------------------------------------------- conversations

  /**
   A connection seen from the network, with no buffer: what was read from it, how many of these
   bytes were written back, and whether it is still open.
   */
  datatype Talk = Talk(open: bool, received: seq<Byte>, echoed: nat)

  const Begin: Talk := Talk(true, [], 0)

  ghost predicate Sound(t: Talk) { t.echoed <= |t.received| <= t.echoed + BUFFER_SIZE }

  /** How many bytes read() takes when `held` bytes await their echo. */
  function BytesRead(ev: Event, held: int): int {
    if ev.pollIn then Min(|ev.incoming|, BUFFER_SIZE - held) else 0
  }

  /** How many bytes write() takes of `held` bytes. */
  function BytesWritten(ev: Event, held: int): int {
    if ev.written <= 0 then 0 else Min(ev.written, held)
  }

  /** One round: as many bytes are read as fit, and of those not yet echoed as many as write() takes. */
  ghost function Spoken(t: Talk, ev: Event): (r: Talk)
    requires Sound(t)
    ensures Sound(r) && (!t.open ==> r == t)
  {
    var n := BytesRead(ev, |t.received| - t.echoed);
    var received := t.received + ev.incoming[..n];
    if !t.open then t
    else if ev.hupOrErr || (ev.pollIn && n == 0) then Talk(false, received, t.echoed)
    else Talk(true, received, t.echoed + BytesWritten(ev, |received| - t.echoed))
  }

  ghost function Conversation(events: seq<Event>): (t: Talk)
    ensures Sound(t)
  {
    if events == [] then Begin
    else Spoken(Conversation(events[..|events| - 1]), events[|events| - 1])
  }

  /** The client of a conversation: sent is the first part of what was received, the rest is buffered. */
  ghost function Record(fd: nat, t: Talk): (c: Client)
    requires Sound(t)
    ensures Echoes(c) && c.fd == fd && c.received == t.received && |c.sent| == t.echoed
  {
    Client(fd, t.received[t.echoed..], t.received, t.received[..t.echoed])
  }

  lemma EchoesIsRecord(c: Client)
    requires Echoes(c)
    ensures Sound(Talk(true, c.received, |c.sent|)) && c == Record(c.fd, Talk(true, c.received, |c.sent|))
  {
    assert c.received[|c.sent|..] == c.buffer && c.received[..|c.sent|] == c.sent;
  }

  /** What a client's turn reads and writes, counted: everything read is kept, everything taken is sent. */
  lemma ServedExact(c: Client, ev: Event)
    requires Echoes(c) && Served(c, ev).Some?
    ensures var c', n := Served(c, ev).value, BytesRead(ev, |c.buffer|);
            && n >= 0 && c'.received == c.received + ev.incoming[..n]
            && |c'.sent| == |c.sent| + BytesWritten(ev, |c.buffer| + n)
  {
  }

  lemma DroppedExact(c: Client, ev: Event)
    requires Echoes(c) && Served(c, ev).None?
    ensures var n := BytesRead(ev, |c.buffer|);
            n >= 0 && Dropped(c, ev).received == c.received + ev.incoming[..n] && Dropped(c, ev).sent == c.sent
  {
    assert ev.incoming[..0] == [];
  }

  /** The buffer's work is that of the conversation. */
  lemma ServedIsSpoken(fd: nat, t: Talk, ev: Event)
    requires Sound(t) && t.open
    ensures var c, t' := Record(fd, t), Spoken(t, ev);
            if t'.open then Served(c, ev) == Some(Record(fd, t'))
            else Served(c, ev) == None && Dropped(c, ev) == Record(fd, t')
  {
    var c, t' := Record(fd, t), Spoken(t, ev);
    ServedEchoes(c, ev);
    DroppedIff(c, ev);
    if t'.open {
      ServedExact(c, ev);
      SameRecord(Served(c, ev).value, fd, t');
    } else {
      DroppedExact(c, ev);
      SameRecord(Dropped(c, ev), fd, t');
    }
  }

  lemma SameRecord(c: Client, fd: nat, t: Talk)
    requires Echoes(c) && Sound(t) && c.fd == fd && c.received == t.received && |c.sent| == t.echoed
    ensures c == Record(fd, t)
  {
    EchoesIsRecord(c);
  }

  // ---------------------------------------------------------------- sockets and slots

  ghost function ArrivedFds(arrivals: seq<Arrival>): multiset<nat> {
    if arrivals == [] then multiset{}
    else ArrivedFds(arrivals[..|arrivals| - 1]) + multiset{arrivals[|arrivals| - 1].fd}
  }

  ghost function AllArrivals(rounds: seq<Round>): seq<Arrival> {
    if rounds == [] then []
    else AllArrivals(rounds[..|rounds| - 1]) + rounds[|rounds| - 1].arrivals
  }

  /** The sockets that got a slot, in the order of the slots, and those that were closed at once. */
  datatype Intake = Intake(admitted: seq<nat>, refused: seq<nat>)

  /** What one arrival adds, with `room` slots in all; no slot is ever used again. */
  function Admit(x: Intake, a: Arrival, room: nat): Intake {
    if a.nonblocking && |x.admitted| < room then x.(admitted := x.admitted + [a.fd])
    else x.(refused := x.refused + [a.fd])
  }

  function AdmitAll(x: Intake, arrivals: seq<Arrival>, room: nat): Intake {
    if arrivals == [] then x
    else Admit(AdmitAll(x, arrivals[..|arrivals| - 1], room), arrivals[|arrivals| - 1], room)
  }

  lemma AdmitNext(x: Intake, arrivals: seq<Arrival>, k: nat, room: nat)
    requires k < |arrivals|
    ensures AdmitAll(x, arrivals[..k + 1], room) == Admit(AdmitAll(x, arrivals[..k], room), arrivals[k], room)
  {
    assert arrivals[..k + 1][..k] == arrivals[..k];
  }

  lemma {:induction false} AdmitConcat(x: Intake, a: seq<Arrival>, b: seq<Arrival>, room: nat)
    ensures AdmitAll(x, a + b, room) == AdmitAll(AdmitAll(x, a, room), b, room)
  {
    if b == [] {
      assert a + b == a;
    } else {
      AdmitConcat(x, a, b[..|b| - 1], room);
      assert (a + b)[..|a + b| - 1] == a + b[..|b| - 1];
    }
  }

  lemma RoundAdmits(rounds: seq<Round>, k: nat)
    requires k < |rounds|
    ensures var before := AdmitAll(Intake([], []), AllArrivals(rounds[..k]), SLOTS);
            AdmitAll(Intake([], []), AllArrivals(rounds[..k + 1]), SLOTS) == AdmitAll(before, rounds[k].arrivals, SLOTS)
  {
    assert rounds[..k + 1][..k] == rounds[..k];
    AdmitConcat(Intake([], []), AllArrivals(rounds[..k]), rounds[k].arrivals, SLOTS);
  }

  /** The sockets that could be made non-blocking, in order. */
  function Usable(arrivals: seq<Arrival>): seq<nat> {
    if arrivals == [] then []
    else
      var last := arrivals[|arrivals| - 1];
      Usable(arrivals[..|arrivals| - 1]) + (if last.nonblocking then [last.fd] else [])
  }

  function FirstUsable(arrivals: seq<Arrival>, n: nat): seq<nat> {
    var fds := Usable(arrivals);
    if |fds| > n then fds[..n] else fds
  }

  /** The first `room` usable sockets are admitted, however late they come, and all others refused. */
  lemma {:induction false} FirstAreAdmitted(arrivals: seq<Arrival>, room: nat)
    ensures var x := AdmitAll(Intake([], []), arrivals, room);
            && x.admitted == FirstUsable(arrivals, room)
            && multiset(x.admitted) + multiset(x.refused) == ArrivedFds(arrivals)
  {
    if arrivals != [] {
      FirstAreAdmitted(arrivals[..|arrivals| - 1], room);
    }
  }

  /** The round's events for slot `i` in every round in which the slot is taken. */
  ghost function EventsOf(rounds: seq<Round>, i: nat): seq<Event> {
    if rounds == [] then []
    else
      EventsOf(rounds[..|rounds| - 1], i) +
      (if i <= Taken(rounds) then [rounds[|rounds| - 1].events(i)] else [])
  }

  /** How many slots are taken after the rounds. */
  ghost function Taken(rounds: seq<Round>): nat {
    |AdmitAll(Intake([], []), AllArrivals(rounds), SLOTS).admitted|
  }

  lemma {:induction false} AdmittedGrows(x: Intake, arrivals: seq<Arrival>, room: nat)
    ensures |x.admitted| <= |AdmitAll(x, arrivals, room).admitted|
  {
    if arrivals != [] {
      AdmittedGrows(x, arrivals[..|arrivals| - 1], room);
    }
  }

  lemma TakenGrows(rounds: seq<Round>, k: nat)
    requires k < |rounds|
    ensures Taken(rounds[..k]) <= Taken(rounds[..k + 1])
  {
    RoundAdmits(rounds, k);
    AdmittedGrows(AdmitAll(Intake([], []), AllArrivals(rounds[..k]), SLOTS), rounds[k].arrivals, SLOTS);
  }

  lemma {:induction false} NoEventsYet(rounds: seq<Round>, k: nat, i: nat)
    requires k <= |rounds| && i > Taken(rounds[..k])
    ensures EventsOf(rounds[..k], i) == []
  {
    if k > 0 {
      TakenGrows(rounds, k - 1);
      NoEventsYet(rounds, k - 1, i);
      assert rounds[..k][..k - 1] == rounds[..k - 1];
    }
  }

  /** The conversation of a slot goes on in every round in which the slot is taken. */
  lemma ConversationGoesOn(rounds: seq<Round>, k: nat, i: nat)
    requires k < |rounds| && 1 <= i <= Taken(rounds[..k + 1])
    ensures var before := if i <= Taken(rounds[..k]) then Conversation(EventsOf(rounds[..k], i)) else Begin;
            Conversation(EventsOf(rounds[..k + 1], i)) == Spoken(before, rounds[k].events(i))
  {
    var before, ev := EventsOf(rounds[..k], i), rounds[k].events(i);
    assert rounds[..k + 1][..k] == rounds[..k];
    assert EventsOf(rounds[..k + 1], i) == before + [ev];
    assert (before + [ev])[..|before|] == before;
    if i > Taken(rounds[..k]) {
      NoEventsYet(rounds, k, i);
    }
  }

  // ---------------------------------------------------------------- which sockets are open

  /** How many open connections use the socket. */
  ghost function Open(fds: seq<nat>, talks: seq<Talk>, fd: nat): nat
    requires |fds| == |talks|
  {
    if fds == [] then 0
    else
      var n := |fds| - 1;
      Open(fds[..n], talks[..n], fd) + (if talks[n].open && fds[n] == fd then 1 else 0)
  }

  lemma {:induction false} OpenUpdate(fds: seq<nat>, talks: seq<Talk>, k: nat, t: Talk, fd: nat)
    requires k < |fds| == |talks|
    ensures Open(fds, talks[k := t], fd) + (if talks[k].open && fds[k] == fd then 1 else 0)
            == Open(fds, talks, fd) + (if t.open && fds[k] == fd then 1 else 0)
  {
    var talks', n := talks[k := t], |fds| - 1;
    if k == n {
      assert talks'[..n] == talks[..n];
    } else {
      OpenUpdate(fds[..n], talks[..n], k, t, fd);
      assert talks'[..n] == talks[..n][k := t];
    }
  }

  lemma OpenAppend(fds: seq<nat>, talks: seq<Talk>, socket: nat, t: Talk, fd: nat)
    requires |fds| == |talks|
    ensures Open(fds + [socket], talks + [t], fd)
            == Open(fds, talks, fd) + (if t.open && socket == fd then 1 else 0)
  {
    assert (fds + [socket])[..|fds|] == fds && (talks + [t])[..|talks|] == talks;
  }

  lemma {:induction false} OpenNone(fds: seq<nat>, talks: seq<Talk>, fd: nat)
    requires |fds| == |talks| && forall k :: 0 <= k < |talks| ==> !talks[k].open
    ensures Open(fds, talks, fd) == 0
  {
    if fds != [] {
      OpenNone(fds[..|fds| - 1], talks[..|fds| - 1], fd);
    }
  }

  /** Every socket accepted is closed or open. */
  ghost predicate Balanced(closed: multiset<nat>, x: Intake, talks: seq<Talk>) {
    && |x.admitted| == |talks|
    && forall fd: nat :: closed[fd] + Open(x.admitted, talks, fd) == multiset(x.admitted)[fd] + multiset(x.refused)[fd]
  }

  lemma BalancedAdmit(closed: multiset<nat>, x: Intake, talks: seq<Talk>, socket: nat)
    requires Balanced(closed, x, talks)
    ensures Balanced(closed, x.(admitted := x.admitted + [socket]), talks + [Begin])
  {
    forall fd: nat
      ensures closed[fd] + Open(x.admitted + [socket], talks + [Begin], fd)
              == multiset(x.admitted + [socket])[fd] + multiset(x.refused)[fd]
    {
      OpenAppend(x.admitted, talks, socket, Begin, fd);
      assert closed[fd] + Open(x.admitted, talks, fd) == multiset(x.admitted)[fd] + multiset(x.refused)[fd];
    }
  }

  lemma BalancedRefuse(closed: multiset<nat>, x: Intake, talks: seq<Talk>, socket: nat)
    requires Balanced(closed, x, talks)
    ensures Balanced(closed + multiset{socket}, x.(refused := x.refused + [socket]), talks)
  {
    forall fd: nat
      ensures (closed + multiset{socket})[fd] + Open(x.admitted, talks, fd)
              == multiset(x.admitted)[fd] + multiset(x.refused + [socket])[fd]
    {
      assert closed[fd] + Open(x.admitted, talks, fd) == multiset(x.admitted)[fd] + multiset(x.refused)[fd];
    }
  }

  /** A connection goes on, or is closed. */
  lemma BalancedTurn(closed: multiset<nat>, x: Intake, talks: seq<Talk>, k: nat, t: Talk)
    requires Balanced(closed, x, talks) && k < |talks| && talks[k].open
    ensures Balanced(if t.open then closed else closed + multiset{x.admitted[k]}, x, talks[k := t])
  {
    var closed' := if t.open then closed else closed + multiset{x.admitted[k]};
    forall fd: nat
      ensures closed'[fd] + Open(x.admitted, talks[k := t], fd) == multiset(x.admitted)[fd] + multiset(x.refused)[fd]
    {
      OpenUpdate(x.admitted, talks, k, t, fd);
      assert closed[fd] + Open(x.admitted, talks, fd) == multiset(x.admitted)[fd] + multiset(x.refused)[fd];
    }
  }

  lemma BalancedEnd(closed: multiset<nat>, x: Intake, talks: seq<Talk>)
    requires Balanced(closed, x, talks) && forall k :: 0 <= k < |talks| ==> !talks[k].open
    ensures closed == multiset(x.admitted) + multiset(x.refused)
  {
    forall fd: nat ensures closed[fd] == (multiset(x.admitted) + multiset(x.refused))[fd] {
      OpenNone(x.admitted, talks, fd);
    }
  }

  /** What a slot of the two tables holds: the client as long as its connection is open. */
  ghost predicate SlotIs(fd: int, slot: Option<Client>, socket: nat, t: Talk, last: Client) {
    && Sound(t) && last == Record(socket, t)
    && fd == (if t.open then socket else -1)
    && slot == (if t.open then Some(last) else None)
  }

  /** The conversation has had its round, or not yet. */
  ghost predicate TalkAfter(before: Talk, now: Talk, had: bool, ev: Event) {
    Sound(before) && now == if had then Spoken(before, ev) else before
  }

  /** The slots before `i` have had their turn. */
  ghost predicate HadTurn(before: seq<Talk>, now: seq<Talk>, i: nat, events: nat -> Event) {
    && |before| == |now|
    && forall k :: 0 <= k < |now| ==> TalkAfter(before[k], now[k], k + 1 < i, events(k + 1))
  }

  lemma HadTurnNext(before: seq<Talk>, now: seq<Talk>, i: nat, events: nat -> Event)
    requires 1 <= i <= |now| && HadTurn(before, now, i, events)
    ensures Sound(now[i - 1])
    ensures HadTurn(before, now[i - 1 := Spoken(now[i - 1], events(i))], i + 1, events)
  {
    assert TalkAfter(before[i - 1], now[i - 1], false, events(i));
  }

  class Server {
    const fds: array<int>
    const clients: array<Option<Client>>
    var nfds: nat
    var activeClients: int

    ghost var intake: Intake  // what became of the sockets accept() returned
    ghost var talks: seq<Talk>  // the conversation of each slot
    ghost var last: seq<Client>  // each slot's client, as it is or was when it was dropped
    ghost var closed: multiset<nat>  // client sockets passed to close()

    ghost predicate Valid()
      reads this, fds, clients
    {
      && Tables() && Balanced(closed, intake, talks)
      && activeClients == |intake.admitted| + |intake.refused| - |closed|
    }

    ghost predicate Tables()
      reads this`nfds, this`intake, this`talks, this`last, fds, clients
    {
      && fds.Length == clients.Length == MAX_CLIENTS
      && nfds == 1 + |intake.admitted| <= MAX_CLIENTS && |talks| == |last| == |intake.admitted|
      && clients[0].None?
      && forall i :: 1 <= i < nfds ==> SlotIs(fds[i], clients[i], intake.admitted[i - 1], talks[i - 1], last[i - 1])
    }

    lemma LastAreRecords()
      requires Tables()
      ensures forall k :: 0 <= k < |last| ==> Sound(talks[k]) && last[k] == Record(intake.admitted[k], talks[k])
    {
      forall k | 0 <= k < |last| ensures Sound(talks[k]) && last[k] == Record(intake.admitted[k], talks[k]) {
        assert SlotIs(fds[k + 1], clients[k + 1], intake.admitted[k], talks[k], last[k]);
      }
    }

    constructor (listenFd: nat)
      ensures Valid() && fresh(fds) && fresh(clients)
      ensures intake == Intake([], []) && talks == [] && closed == multiset{}
    {
      fds := new int[MAX_CLIENTS](_ => 0);
      clients := new Option<Client>[MAX_CLIENTS](_ => None);
      nfds, activeClients := 1, 0;
      intake, talks, last, closed := Intake([], []), [], [], multiset{};
      new;
      fds[0] := listenFd;
    }

    /** A new connection gets the next slot, or is closed at once. */
    method Accept(a: Arrival)
      requires Valid()
      modifies this, fds, clients
      ensures Valid() && intake == Admit(old(intake), a, SLOTS)
      ensures talks == old(talks) + (if |intake.admitted| > |old(intake).admitted| then [Begin] else [])
    {
      if a.nonblocking && nfds < MAX_CLIENTS {
        GiveSlot(a.fd);
      } else {
        Refuse(a.fd);
      }
    }

    ghost method Refuse(fd: nat)
      requires Valid()
      modifies this`closed, this`intake
      ensures Valid() && intake == old(intake).(refused := old(intake).refused + [fd])
    {
      BalancedRefuse(closed, intake, talks, fd);
      closed := closed + multiset{fd};
      intake := intake.(refused := intake.refused + [fd]);
    }

    method GiveSlot(fd: nat)
      requires Valid() && nfds < MAX_CLIENTS
      modifies this`nfds, this`activeClients, this`intake, this`talks, this`last, fds, clients
      ensures Valid() && intake == old(intake).(admitted := old(intake).admitted + [fd])
      ensures talks == old(talks) + [Begin]
    {
      BalancedAdmit(closed, intake, talks, fd);
      FillSlot(fd);
      activeClients := activeClients + 1;
    }

    method FillSlot(fd: nat)
      requires Tables() && nfds < MAX_CLIENTS
      modifies this`nfds, this`intake, this`talks, this`last, fds, clients
      ensures Tables() && intake == old(intake).(admitted := old(intake).admitted + [fd])
      ensures talks == old(talks) + [Begin]
    {
      fds[nfds] := fd;
      clients[nfds] := Some(NewClient(fd));
      nfds := nfds + 1;
      intake := intake.(admitted := intake.admitted + [fd]);
      talks, last := talks + [Begin], last + [NewClient(fd)];
    }

    /** One client's turn: read, then drop it or echo. */
    method Service(i: nat, ev: Event)
      requires Valid() && 1 <= i < nfds
      modifies this`activeClients, this`closed, this`talks, this`last, fds, clients
      ensures Valid() && |talks| == |old(talks)|
      ensures clients[i] == After(old(clients[i]), ev)
      ensures Sound(old(talks)[i - 1]) && talks == old(talks)[i - 1 := Spoken(old(talks)[i - 1], ev)]
    {
      assert SlotIs(fds[i], clients[i], intake.admitted[i - 1], talks[i - 1], last[i - 1]);
      if fds[i] >= 0 {
        ServiceClient(i, ev);
        assert SlotIs(fds[i], clients[i], intake.admitted[i - 1], talks[i - 1], last[i - 1]);
        ServedIsSpoken(intake.admitted[i - 1], old(talks)[i - 1], ev);
      } else {
        assert talks[i - 1 := talks[i - 1]] == talks;
      }
    }

    method ServiceClient(i: nat, ev: Event)
      requires Valid() && 1 <= i < nfds && talks[i - 1].open && Sound(talks[i - 1])
      modifies this`activeClients, this`closed, this`talks, this`last, fds, clients
      ensures Valid() && talks == old(talks)[i - 1 := Spoken(old(talks)[i - 1], ev)]
    {
      assert SlotIs(fds[i], clients[i], intake.admitted[i - 1], talks[i - 1], last[i - 1]);
      ServedIsSpoken(intake.admitted[i - 1], talks[i - 1], ev);
      ghost var t := Spoken(talks[i - 1], ev);
      var client := clients[i].value;
      if ev.pollIn {
        var n := Min(|ev.incoming|, BUFFER_SIZE - |client.buffer|);
        if n <= 0 {
          Drop(i, client, t);
          return;
        }
        client := client.(buffer := client.buffer + ev.incoming[..n],
                          received := client.received + ev.incoming[..n]);
      }
      HangUpOrEcho(i, client, ev, t);
    }

    method HangUpOrEcho(i: nat, client: Client, ev: Event, ghost t: Talk)
      requires Valid() && 1 <= i < nfds && talks[i - 1].open && Sound(t) && t.open == !ev.hupOrErr
      requires (if ev.hupOrErr then client else Reply(client, ev.written)) == Record(intake.admitted[i - 1], t)
      modifies this`activeClients, this`closed, this`talks, this`last, fds, clients
      ensures Valid() && talks == old(talks)[i - 1 := t]
    {
      if ev.hupOrErr {
        Drop(i, client, t);
      } else {
        Echo(i, client, ev.written, t);
      }
    }

    method Echo(i: nat, client: Client, accepts: int, ghost t: Talk)
      requires Valid() && 1 <= i < nfds && talks[i - 1].open && Sound(t) && t.open
      requires Reply(client, accepts) == Record(intake.admitted[i - 1], t)
      modifies this`talks, this`last, clients
      ensures Valid() && talks == old(talks)[i - 1 := t]
    {
      var written := Min(accepts, |client.buffer|);
      if written > 0 {
        Store(i, client.(buffer := client.buffer[written..],
                         sent := client.sent + client.buffer[..written]), t);
      } else {
        Store(i, client, t);
      }
    }

    method Store(i: nat, client: Client, ghost t: Talk)
      requires Valid() && 1 <= i < nfds && talks[i - 1].open && Sound(t) && t.open
      requires client == Record(intake.admitted[i - 1], t)
      modifies this`talks, this`last, clients
      ensures Valid() && talks == old(talks)[i - 1 := t]
    {
      BalancedTurn(closed, intake, talks, i - 1, t);
      assert SlotIs(fds[i], clients[i], intake.admitted[i - 1], talks[i - 1], last[i - 1]);
      clients[i] := Some(client);
      talks, last := talks[i - 1 := t], last[i - 1 := client];
    }

    method Drop(i: nat, ghost client: Client, ghost t: Talk)
      requires Valid() && 1 <= i < nfds && talks[i - 1].open && Sound(t) && !t.open
      requires client == Record(intake.admitted[i - 1], t)
      modifies this`activeClients, this`closed, this`talks, this`last, fds, clients
      ensures Valid() && talks == old(talks)[i - 1 := t]
    {
      BalancedTurn(closed, intake, talks, i - 1, t);
      closed := closed + multiset{intake.admitted[i - 1]};
      clients[i] := None;
      fds[i] := -1;
      activeClients := activeClients - 1;
      talks, last := talks[i - 1 := t], last[i - 1 := client];
    }

    /** The accept loop. */
    method AcceptAll(arrivals: seq<Arrival>)
      requires Valid()
      modifies this, fds, clients
      ensures Valid() && intake == AdmitAll(old(intake), arrivals, SLOTS)
      ensures old(talks) <= talks && forall k :: |old(talks)| <= k < |talks| ==> talks[k] == Begin
    {
      for k := 0 to |arrivals|
        invariant Valid() && intake == AdmitAll(old(intake), arrivals[..k], SLOTS)
        invariant old(talks) <= talks && forall k :: |old(talks)| <= k < |talks| ==> talks[k] == Begin
      {
        AdmitNext(old(intake), arrivals, k, SLOTS);
        Accept(arrivals[k]);
      }
      assert arrivals[..|arrivals|] == arrivals;
    }

    /** The loop over the client sockets. */
    method ServiceAll(events: nat -> Event)
      requires Valid()
      modifies this`activeClients, this`closed, this`talks, this`last, fds, clients
      ensures Valid() && HadTurn(old(talks), talks, nfds, events)
    {
      ghost var before := talks;
      LastAreRecords();
      for i := 1 to nfds
        invariant Valid() && HadTurn(before, talks, i, events)
      {
        HadTurnNext(before, talks, i, events);
        Service(i, events(i));
      }
    }

    /** The event loop's body after poll(): every client gets its turn, the new ones too. */
    method Turn(round: Round)
      requires Valid()
      modifies this, fds, clients
      ensures Valid() && intake == AdmitAll(old(intake), round.arrivals, SLOTS)
      ensures |old(talks)| <= |talks|
      ensures forall k :: 0 <= k < |talks| ==>
                TalkAfter(if k < |old(talks)| then old(talks)[k] else Begin, talks[k], true, round.events(k + 1))
    {
      AcceptAll(round.arrivals);
      ServiceAll(round.events);
    }

    /** Close what is still open. */
    method Cleanup()
      requires Valid()
      modifies this`closed
      ensures closed == multiset(intake.admitted) + multiset(intake.refused)
    {
      ghost var rest := talks;
      for i := 1 to nfds
        invariant Balanced(closed, intake, rest)
        invariant forall k :: 0 <= k < |rest| ==> if k + 1 < i then !rest[k].open else rest[k] == talks[k]
      {
        assert SlotIs(fds[i], clients[i], intake.admitted[i - 1], talks[i - 1], last[i - 1]);
        if fds[i] >= 0 {
          ghost var over := rest[i - 1].(open := false);
          BalancedTurn(closed, intake, rest, i - 1, over);
          closed := closed + multiset{clients[i].value.fd};
          rest := rest[i - 1 := over];
        }
      }
      BalancedEnd(closed, intake, rest);
    }
  }

  /**
   The server from start to exit, whatever the network does. The first non-blocking sockets of the
   whole run, up to the size of the table, become clients and all others are closed at once. The
   sockets closed are exactly those that accept() returned, each as often. What each client was
   read and sent is its conversation, round by round from the one in which it was accepted.
   */
  method Serve(listenFd: nat, rounds: seq<Round>) returns (server: Server)
    ensures server.intake.admitted == FirstUsable(AllArrivals(rounds), SLOTS)
    ensures server.closed == ArrivedFds(AllArrivals(rounds))
    ensures Recorded(server.last, server.intake.admitted, rounds)
    ensures forall k :: 0 <= k < |server.last| ==>
              Echoes(server.last[k]) && server.last[k].sent <= server.last[k].received
  {
    server := new Server(listenFd);
    EventLoop(server, rounds);
    FirstAreAdmitted(AllArrivals(rounds), SLOTS);
    server.Cleanup();
    RecordsEcho(server.last, server.intake.admitted, rounds);
  }

  /** Each slot's client is that of its conversation. */
  ghost predicate Recorded(last: seq<Client>, admitted: seq<nat>, rounds: seq<Round>) {
    && |last| == |admitted|
    && forall k :: 0 <= k < |last| ==> last[k] == Record(admitted[k], Conversation(EventsOf(rounds, k + 1)))
  }

  lemma RecordsEcho(last: seq<Client>, admitted: seq<nat>, rounds: seq<Round>)
    requires Recorded(last, admitted, rounds)
    ensures forall k :: 0 <= k < |last| ==> Echoes(last[k]) && last[k].sent <= last[k].received
  {
  }

  /** Every slot's conversation is that of its events in the rounds so far. */
  ghost predicate Talked(talks: seq<Talk>, rounds: seq<Round>) {
    && |talks| == Taken(rounds)
    && forall k :: 0 <= k < |talks| ==> talks[k] == Conversation(EventsOf(rounds, k + 1))
  }

  method EventLoop(server: Server, rounds: seq<Round>)
    requires server.Valid() && server.intake == Intake([], []) && server.talks == []
    modifies server, server.fds, server.clients
    ensures server.Valid() && server.intake == AdmitAll(Intake([], []), AllArrivals(rounds), SLOTS)
    ensures Recorded(server.last, server.intake.admitted, rounds)
  {
    for r := 0 to |rounds|
      invariant server.Valid()
      invariant server.intake == AdmitAll(Intake([], []), AllArrivals(rounds[..r]), SLOTS)
      invariant Talked(server.talks, rounds[..r])
    {
      RoundAdmits(rounds, r);
      server.Turn(rounds[r]);
      forall k | 0 <= k < |server.talks|
        ensures server.talks[k] == Conversation(EventsOf(rounds[..r + 1], k + 1))
      {
        ConversationGoesOn(rounds, r, k + 1);
      }
    }
    assert rounds[..|rounds|] == rounds;
    server.LastAreRecords();
  }
}
