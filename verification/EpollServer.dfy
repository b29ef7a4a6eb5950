/**
 The epoll server of server.c: a table of six slots, the set of registered descriptors, and
 the connections behind the descriptors. What the kernel answers is an input of every step.
 */
module EpollSpec {
  import opened Basics

  const MAX_ACCEPT := 5
  const FREE := -1

  /**
   `conns` maps each open client descriptor to its connection, numbered in the order of
   acceptance; `closed` are the connections closed so far. A descriptor number may come back
   for another connection, a connection never does.
   */
  datatype Server = Server(
    listener: int,
    slots: seq<int>,
    registered: set<int>,
    conns: map<int, nat>,
    closed: seq<nat>,
    accepted: nat)

  /** An event with the answers the handler will get: from accept, epoll_ctl and recv. */
  datatype Event = Event(fd: int, readable: bool, acceptResult: int, ctlOk: bool, recvResult: int)

  datatype Outcome = Running(server: Server) | Exited

  // The slot table

  function FirstIndex(slots: seq<int>, x: int): (k: nat)
    ensures k <= |slots|
    ensures k < |slots| ==> slots[k] == x
    ensures forall i :: 0 <= i < k ==> slots[i] != x
  {
    if slots == [] then 0 else if slots[0] == x then 0 else 1 + FirstIndex(slots[1..], x)
  }

  function ReplaceFirst(slots: seq<int>, x: int, y: int): (r: seq<int>)
    ensures |r| == |slots|
  {
    var k := FirstIndex(slots, x);
    if k < |slots| then slots[k := y] else slots
  }

  // One event

  function Initial(listener: int): Server {
    Server(listener, [listener, FREE, FREE, FREE, FREE, 0], {listener}, map[], [], 0)
  }

  function Accept(s: Server, fd: int): Server {
    s.(slots := ReplaceFirst(s.slots, FREE, fd),
       registered := s.registered + {fd},
       conns := s.conns[fd := s.accepted],
       accepted := s.accepted + 1)
  }

  function Close(s: Server, fd: int): Server {
    s.(slots := ReplaceFirst(s.slots, fd, FREE),
       registered := s.registered - {fd},
       conns := s.conns - {fd},
       closed := s.closed + if fd in s.conns then [s.conns[fd]] else [])
  }

  predicate Closes(s: Server, ev: Event) {
    ev.fd != s.listener && ev.readable && ev.recvResult == 0
  }

  function Handle(s: Server, ev: Event): Outcome {
    if ev.fd == s.listener then
      if ev.acceptResult > 0 && ev.ctlOk then Running(Accept(s, ev.acceptResult)) else Exited
    else if Closes(s, ev) then
      if ev.ctlOk then Running(Close(s, ev.fd)) else Exited
    else Running(s)
  }

  // What holds between events

  /** Slot 0 is the listener, slot 5 still has the zero of a global array, 1 to 4 track clients. */
  ghost predicate TableOk(s: Server) {
    && |s.slots| == MAX_ACCEPT + 1
    && s.slots[0] == s.listener && s.slots[5] == 0
    && (forall i :: 1 <= i < 5 ==> s.slots[i] == FREE || s.slots[i] in s.conns)
    && (forall i, j :: 1 <= i < j < 5 && s.slots[i] == s.slots[j] ==> s.slots[i] == FREE)
  }

  ghost predicate ConnsOk(s: Server) {
    && (forall f :: f in s.conns ==> s.conns[f] < s.accepted && s.conns[f] !in s.closed)
    && (forall f, g :: f in s.conns && g in s.conns && s.conns[f] == s.conns[g] ==> f == g)
    && (forall c :: c in s.closed ==> c < s.accepted)
    && Distinct(s.closed)
    && s.accepted == |s.conns| + |s.closed|
  }

  ghost predicate Inv(s: Server) {
    && s.listener >= 0
    && s.registered == {s.listener} + s.conns.Keys
    && (forall f :: f in s.conns ==> f > 0 && f != s.listener)
    && TableOk(s)
    && ConnsOk(s)
  }

  /** accept never answers with a number that is in use. */
  ghost predicate Plausible(s: Server, ev: Event) {
    ev.fd == s.listener && ev.acceptResult > 0 ==>
      ev.acceptResult != s.listener && ev.acceptResult !in s.conns
  }

  lemma InitialOk(listener: int)
    requires listener >= 0
    ensures Inv(Initial(listener))
  {
  }

  lemma AcceptKeepsTable(s: Server, fd: int)
    requires Inv(s) && fd > 0 && fd != s.listener && fd !in s.conns
    ensures TableOk(Accept(s, fd))
  {
    var k := FirstIndex(s.slots, FREE);
    assert k != 0 && k != 5;
  }

  lemma CloseKeepsTable(s: Server, fd: int)
    requires Inv(s) && fd in s.conns
    ensures TableOk(Close(s, fd))
    ensures fd !in Close(s, fd).slots[1..5]
  {
    var k := FirstIndex(s.slots, fd);
    var s' := Close(s, fd);
    assert k != 0 && k != 5;
    assert forall i :: 1 <= i < 5 && k < i ==> s.slots[i] != fd;
    assert forall i :: 1 <= i < 5 ==> s'.slots[i] != fd;
  }

  lemma OneMoreKey(m: map<int, nat>, k: int, v: nat)
    requires k !in m
    ensures |m[k := v]| == |m| + 1
  {
    assert m[k := v].Keys == m.Keys + {k};
  }

  lemma AcceptKeepsConns(s: Server, fd: int)
    requires Inv(s) && fd !in s.conns
    ensures ConnsOk(Accept(s, fd))
  {
    OneMoreKey(s.conns, fd, s.accepted);
  }

  lemma CloseKeepsConns(s: Server, fd: int)
    requires Inv(s) && fd in s.conns
    ensures ConnsOk(Close(s, fd))
  {
    var s' := Close(s, fd);
    assert s.conns.Keys == s'.conns.Keys + {fd};
    assert |s.conns| == |s'.conns| + 1;
  }

  lemma AcceptKeepsInv(s: Server, fd: int)
    requires Inv(s) && fd > 0 && fd != s.listener && fd !in s.conns
    ensures Inv(Accept(s, fd))
  {
    AcceptKeepsTable(s, fd);
    AcceptKeepsConns(s, fd);
  }

  lemma CloseKeepsInv(s: Server, fd: int)
    requires Inv(s) && fd in s.conns
    ensures Inv(Close(s, fd))
  {
    CloseKeepsTable(s, fd);
    CloseKeepsConns(s, fd);
  }

  lemma HandleKeepsInv(s: Server, ev: Event)
    requires Inv(s) && Plausible(s, ev) && ev.fd in s.registered
    ensures Handle(s, ev).Running? ==> Inv(Handle(s, ev).server)
  {
    if Handle(s, ev).Running? {
      if ev.fd == s.listener {
        AcceptKeepsInv(s, ev.acceptResult);
      } else if Closes(s, ev) {
        CloseKeepsInv(s, ev.fd);
      }
    }
  }

  // Which events open, close and end what

  /** A connection is closed by its own event with recv answering 0, and by nothing else. */
  lemma ClosedExactlyBy(s: Server, ev: Event, fd: int)
    requires Inv(s) && Plausible(s, ev) && fd in s.conns && Handle(s, ev).Running?
    ensures
      var t := Handle(s, ev).server;
      && (fd !in t.conns <==> ev.fd == fd && ev.readable && ev.recvResult == 0)
      && (fd !in t.conns ==> fd !in t.registered && fd !in t.slots[1..5] && t.closed == s.closed + [s.conns[fd]])
  {
    if ev.fd == fd && ev.readable && ev.recvResult == 0 {
      CloseKeepsTable(s, fd);
    }
  }

  /** A descriptor is opened by an accept that answered with it, as the next connection. */
  lemma OpenedExactlyBy(s: Server, ev: Event, fd: int)
    requires Inv(s) && fd !in s.conns && Handle(s, ev).Running?
    ensures
      var t := Handle(s, ev).server;
      && (fd in t.conns <==> ev.fd == s.listener && ev.acceptResult == fd)
      && (fd in t.conns ==> fd in t.registered && t.conns[fd] == s.accepted && t.accepted == s.accepted + 1)
  {
  }

  /** accept fails, or registering a new client does, or deregistering one that hung up. */
  predicate Fatal(listener: int, ev: Event) {
    if ev.fd == listener then ev.acceptResult <= 0 || !ev.ctlOk
    else ev.readable && ev.recvResult == 0 && !ev.ctlOk
  }

  lemma ExitedExactlyBy(s: Server, ev: Event)
    ensures Handle(s, ev).Exited? <==> Fatal(s.listener, ev)
  {
  }

  /** A client gets a slot exactly when one of the four is free; the others are served untracked. */
  lemma TrackedIffSlotFree(s: Server, fd: int)
    requires Inv(s) && fd > 0 && fd != s.listener && fd !in s.conns
    ensures fd in Accept(s, fd).slots <==> FREE in s.slots[1..5]
  {
    var k := FirstIndex(s.slots, FREE);
    if FREE in s.slots[1..5] {
      var i :| 0 <= i < 4 && s.slots[1..5][i] == FREE;
      assert s.slots[i + 1] == FREE;
      assert Accept(s, fd).slots[k] == fd;
    } else {
      assert forall i :: 1 <= i < 5 ==> s.slots[1..5][i - 1] == s.slots[i];
      assert k == |s.slots|;
    }
  }

  /** The table never tracks more than four clients: a slot holding one is 1, 2, 3 or 4. */
  lemma OnlyFourSlots(s: Server, i: nat)
    requires Inv(s) && i < |s.slots| && s.slots[i] in s.conns
    ensures 1 <= i <= 4
  {
  }

  // One batch of events

  /** epoll_wait names registered descriptors, each at most once. */
  ghost predicate BatchOk(s: Server, evs: seq<Event>) {
    && (forall i :: 0 <= i < |evs| ==> evs[i].fd in s.registered)
    && (forall i, j :: 0 <= i < j < |evs| ==> evs[i].fd != evs[j].fd)
  }

  /** Where the first j events of the batch lead. */
  function After(s: Server, evs: seq<Event>, j: nat): Outcome
    requires j <= |evs|
  {
    if j == 0 then Running(s)
    else
      match After(s, evs, j - 1)
      case Exited => Exited
      case Running(t) => Handle(t, evs[j - 1])
  }

  ghost predicate AnswerOkAt(s: Server, evs: seq<Event>, j: nat)
    requires j < |evs|
  {
    After(s, evs, j).Running? ==> Plausible(After(s, evs, j).server, evs[j])
  }

  /** accept's answers, judged when they are given. */
  ghost predicate AnswersOk(s: Server, evs: seq<Event>) {
    forall j :: 0 <= j < |evs| ==> AnswerOkAt(s, evs, j)
  }

  /** `fd` is registered in `t`, and still stands for what it stood for in `s`. */
  ghost predicate SameConnection(s: Server, t: Server, fd: int) {
    && t.listener == s.listener && fd in t.registered
    && (fd != s.listener ==> fd in s.conns && fd in t.conns && t.conns[fd] == s.conns[fd])
  }

  /** Handling one event leaves every other registered descriptor with its connection. */
  lemma OthersKeepTheirConnection(s: Server, ev: Event, fd: int)
    requires Inv(s) && Plausible(s, ev) && ev.fd in s.registered && fd in s.registered && fd != ev.fd
    requires Handle(s, ev).Running?
    ensures SameConnection(s, Handle(s, ev).server, fd)
  {
  }

  /**
   At every event boundary of a batch the invariant holds, and each event still to come is about
   the connection it was reported for, even if numbers closed in this batch were given out again.
   */
  lemma {:induction false} BatchIsNeverStale(s: Server, evs: seq<Event>, j: nat)
    requires Inv(s) && BatchOk(s, evs) && AnswersOk(s, evs)
    requires j <= |evs| && After(s, evs, j).Running?
    ensures
      var t := After(s, evs, j).server;
      && Inv(t) && t.listener == s.listener
      && forall i :: j <= i < |evs| ==> SameConnection(s, t, evs[i].fd)
    decreases j
  {
    if j > 0 {
      BatchIsNeverStale(s, evs, j - 1);
      var t, ev := After(s, evs, j - 1).server, evs[j - 1];
      assert SameConnection(s, t, ev.fd) && AnswerOkAt(s, evs, j - 1);
      HandleKeepsInv(t, ev);
      forall i | j <= i < |evs|
        ensures SameConnection(s, Handle(t, ev).server, evs[i].fd)
      {
        assert SameConnection(s, t, evs[i].fd);
        OthersKeepTheirConnection(t, ev, evs[i].fd);
      }
      ListenerKept(t, ev);
    }
  }

  lemma ListenerKept(s: Server, ev: Event)
    ensures Handle(s, ev).Running? ==> Handle(s, ev).server.listener == s.listener
  {
  }

  /** The connection that an event reports to have hung up, if it does. */
  function HangupOf(s: Server, ev: Event): seq<nat> {
    if ev.fd in s.conns && ev.readable && ev.recvResult == 0 then [s.conns[ev.fd]] else []
  }

  /** The connections that the events of a batch report to have hung up, in order. */
  function Hangups(s: Server, evs: seq<Event>): seq<nat> {
    if evs == [] then [] else Hangups(s, evs[..|evs| - 1]) + HangupOf(s, evs[|evs| - 1])
  }

  /** The events of a batch that report a new client. */
  function Arrivals(s: Server, evs: seq<Event>): nat {
    if evs == [] then 0
    else Arrivals(s, evs[..|evs| - 1]) + if evs[|evs| - 1].fd == s.listener then 1 else 0
  }

  lemma EventEffect(s: Server, t: Server, ev: Event)
    requires Inv(s) && Inv(t) && SameConnection(s, t, ev.fd) && Plausible(t, ev) && Handle(t, ev).Running?
    ensures
      var u := Handle(t, ev).server;
      && u.accepted == t.accepted + (if ev.fd == s.listener then 1 else 0)
      && u.closed == t.closed + HangupOf(s, ev)
  {
  }

  lemma OneMoreEvent(s: Server, evs: seq<Event>, j: nat)
    requires 0 < j <= |evs|
    ensures Hangups(s, evs[..j]) == Hangups(s, evs[..j - 1]) + HangupOf(s, evs[j - 1])
    ensures Arrivals(s, evs[..j]) == Arrivals(s, evs[..j - 1]) + if evs[j - 1].fd == s.listener then 1 else 0
  {
    assert evs[..j][..j - 1] == evs[..j - 1] && evs[..j][j - 1] == evs[j - 1];
  }

  /** Where a batch stands before its j-th event. */
  lemma BatchStands(s: Server, evs: seq<Event>, j: nat)
    requires Inv(s) && BatchOk(s, evs) && AnswersOk(s, evs)
    requires j < |evs| && After(s, evs, j).Running?
    ensures
      var t := After(s, evs, j).server;
      Inv(t) && SameConnection(s, t, evs[j].fd) && Plausible(t, evs[j])
  {
    BatchIsNeverStale(s, evs, j);
    assert AnswerOkAt(s, evs, j);
  }

  lemma StepEffect(s: Server, evs: seq<Event>, j: nat)
    requires Inv(s) && BatchOk(s, evs) && AnswersOk(s, evs)
    requires j < |evs| && After(s, evs, j + 1).Running?
    ensures After(s, evs, j).Running?
    ensures
      var t, u := After(s, evs, j).server, After(s, evs, j + 1).server;
      && u.closed == t.closed + HangupOf(s, evs[j])
      && u.accepted == t.accepted + if evs[j].fd == s.listener then 1 else 0
  {
    BatchStands(s, evs, j);
    EventEffect(s, After(s, evs, j).server, evs[j]);
  }

  lemma Appended(closed: seq<nat>, a: seq<nat>, b: seq<nat>, r: seq<nat>)
    requires r == (closed + a) + b
    ensures r == closed + (a + b)
  {
  }

  /** What the events of a batch close are the connections they were reported for. */
  lemma {:induction false} BatchEffect(s: Server, evs: seq<Event>, j: nat)
    requires Inv(s) && BatchOk(s, evs) && AnswersOk(s, evs)
    requires j <= |evs| && After(s, evs, j).Running?
    ensures After(s, evs, j).server.closed == s.closed + Hangups(s, evs[..j])
    ensures After(s, evs, j).server.accepted == s.accepted + Arrivals(s, evs[..j])
    decreases j
  {
    if j == 0 {
      assert s.closed + [] == s.closed;
    } else {
      StepEffect(s, evs, j - 1);
      BatchEffect(s, evs, j - 1);
      OneMoreEvent(s, evs, j);
      Appended(s.closed, Hangups(s, evs[..j - 1]), HangupOf(s, evs[j - 1]), After(s, evs, j).server.closed);
    }
  }

  /** A batch ends the server exactly when one of its events is fatal. */
  lemma {:induction false} BatchExitsIff(s: Server, evs: seq<Event>, j: nat)
    requires j <= |evs|
    ensures After(s, evs, j).Exited? <==> exists i :: 0 <= i < j && Fatal(s.listener, evs[i])
    ensures After(s, evs, j).Running? ==> After(s, evs, j).server.listener == s.listener
    decreases j
  {
    if j > 0 {
      BatchExitsIff(s, evs, j - 1);
      if After(s, evs, j - 1).Running? {
        var t := After(s, evs, j - 1).server;
        ExitedExactlyBy(t, evs[j - 1]);
        ListenerKept(t, evs[j - 1]);
      }
    }
  }

  // Whole runs

  datatype Wait = WaitFailed | Ready(events: seq<Event>)

  function Serve(s: Server, w: Wait): Outcome {
    match w
    case WaitFailed => Exited
    case Ready(evs) => After(s, evs, |evs|)
  }

  function Run(s: Server, waits: seq<Wait>, n: nat): Outcome
    requires n <= |waits|
  {
    if n == 0 then Running(s)
    else
      match Run(s, waits, n - 1)
      case Exited => Exited
      case Running(t) => Serve(t, waits[n - 1])
  }

  /** The n-th wait reports, and its events are answered, as a kernel would. */
  ghost predicate KernelOkAt(s: Server, waits: seq<Wait>, n: nat)
    requires n < |waits|
  {
    Run(s, waits, n).Running? && waits[n].Ready? ==>
      BatchOk(Run(s, waits, n).server, waits[n].events) && AnswersOk(Run(s, waits, n).server, waits[n].events)
  }

  ghost predicate KernelOk(s: Server, waits: seq<Wait>) {
    forall n :: 0 <= n < |waits| ==> KernelOkAt(s, waits, n)
  }

  /** However long the server runs, the invariant holds whenever it waits. */
  lemma {:induction false} EveryRunKeepsInv(s: Server, waits: seq<Wait>, n: nat)
    requires Inv(s) && n <= |waits| && KernelOk(s, waits) && Run(s, waits, n).Running?
    ensures Inv(Run(s, waits, n).server)
    decreases n
  {
    if n > 0 {
      EveryRunKeepsInv(s, waits, n - 1);
      assert KernelOkAt(s, waits, n - 1);
      BatchKeepsInv(Run(s, waits, n - 1).server, waits[n - 1]);
    }
  }

  lemma BatchKeepsInv(s: Server, w: Wait)
    requires Inv(s) && Serve(s, w).Running? && BatchOk(s, w.events) && AnswersOk(s, w.events)
    ensures Inv(Serve(s, w).server)
  {
    BatchIsNeverStale(s, w.events, |w.events|);
  }

  /** The connections that hung up in the first n waits, in order. */
  ghost function AllHangups(s: Server, waits: seq<Wait>, n: nat): seq<nat>
    requires n <= |waits| && Run(s, waits, n).Running?
  {
    if n == 0 then []
    else AllHangups(s, waits, n - 1) + Hangups(Run(s, waits, n - 1).server, waits[n - 1].events)
  }

  /** In every run the connections closed are those whose recv answered 0, in that order. */
  lemma {:induction false} ClosedInAnyRun(s: Server, waits: seq<Wait>, n: nat)
    requires Inv(s) && n <= |waits| && KernelOk(s, waits) && Run(s, waits, n).Running?
    ensures Run(s, waits, n).server.closed == s.closed + AllHangups(s, waits, n)
    decreases n
  {
    if n == 0 {
      assert s.closed + [] == s.closed;
    } else {
      ClosedInAnyRun(s, waits, n - 1);
      RoundEffect(s, waits, n - 1);
      Appended(s.closed, AllHangups(s, waits, n - 1), Hangups(Run(s, waits, n - 1).server, waits[n - 1].events),
               Run(s, waits, n).server.closed);
    }
  }

  lemma RoundEffect(s: Server, waits: seq<Wait>, n: nat)
    requires Inv(s) && n < |waits| && KernelOk(s, waits) && Run(s, waits, n + 1).Running?
    ensures Run(s, waits, n).Running? && waits[n].Ready?
    ensures Run(s, waits, n + 1).server.closed
            == Run(s, waits, n).server.closed + Hangups(Run(s, waits, n).server, waits[n].events)
  {
    EveryRunKeepsInv(s, waits, n);
    assert KernelOkAt(s, waits, n);
    WaitEffect(Run(s, waits, n).server, waits[n]);
  }

  lemma WaitEffect(s: Server, w: Wait)
    requires Inv(s) && Serve(s, w).Running? && BatchOk(s, w.events) && AnswersOk(s, w.events)
    ensures Serve(s, w).server.closed == s.closed + Hangups(s, w.events)
    ensures Serve(s, w).server.accepted == s.accepted + Arrivals(s, w.events)
  {
    BatchEffect(s, w.events, |w.events|);
    assert w.events[..|w.events|] == w.events;
  }

  /** The wait fails, or one of the events it reports is fatal. */
  ghost predicate FatalWait(listener: int, w: Wait) {
    w.WaitFailed? || exists i :: 0 <= i < |w.events| && Fatal(listener, w.events[i])
  }

  /** A run ends exactly when a wait or an event of it is fatal, whatever the server's state is. */
  lemma {:induction false} RunExitsIff(s: Server, waits: seq<Wait>, n: nat)
    requires n <= |waits|
    ensures Run(s, waits, n).Exited? <==> exists m :: 0 <= m < n && FatalWait(s.listener, waits[m])
    ensures Run(s, waits, n).Running? ==> Run(s, waits, n).server.listener == s.listener
    decreases n
  {
    if n > 0 {
      RunExitsIff(s, waits, n - 1);
      if Run(s, waits, n - 1).Running? && waits[n - 1].Ready? {
        BatchExitsIff(Run(s, waits, n - 1).server, waits[n - 1].events, |waits[n - 1].events|);
      }
    }
  }

  /** Whichever event a run comes to, it is handled for the connection that caused it. */
  lemma NoStaleEventInAnyRun(listener: int, waits: seq<Wait>, n: nat, j: nat)
    requires listener >= 0 && n < |waits| && KernelOk(Initial(listener), waits)
    requires Run(Initial(listener), waits, n).Running? && waits[n].Ready? && j < |waits[n].events|
    requires After(Run(Initial(listener), waits, n).server, waits[n].events, j).Running?
    ensures
      var s := Run(Initial(listener), waits, n).server;
      var t := After(s, waits[n].events, j).server;
      Inv(t) && SameConnection(s, t, waits[n].events[j].fd)
  {
    InitialOk(listener);
    EveryRunKeepsInv(Initial(listener), waits, n);
    assert KernelOkAt(Initial(listener), waits, n);
    BatchIsNeverStale(Run(Initial(listener), waits, n).server, waits[n].events, j);
  }
}

module EpollServer {
  import opened EpollSpec

  class Table {
    var clientFd: array<int>
    var listenFd: int
    ghost var server: Server

    ghost predicate Valid()
      reads this, clientFd
    {
      clientFd[..] == server.slots && listenFd == server.listener && |server.slots| == MAX_ACCEPT + 1
    }

    /** Slot 5 keeps the zero of a global array: the loop stops before it. */
    constructor (listener: int)
      ensures Valid() && server == Initial(listener) && fresh(clientFd)
    {
      var fds := new int[MAX_ACCEPT + 1](_ => 0);
      for i := 0 to MAX_ACCEPT
        invariant fds[5] == 0
        invariant forall k :: 0 <= k < i ==> fds[k] == FREE
      {
        fds[i] := FREE;
      }
      fds[0] := listener;
      assert fds[..] == [listener, FREE, FREE, FREE, FREE, 0];
      clientFd, listenFd, server := fds, listener, Initial(listener);
    }

    /** The loop over the table in both branches: the first slot holding x gets y. */
    method Replace(x: int, y: int)
      requires clientFd.Length == MAX_ACCEPT + 1
      modifies clientFd
      ensures clientFd[..] == ReplaceFirst(old(clientFd[..]), x, y)
    {
      ghost var slots := clientFd[..];
      for n := 0 to MAX_ACCEPT + 1
        invariant clientFd[..] == slots
        invariant forall k :: 0 <= k < n ==> slots[k] != x
      {
        if clientFd[n] == x {
          clientFd[n] := y;
          assert clientFd[..] == slots[n := y];
          return;
        }
      }
    }

    method HandleEvent(ev: Event) returns (running: bool)
      requires Valid()
      modifies this, clientFd
      ensures clientFd == old(clientFd)
      ensures running <==> Handle(old(server), ev).Running?
      ensures running ==> Valid() && server == Handle(old(server), ev).server
    {
      if ev.fd == listenFd {
        var fd := ev.acceptResult;
        if fd <= 0 || !ev.ctlOk {
          return false;
        }
        Replace(FREE, fd);
        server := Accept(server, fd);
      } else if ev.readable {
        if ev.recvResult == 0 {
          Replace(ev.fd, FREE);
          if !ev.ctlOk {
            return false;
          }
          server := Close(server, ev.fd);
        }
      }
      return true;
    }

    method HandleBatch(evs: seq<Event>) returns (running: bool)
      requires Valid()
      modifies this, clientFd
      ensures clientFd == old(clientFd)
      ensures running <==> After(old(server), evs, |evs|).Running?
      ensures running ==> Valid() && server == After(old(server), evs, |evs|).server
    {
      var idx := 0;
      while idx < |evs|
        invariant idx <= |evs| && clientFd == old(clientFd) && Valid()
        invariant After(old(server), evs, idx) == Running(server)
      {
        var ok := HandleEvent(evs[idx]);
        idx := idx + 1;
        if !ok {
          ExitIsFinal(old(server), evs, idx, |evs|);
          return false;
        }
      }
      return true;
    }

    /** The endless loop, for as many waits as there are. */
    method ServeAll(waits: seq<Wait>) returns (running: bool)
      requires Valid()
      modifies this, clientFd
      ensures running <==> Run(old(server), waits, |waits|).Running?
      ensures running ==> Valid() && server == Run(old(server), waits, |waits|).server
    {
      var n := 0;
      running := true;
      while n < |waits| && running
        invariant n <= |waits| && clientFd == old(clientFd)
        invariant running ==> Valid() && Run(old(server), waits, n) == Running(server)
        invariant !running ==> Run(old(server), waits, n) == Exited
        decreases |waits| - n
      {
        if waits[n].Ready? {
          running := HandleBatch(waits[n].events);
        } else {
          running := false;
        }
        n := n + 1;
      }
      if !running {
        RunExitIsFinal(old(server), waits, n, |waits|);
      }
    }
  }

  lemma {:induction false} ExitIsFinal(s: Server, evs: seq<Event>, i: nat, j: nat)
    requires i <= j <= |evs| && After(s, evs, i) == Exited
    ensures After(s, evs, j) == Exited
    decreases j
  {
    if i < j {
      ExitIsFinal(s, evs, i, j - 1);
    }
  }

  lemma {:induction false} RunExitIsFinal(s: Server, waits: seq<Wait>, i: nat, j: nat)
    requires i <= j <= |waits| && Run(s, waits, i) == Exited
    ensures Run(s, waits, j) == Exited
    decreases j
  {
    if i < j {
      RunExitIsFinal(s, waits, i, j - 1);
    }
  }
}
