/**
  The running and the delayed disconnection of the connections of a session: the callbacks of
  MCIMAPAsyncConnection.cpp around the threads of their queues, as steps on values.
 */
module ConnectionLifecycle {

  datatype Signal = StartRunning | StoppedRunning

  /**
    A connection: its flags, the delayed calls that are pending for it, what its queue holds and
    whether the thread of the queue is started, whether its stream is closed, and the times it
    retained itself.
   */
  datatype Conn = Conn(scheduled: bool, pending: nat, running: bool, operations: nat, started: bool,
                       disconnected: bool, ownRetains: int)

  /** A session: its connections, whether it told that it runs, how often connections retain it, and what it told. */
  datatype Session = Session(conns: seq<Conn>, queueRunning: bool, retains: int, signals: seq<Signal>)

  const FRESH := Conn(false, 0, false, 0, false, true, 0)
  const EMPTY := Session([], false, 0, [])

  function With(s: Session, i: nat, c: Conn): (r: Session)
    requires i < |s.conns|
    ensures |r.conns| == |s.conns|
  {
    s.(conns := s.conns[i := c])
  }

  predicate AnyRunning(conns: seq<Conn>) {
    exists i :: 0 <= i < |conns| && conns[i].running
  }

  /** `operationRunningStateChanged`: tells the callback when whether anything runs has changed. */
  function StateChanged(s: Session): (r: Session)
    ensures r.conns == s.conns && r.retains == s.retains
  {
    var isRunning := AnyRunning(s.conns);
    if s.queueRunning == isRunning then s
    else s.(queueRunning := isRunning, signals := s.signals + [if isRunning then StartRunning else StoppedRunning])
  }

  /** The callback of a queue whose thread starts. */
  function QueueStarts(s: Session, i: nat): (r: Session)
    requires i < |s.conns|
    ensures |r.conns| == |s.conns|
  {
    var told := StateChanged(With(s, i, s.conns[i].(running := true)));
    var c := told.conns[i];
    With(told, i, c.(ownRetains := c.ownRetains + 1)).(retains := told.retains + 1)
  }

  /** `startThread`: nothing if the thread is started. */
  function ThreadStarts(s: Session, i: nat): (r: Session)
    requires i < |s.conns|
    ensures |r.conns| == |s.conns|
  {
    if s.conns[i].started then s
    else
      var called := QueueStarts(s, i);
      With(called, i, called.conns[i].(started := true))
  }

  function OneLess(n: nat): nat {
    if n > 0 then n - 1 else 0
  }

  /** `runOperation`: a disconnection that is scheduled is given up, and the operation is queued. */
  function Runs(s: Session, i: nat): (r: Session)
    requires i < |s.conns|
    ensures |r.conns| == |s.conns|
  {
    var c := s.conns[i];
    var kept := if c.scheduled then
        With(s, i, c.(scheduled := false, pending := OneLess(c.pending))).(retains := s.retains - 1)
      else s;
    ThreadStarts(With(kept, i, kept.conns[i].(operations := c.operations + 1)), i)
  }

  /** `tryAutomaticDisconnect`: schedules a disconnection, in place of one scheduled before. */
  function Schedules(s: Session, i: nat): (r: Session)
    requires i < |s.conns|
    ensures |r.conns| == |s.conns|
  {
    var c := s.conns[i];
    if c.disconnected then s
    else if c.scheduled then
      With(s, i, c.(pending := OneLess(c.pending) + 1))
    else
      With(s, i, c.(scheduled := true, pending := c.pending + 1)).(retains := s.retains + 1)
  }

  /** The callback of a queue whose thread has stopped. */
  function QueueStops(s: Session, i: nat): (r: Session)
    requires i < |s.conns|
    ensures |r.conns| == |s.conns|
  {
    var told := StateChanged(Schedules(With(s, i, s.conns[i].(running := false)), i));
    var c := told.conns[i];
    With(told, i, c.(ownRetains := c.ownRetains - 1)).(retains := told.retains - 1)
  }

  /** `stoppedOnMainThread`: operations that came in the meantime start the thread again. */
  function ThreadStops(s: Session, i: nat): (r: Session)
    requires i < |s.conns|
    ensures |r.conns| == |s.conns|
  {
    var called := QueueStops(With(s, i, s.conns[i].(started := false)), i);
    if called.conns[i].operations > 0 then ThreadStarts(called, i) else called
  }

  /** `tryAutomaticDisconnectAfterDelay`, when a delayed call is due. */
  function DelayEnds(s: Session, i: nat): (r: Session)
    requires i < |s.conns|
    ensures |r.conns| == |s.conns|
  {
    var c := s.conns[i];
    var ran := Runs(With(s, i, c.(scheduled := false, pending := OneLess(c.pending))), i);
    ran.(retains := ran.retains - 1)
  }

  // ----- runs

  /**
    What can happen to the connection `i`, or a new connection; what is not possible changes nothing.
    Only the thread of its queue opens and closes a stream.
   */
  datatype Event =
    | Open
    | RunOperation(i: nat)
    | FinishOperation(i: nat)
    | ThreadStopped(i: nat)
    | DelayedCall(i: nat)
    | StreamChanged(i: nat, disconnected: bool)

  function After(s: Session, e: Event): Session {
    if e.Open? then s.(conns := s.conns + [FRESH])
    else if e.i >= |s.conns| then s
    else
      var c := s.conns[e.i];
      match e
      case RunOperation(i) => Runs(s, i)
      case FinishOperation(i) => With(s, i, c.(operations := OneLess(c.operations)))
      case ThreadStopped(i) => if c.started then ThreadStops(s, i) else s
      case DelayedCall(i) => if c.pending > 0 then DelayEnds(s, i) else s
      case StreamChanged(i, disconnected) => if c.started then With(s, i, c.(disconnected := disconnected)) else s
  }

  function Run(events: seq<Event>): Session {
    if |events| == 0 then EMPTY else After(Run(events[..|events| - 1]), events[|events| - 1])
  }

  function Count(b: bool): nat {
    if b then 1 else 0
  }

  /** One retain for each scheduled disconnection and one for each running queue. */
  function Held(conns: seq<Conn>): nat {
    if |conns| == 0 then 0
    else Held(conns[..|conns| - 1]) + Count(conns[|conns| - 1].scheduled) + Count(conns[|conns| - 1].running)
  }

  /**
    A connection has one delayed call pending exactly when its flag says so, its flags agree with its
    queue, and if it is left open with no thread, its disconnection is scheduled.
   */
  predicate ConnSound(c: Conn) {
    && c.pending == Count(c.scheduled)
    && c.running == c.started
    && c.ownRetains == Count(c.running)
    && (c.operations > 0 ==> c.started)
    && (c.started || c.disconnected || c.scheduled)
  }

  /** Start and stop alternate, and end with what the session says. */
  ghost predicate Alternating(signals: seq<Signal>, running: bool) {
    && (forall k :: 0 <= k < |signals| ==> signals[k] == if k % 2 == 0 then StartRunning else StoppedRunning)
    && (running <==> |signals| % 2 == 1)
  }

  /** What the session told last is whether some queue runs. */
  ghost predicate Told(s: Session) {
    s.queueRunning == AnyRunning(s.conns) && Alternating(s.signals, s.queueRunning)
  }

  ghost predicate Sound(s: Session) {
    && (forall i :: 0 <= i < |s.conns| ==> ConnSound(s.conns[i]))
    && s.retains == Held(s.conns)
    && Told(s)
  }

  lemma {:induction false} HeldChanges(conns: seq<Conn>, i: nat, c: Conn)
    requires i < |conns|
    ensures Held(conns[i := c]) ==
      Held(conns) + Count(c.scheduled) + Count(c.running) - Count(conns[i].scheduled) - Count(conns[i].running)
  {
    var n := |conns| - 1;
    if i < n {
      assert conns[i := c][..n] == conns[..n][i := c];
      HeldChanges(conns[..n], i, c);
    } else {
      assert conns[i := c][..n] == conns[..n];
    }
  }

  function Weight(c: Conn): nat {
    Count(c.scheduled) + Count(c.running)
  }

  lemma StateChangedTells(s: Session)
    requires Alternating(s.signals, s.queueRunning)
    ensures Told(StateChanged(s))
  {
  }

  lemma StaysTold(s: Session, i: nat, c: Conn)
    requires i < |s.conns| && Told(s) && c.running == s.conns[i].running
    ensures Told(With(s, i, c))
  {
    var t := With(s, i, c);
    assert forall j :: 0 <= j < |s.conns| ==> t.conns[j].running == s.conns[j].running;
  }

  /** `r` is `s` with another connection at `i`, what it holds retained, and with the callback told. */
  ghost predicate Changes(s: Session, r: Session, i: nat, c: Conn) {
    && i < |s.conns| && r.conns == s.conns[i := c]
    && r.retains == s.retains + Weight(c) - Weight(s.conns[i])
    && Told(r)
  }

  lemma ChangesKeepSound(s: Session, r: Session, i: nat, c: Conn)
    requires Sound(s) && Changes(s, r, i, c) && ConnSound(c)
    ensures Sound(r)
  {
    hide Told;
    HeldChanges(s.conns, i, c);
  }

  lemma ThreadStartsChanges(s: Session, i: nat)
    requires i < |s.conns| && Told(s) && !s.conns[i].started && !s.conns[i].running
    ensures var c := s.conns[i];
            Changes(s, ThreadStarts(s, i), i, c.(running := true, started := true, ownRetains := c.ownRetains + 1))
  {
    hide StateChanged, Told;
    var c := s.conns[i];
    var flagged := With(s, i, c.(running := true));
    assert Alternating(flagged.signals, flagged.queueRunning) by { Tells(s); }
    StateChangedTells(flagged);
    var told := StateChanged(flagged);
    var called := QueueStarts(s, i);
    StaysTold(told, i, called.conns[i]);
    ToldAnyway(With(told, i, called.conns[i]), called.retains);
    StaysTold(called, i, called.conns[i].(started := true));
  }

  lemma Tells(s: Session)
    requires Told(s)
    ensures Alternating(s.signals, s.queueRunning)
  {
  }

  lemma ToldAnyway(s: Session, retains: int)
    requires Told(s)
    ensures Told(s.(retains := retains))
  {
  }

  /** A connection with one more operation, its thread started and no disconnection scheduled. */
  function Busy(c: Conn): Conn {
    c.(scheduled := false, pending := 0, operations := c.operations + 1,
       running := true, started := true, ownRetains := 1)
  }

  lemma RunsChanges(s: Session, i: nat)
    requires i < |s.conns| && Told(s)
    requires var c := s.conns[i];
             c.pending == Count(c.scheduled) && c.running == c.started && c.ownRetains == Count(c.running)
    ensures Changes(s, Runs(s, i), i, Busy(s.conns[i]))
  {
    hide Told, ThreadStarts;
    var c := s.conns[i];
    var kept := if c.scheduled then
        With(s, i, c.(scheduled := false, pending := OneLess(c.pending))).(retains := s.retains - 1)
      else s;
    if c.scheduled {
      StaysTold(s, i, kept.conns[i]);
      ToldAnyway(With(s, i, kept.conns[i]), kept.retains);
    }
    var queued := With(kept, i, kept.conns[i].(operations := c.operations + 1));
    StaysTold(kept, i, queued.conns[i]);
    if c.started {
      AlreadyStarted(queued, i);
    } else {
      ThreadStartsChanges(queued, i);
    }
    assert Runs(s, i).conns == s.conns[i := Busy(c)];
  }

  lemma AlreadyStarted(s: Session, i: nat)
    requires i < |s.conns| && s.conns[i].started
    ensures ThreadStarts(s, i) == s
  {
  }

  /** A connection whose thread has stopped: a disconnection is scheduled unless it is disconnected. */
  function Stopped(c: Conn): Conn {
    var later := c.(running := false, started := false, ownRetains := 0);
    if c.disconnected then later else later.(scheduled := true, pending := 1)
  }

  lemma QueueStopsChanges(s: Session, i: nat)
    requires i < |s.conns| && Told(s) && !s.conns[i].started
    requires var c := s.conns[i]; c.pending == Count(c.scheduled) && c.running && c.ownRetains == 1
    ensures Changes(s, QueueStops(s, i), i, Stopped(s.conns[i]))
  {
    hide Told, StateChanged;
    var c := s.conns[i];
    var off := With(s, i, c.(running := false));
    var scheduled := Schedules(off, i);
    assert Alternating(scheduled.signals, scheduled.queueRunning) by { Tells(s); }
    StateChangedTells(scheduled);
    var told := StateChanged(scheduled);
    StaysTold(told, i, told.conns[i].(ownRetains := 0));
    ToldAnyway(With(told, i, told.conns[i].(ownRetains := 0)), told.retains - 1);
    assert QueueStops(s, i).conns == s.conns[i := Stopped(c)];
  }

  /** Two changes of one connection, and a correction of what is retained, make one change. */
  lemma ChangesThrough(s: Session, t: Session, q: Session, i: nat, d: Conn, c: Conn, k: int)
    requires i < |s.conns| && t.conns == s.conns[i := d] && Changes(t, q, i, c)
    requires t.retains + k - Weight(d) == s.retains - Weight(s.conns[i])
    ensures Changes(s, q.(retains := q.retains + k), i, c)
  {
    hide Weight;
    ToldAnyway(q, q.retains + k);
  }

  lemma CalledAtStop(s: Session, i: nat)
    requires Sound(s) && i < |s.conns| && s.conns[i].started
    ensures var down := s.conns[i].(started := false);
            Changes(s, QueueStops(With(s, i, down), i), i, Stopped(down)) && ConnSound(s.conns[i])
  {
    hide Told, QueueStops, Changes, Sound, AnyRunning;
    var c := s.conns[i];
    EachIsSound(s, i);
    SoundIsTold(s);
    var down := c.(started := false);
    StaysTold(s, i, down);
    var s1 := With(s, i, down);
    QueueStopsChanges(s1, i);
    ChangesThrough(s, s1, QueueStops(s1, i), i, down, Stopped(down), 0);
  }

  lemma ThreadStopsIsSound(s: Session, i: nat)
    requires Sound(s) && i < |s.conns| && s.conns[i].started
    ensures Sound(ThreadStops(s, i))
  {
    hide Told, QueueStops, ThreadStarts, Changes, Sound, AnyRunning, With, Weight;
    var c := s.conns[i];
    var down := c.(started := false);
    CalledAtStop(s, i);
    var called := QueueStops(With(s, i, down), i);
    var idle := Stopped(down);
    ChangedConn(s, called, i, idle);
    if c.operations == 0 {
      ChangesKeepSound(s, called, i, idle);
    } else {
      ThreadStartsChanges(called, i);
      var again := idle.(running := true, started := true, ownRetains := 1);
      ChangesThrough(s, called, ThreadStarts(called, i), i, idle, again, 0);
      ChangesKeepSound(s, ThreadStarts(called, i), i, again);
    }
  }

  lemma SoundIsTold(s: Session)
    requires Sound(s)
    ensures Told(s)
  {
  }

  lemma ChangedConn(s: Session, r: Session, i: nat, c: Conn)
    requires Changes(s, r, i, c)
    ensures r.conns == s.conns[i := c] && r.conns[i] == c && Told(r)
    ensures r.retains - Weight(c) == s.retains - Weight(s.conns[i])
  {
  }

  lemma RunsIsSound(s: Session, i: nat)
    requires Sound(s) && i < |s.conns|
    ensures Sound(Runs(s, i))
  {
    hide Told, Runs;
    RunsChanges(s, i);
    ChangesKeepSound(s, Runs(s, i), i, Busy(s.conns[i]));
  }

  lemma DelayEndsIsSound(s: Session, i: nat)
    requires Sound(s) && i < |s.conns| && s.conns[i].pending > 0
    ensures Sound(DelayEnds(s, i))
  {
    hide Told, Runs, Changes, Sound, AnyRunning;
    var c := s.conns[i];
    EachIsSound(s, i);
    SoundIsTold(s);
    var due := c.(scheduled := false, pending := OneLess(c.pending));
    StaysTold(s, i, due);
    var s1 := With(s, i, due);
    RunsChanges(s1, i);
    ChangesThrough(s, s1, Runs(s1, i), i, due, Busy(due), -1);
    ChangesKeepSound(s, DelayEnds(s, i), i, Busy(due));
  }

  /** The operation that disconnects is one operation more, and starts the queue if it was stopped. */
  lemma DelayEndsMakesBusy(s: Session, i: nat)
    requires Sound(s) && i < |s.conns| && s.conns[i].pending > 0
    ensures DelayEnds(s, i).conns == s.conns[i := Busy(s.conns[i])]
  {
    hide Told, Runs, Changes, Sound, AnyRunning;
    var c := s.conns[i];
    EachIsSound(s, i);
    SoundIsTold(s);
    var due := c.(scheduled := false, pending := OneLess(c.pending));
    StaysTold(s, i, due);
    var s1 := With(s, i, due);
    RunsChanges(s1, i);
    ChangedConn(s1, Runs(s1, i), i, Busy(due));
  }

  lemma OpenIsSound(s: Session)
    requires Sound(s)
    ensures Sound(s.(conns := s.conns + [FRESH]))
  {
    var conns := s.conns + [FRESH];
    assert conns[..|conns| - 1] == s.conns;
    assert AnyRunning(conns) == AnyRunning(s.conns) by {
      assert forall i :: 0 <= i < |s.conns| ==> conns[i] == s.conns[i];
    }
  }

  lemma FlagIsSound(s: Session, i: nat, c: Conn)
    requires Sound(s) && i < |s.conns| && ConnSound(c)
    requires c.running == s.conns[i].running && c.scheduled == s.conns[i].scheduled
    ensures Sound(With(s, i, c))
  {
    hide Told;
    StaysTold(s, i, c);
    ChangesKeepSound(s, With(s, i, c), i, c);
  }

  lemma AfterIsSound(s: Session, e: Event)
    requires Sound(s)
    ensures Sound(After(s, e))
  {
    hide Runs, ThreadStops, DelayEnds, Told, Sound;
    if e.Open? {
      OpenIsSound(s);
    } else if e.i < |s.conns| {
      var c := s.conns[e.i];
      assert ConnSound(c) by { EachIsSound(s, e.i); }
      match e
      case RunOperation(i) => RunsIsSound(s, i);
      case FinishOperation(i) => FlagIsSound(s, i, c.(operations := OneLess(c.operations)));
      case ThreadStopped(i) =>
        if c.started {
          ThreadStopsIsSound(s, i);
        }
      case DelayedCall(i) =>
        if c.pending > 0 {
          DelayEndsIsSound(s, i);
        }
      case StreamChanged(i, disconnected) =>
        if c.started {
          FlagIsSound(s, i, c.(disconnected := disconnected));
        }
    }
  }

  lemma EachIsSound(s: Session, i: nat)
    requires Sound(s) && i < |s.conns|
    ensures ConnSound(s.conns[i])
  {
  }

  /**
    In every run: one delayed call for each scheduled disconnection and no other, one retain of the
    session for each of those and for each running queue, signals that alternate and tell whether
    some queue runs, and no connection left open without a thread or a scheduled disconnection.
   */
  lemma {:induction false} RunIsSound(events: seq<Event>)
    ensures Sound(Run(events))
  {
    if |events| == 0 {
    } else {
      hide Sound;
      RunIsSound(events[..|events| - 1]);
      AfterIsSound(Run(events[..|events| - 1]), events[|events| - 1]);
    }
  }
}
