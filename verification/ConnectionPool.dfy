/**
  The connections of MCIMAPAsyncSession.cpp as values: which one an operation is given to, and what
  holds in every state that operations starting and finishing in any order can lead to.
 */
module ConnectionPool {
  import opened Basics

  type Folder = string

  /** A connection: the folders of its outstanding operations, first come first, and the folder it was last given. */
  datatype Conn = Conn(queue: seq<Option<Folder>>, last: Option<Folder>)

  type Pool = seq<Conn>

  /** The limit on connections, zero for none, and whether several may work on one folder. */
  datatype Settings = Settings(max: nat, concurrent: bool)

  const FRESH := Conn([], None)
  const INBOX: Folder := "INBOX"

  // ----- choosing a connection

  /** With a filter, only connections last given `folder` match, or those never given one. */
  predicate Matches(c: Conn, filter: bool, folder: Option<Folder>) {
    filter ==> c.last == folder
  }

  /** The first of the matching connections with the fewest operations among the first `n`. */
  function MinQueueOf(pool: Pool, filter: bool, folder: Option<Folder>, n: nat): (r: Option<nat>)
    requires n <= |pool|
    ensures r.Some? ==> r.value < n && Matches(pool[r.value], filter, folder)
    ensures r.Some? ==> forall i :: 0 <= i < n && Matches(pool[i], filter, folder) ==>
      if i < r.value then |pool[r.value].queue| < |pool[i].queue| else |pool[r.value].queue| <= |pool[i].queue|
    ensures r.None? ==> forall i :: 0 <= i < n ==> !Matches(pool[i], filter, folder)
  {
    if n == 0 then
      None
    else
      var chosen := MinQueueOf(pool, filter, folder, n - 1);
      var s := pool[n - 1];
      if (chosen.None? || |s.queue| < |pool[chosen.value].queue|) && Matches(s, filter, folder)
        then Some(n - 1) else chosen
  }

  lemma NoMinQueueOf(pool: Pool, filter: bool, folder: Option<Folder>)
    ensures MinQueueOf(pool, filter, folder, 0) == None
  {
  }

  lemma MinQueueOfNext(pool: Pool, filter: bool, folder: Option<Folder>, n: nat)
    requires n < |pool|
    ensures var chosen, s := MinQueueOf(pool, filter, folder, n), pool[n];
            MinQueueOf(pool, filter, folder, n + 1) ==
            if (chosen.None? || |s.queue| < |pool[chosen.value].queue|) && Matches(s, filter, folder)
              then Some(n) else chosen
  {
  }

  function MinQueue(pool: Pool, filter: bool, folder: Option<Folder>): (r: Option<nat>)
    ensures r.Some? ==> r.value < |pool| && Matches(pool[r.value], filter, folder)
    ensures r.Some? ==> forall i :: 0 <= i < |pool| && Matches(pool[i], filter, folder) ==>
      |pool[r.value].queue| <= |pool[i].queue|
    ensures r.None? ==> forall i :: 0 <= i < |pool| ==> !Matches(pool[i], filter, folder)
  {
    MinQueueOf(pool, filter, folder, |pool|)
  }

  lemma SomeMinQueue(pool: Pool)
    ensures |pool| > 0 ==> MinQueue(pool, false, None).Some?
  {
    assert |pool| > 0 ==> Matches(pool[0], false, None);
  }

  predicate IsIdle(pool: Pool, i: nat)
    requires i < |pool|
  {
    |pool[i].queue| == 0
  }

  predicate IsFull(settings: Settings, pool: Pool) {
    settings.max != 0 && |pool| >= settings.max
  }

  predicate AllBusy(pool: Pool) {
    forall i :: 0 <= i < |pool| ==> !IsIdle(pool, i)
  }

  /** An idle connection, or a new one while the limit allows, or the one with the fewest operations. */
  function Available(settings: Settings, pool: Pool): (r: (Pool, nat))
    ensures r.1 < |r.0|
    ensures r.0 == pool || (r.0 == pool + [FRESH] && r.1 == |pool| && AllBusy(pool) && !IsFull(settings, pool))
    ensures IsIdle(r.0, r.1) || (AllBusy(pool) && IsFull(settings, pool))
  {
    var chosen := MinQueue(pool, false, None);
    if chosen.Some? && IsIdle(pool, chosen.value) then (pool, chosen.value)
    else if settings.max == 0 || |pool| < settings.max then (pool + [FRESH], |pool|)
    else (pool, chosen.value)
  }

  /** A connection last given the folder, or one never given any, or whatever is available. */
  function Matching(settings: Settings, pool: Pool, folder: Option<Folder>): (r: (Pool, nat))
    ensures r.1 < |r.0|
    ensures r.0 == pool || (r.0 == pool + [FRESH] && r.1 == |pool| && AllBusy(pool) && !IsFull(settings, pool))
  {
    var first := MinQueue(pool, true, folder);
    var second := MinQueue(pool, true, if folder.None? then Some(INBOX) else None);
    if first.Some? then (pool, first.value)
    else if second.Some? then (pool, second.value)
    else Available(settings, pool)
  }

  /** The connection for an operation on a folder, whose last folder is still to be set. */
  function Chosen(settings: Settings, pool: Pool, folder: Option<Folder>, urgent: bool): (r: (Pool, nat))
    ensures r.1 < |r.0|
    ensures r.0 == pool || (r.0 == pool + [FRESH] && r.1 == |pool| && AllBusy(pool) && !IsFull(settings, pool))
  {
    if folder.None? then
      Matching(settings, pool, None)
    else
      var s := MinQueue(pool, true, folder);
      var (grown, a) := Available(settings, pool);
      if s.Some? && IsIdle(pool, s.value) then (pool, s.value)
      else if urgent && settings.concurrent && IsIdle(grown, a) then (grown, a)
      else if urgent && settings.concurrent then Matching(settings, grown, folder)
      else Matching(settings, pool, folder)
  }

  // ----- operations start and finish

  /** The pool with an operation given to a connection, which remembers its folder. */
  function Given(pool: Pool, i: nat, folder: Option<Folder>): (r: Pool)
    requires i < |pool|
    ensures |r| == |pool|
  {
    pool[i := Conn(pool[i].queue + [folder], if folder.Some? then folder else pool[i].last)]
  }

  function Started(settings: Settings, pool: Pool, folder: Option<Folder>, urgent: bool): Pool {
    var (grown, i) := Chosen(settings, pool, folder, urgent);
    Given(grown, i, folder)
  }

  /** The first operation of a connection is over, if it has one. */
  function Finished(pool: Pool, i: nat): (r: Pool)
    ensures |r| == |pool|
  {
    if i < |pool| && !IsIdle(pool, i) then pool[i := pool[i].(queue := pool[i].queue[1..])] else pool
  }

  /** The pool with an operation that was bound to a connection, whose last folder stays what it was. */
  function Queued(pool: Pool, i: nat, folder: Option<Folder>): (r: Pool)
    ensures |r| == |pool|
  {
    if i < |pool| then pool[i := pool[i].(queue := pool[i].queue + [folder])] else pool
  }

  /**
    The operations bound to a connection before they start are those that disconnect it, which have
    no folder; all others are given a connection when they start.
   */
  datatype Event = Start(folder: Option<Folder>, urgent: bool) | Disconnect(i: nat) | Finish(i: nat)

  function After(settings: Settings, pool: Pool, e: Event): Pool {
    match e
    case Start(folder, urgent) => Started(settings, pool, folder, urgent)
    case Disconnect(i) => Queued(pool, i, None)
    case Finish(i) => Finished(pool, i)
  }

  /** The pool after a run of events, from no connections. */
  function Run(settings: Settings, events: seq<Event>): Pool {
    if |events| == 0 then [] else After(settings, Run(settings, events[..|events| - 1]), events[|events| - 1])
  }

  function Outstanding(pool: Pool): nat {
    if |pool| == 0 then 0 else Outstanding(pool[..|pool| - 1]) + |pool[|pool| - 1].queue|
  }

  /** The most operations that were outstanding at once. */
  function HighWater(settings: Settings, events: seq<Event>): nat {
    var now := Outstanding(Run(settings, events));
    if |events| == 0 then now
    else
      var before := HighWater(settings, events[..|events| - 1]);
      if now > before then now else before
  }

  lemma {:induction false} BusyMeansOutstanding(pool: Pool)
    requires AllBusy(pool)
    ensures Outstanding(pool) >= |pool|
  {
    if |pool| == 0 {
    } else {
      var rest := pool[..|pool| - 1];
      assert forall i :: 0 <= i < |rest| ==> IsIdle(rest, i) == IsIdle(pool, i);
      assert !IsIdle(pool, |pool| - 1);
      BusyMeansOutstanding(rest);
    }
  }

  lemma {:induction false} OutstandingChanges(pool: Pool, i: nat, c: Conn)
    requires i < |pool|
    ensures Outstanding(pool[i := c]) == Outstanding(pool) + |c.queue| - |pool[i].queue|
  {
    var n := |pool| - 1;
    if i < n {
      assert pool[i := c][..n] == pool[..n][i := c];
      OutstandingChanges(pool[..n], i, c);
    } else {
      assert pool[i := c][..n] == pool[..n];
    }
  }

  /** Starting adds one outstanding operation, to whichever connection. */
  lemma StartAddsOne(settings: Settings, pool: Pool, folder: Option<Folder>, urgent: bool)
    ensures Outstanding(Started(settings, pool, folder, urgent)) == Outstanding(pool) + 1
  {
    var (grown, i) := Chosen(settings, pool, folder, urgent);
    OutstandingChanges(grown, i, Conn(grown[i].queue + [folder], if folder.Some? then folder else grown[i].last));
    if grown != pool {
      assert grown[..|pool|] == pool;
    }
    hide Chosen;
  }

  // ----- what holds in every run

  /** There are never more connections than the limit allows, nor than there were operations outstanding at once. */
  lemma {:induction false} PoolIsBounded(settings: Settings, events: seq<Event>)
    ensures settings.max != 0 ==> |Run(settings, events)| <= settings.max
    ensures |Run(settings, events)| <= HighWater(settings, events)
  {
    hide Chosen, AllBusy;
    if |events| == 0 {
    } else {
      var before, e := events[..|events| - 1], events[|events| - 1];
      PoolIsBounded(settings, before);
      var pool := Run(settings, before);
      if e.Start? {
        StartAddsOne(settings, pool, e.folder, e.urgent);
        if AllBusy(pool) {
          BusyMeansOutstanding(pool);
        }
      }
    }
  }

  /** No two connections were last given the same folder, and at most one was never given any. */
  ghost predicate DistinctLast(pool: Pool) {
    forall i, j :: 0 <= i < j < |pool| ==> pool[i].last != pool[j].last
  }

  /** Without concurrent access, last folders stay distinct. */
  lemma {:induction false} LastFoldersStayDistinct(settings: Settings, events: seq<Event>)
    requires !settings.concurrent
    ensures DistinctLast(Run(settings, events))
  {
    if |events| == 0 {
    } else {
      var before, e := events[..|events| - 1], events[|events| - 1];
      LastFoldersStayDistinct(settings, before);
      var pool := Run(settings, before);
      if e.Start? {
        DistinctAfterStart(settings, pool, e.folder, e.urgent);
      }
    }
  }

  lemma DistinctAfterStart(settings: Settings, pool: Pool, folder: Option<Folder>, urgent: bool)
    requires !settings.concurrent && DistinctLast(pool)
    ensures DistinctLast(Started(settings, pool, folder, urgent))
  {
    hide MinQueue, IsFull, AllBusy, IsIdle;
  }

  // ----- first come, first served

  /** The operations that the connection at `i` was given in a run, in order. */
  function Handed(settings: Settings, events: seq<Event>, i: nat): seq<Option<Folder>> {
    if |events| == 0 then []
    else
      var before, pool := Handed(settings, events[..|events| - 1], i), Run(settings, events[..|events| - 1]);
      match events[|events| - 1]
      case Start(folder, urgent) => if Chosen(settings, pool, folder, urgent).1 == i then before + [folder] else before
      case Disconnect(k) => if k == i < |pool| then before + [None] else before
      case Finish(_) => before
  }

  /** The last operations of `all` are left. */
  predicate IsRestOf(queue: seq<Option<Folder>>, all: seq<Option<Folder>>) {
    |queue| <= |all| && queue == all[|all| - |queue|..]
  }

  lemma RestGrows(queue: seq<Option<Folder>>, all: seq<Option<Folder>>, folder: Option<Folder>)
    requires IsRestOf(queue, all)
    ensures IsRestOf(queue + [folder], all + [folder])
    ensures |queue| > 0 ==> IsRestOf(queue[1..], all)
  {
  }

  /**
    A connection finishes its operations in the order in which it was given them; a connection that is
    not there was given none.
   */
  lemma {:induction false} FirstComeFirstServed(settings: Settings, events: seq<Event>, i: nat)
    ensures i < |Run(settings, events)| ==> IsRestOf(Run(settings, events)[i].queue, Handed(settings, events, i))
    ensures i >= |Run(settings, events)| ==> Handed(settings, events, i) == []
  {
    hide Chosen, IsRestOf;
    if |events| == 0 {
    } else {
      var before, e := events[..|events| - 1], events[|events| - 1];
      FirstComeFirstServed(settings, before, i);
      var pool, all := Run(settings, before), Handed(settings, before, i);
      match e
      case Start(folder, urgent) =>
        StartedMeans(settings, pool, folder, urgent);
        StartedIsGiven(settings, pool, folder, urgent);
        NothingIsRest();
        RestGrows(if i < |pool| then pool[i].queue else [], all, folder);
      case Disconnect(_) =>
        if i < |pool| {
          RestGrows(pool[i].queue, all, None);
        }
      case Finish(_) =>
        if i < |pool| {
          RestGrows(pool[i].queue, all, None);
        }
    }
  }

  lemma NothingIsRest()
    ensures IsRestOf([], []) && FRESH.queue == []
  {
  }

  lemma StartedIsGiven(settings: Settings, pool: Pool, folder: Option<Folder>, urgent: bool)
    ensures var (grown, k) := Chosen(settings, pool, folder, urgent);
            Started(settings, pool, folder, urgent) == Given(grown, k, folder)
            && (grown == pool || (grown == pool + [FRESH] && k == |pool|))
  {
    hide Chosen;
  }

  // ----- urgent operations, and folders

  /**
    With concurrent access, an urgent operation on a folder waits for no other unless all connections
    are busy and no more are allowed.
   */
  lemma UrgentDoesNotWait(settings: Settings, pool: Pool, folder: Option<Folder>)
    requires settings.concurrent && folder.Some?
    ensures var (grown, i) := Chosen(settings, pool, folder, true);
            IsIdle(grown, i) <==> !(AllBusy(pool) && IsFull(settings, pool))
  {
  }

  /**
    An operation that is not urgent joins the least busy of the connections last given its folder, if
    there are any.
   */
  lemma StaysWithFolder(settings: Settings, pool: Pool, folder: Option<Folder>, i: nat)
    requires folder.Some? && i < |pool| && pool[i].last == folder
    ensures var (grown, k) := Chosen(settings, pool, folder, false);
            grown == pool && pool[k].last == folder && |pool[k].queue| <= |pool[i].queue|
  {
  }

  /** The connection at `k` was last given the folder (or never any), and none that was is less busy. */
  ghost predicate IsLeastBusyOf(pool: Pool, folder: Option<Folder>, k: nat) {
    && k < |pool| && pool[k].last == folder
    && forall i :: 0 <= i < |pool| && pool[i].last == folder ==> |pool[k].queue| <= |pool[i].queue|
  }

  ghost predicate HasLast(pool: Pool, folder: Option<Folder>) {
    exists i :: 0 <= i < |pool| && pool[i].last == folder
  }

  /** An idle connection if there is one, or a new one if that is allowed, or one that is least busy. */
  ghost predicate IsAvailable(settings: Settings, pool: Pool, grown: Pool, k: nat) {
    if !AllBusy(pool) then grown == pool && k < |pool| && IsIdle(pool, k)
    else if !IsFull(settings, pool) then grown == pool + [FRESH] && k == |pool|
    else
      && grown == pool && k < |pool|
      && forall i :: 0 <= i < |pool| ==> |pool[k].queue| <= |pool[i].queue|
  }

  lemma AvailableMeans(settings: Settings, pool: Pool)
    ensures var (grown, k) := Available(settings, pool); IsAvailable(settings, pool, grown, k)
  {
    var chosen := MinQueue(pool, false, None);
    SomeMinQueue(pool);
    assert forall i :: 0 <= i < |pool| ==> Matches(pool[i], false, None);
    hide MinQueue;
    if !AllBusy(pool) {
      var i: nat :| i < |pool| && IsIdle(pool, i);
      assert |pool[chosen.value].queue| <= |pool[i].queue|;
    }
  }

  /**
    Whether it is urgent or not, an operation on a folder goes to an idle connection last given it, if
    there is one.
   */
  lemma PrefersItsIdleConnection(settings: Settings, pool: Pool, folder: Option<Folder>, urgent: bool, i: nat)
    requires folder.Some? && i < |pool| && IsIdle(pool, i) && pool[i].last == folder
    ensures var (grown, k) := Chosen(settings, pool, folder, urgent);
            grown == pool && IsIdle(pool, k) && pool[k].last == folder
  {
    hide MinQueue, Available, Matching;
    assert Matches(pool[i], true, folder);
  }

  /**
    An operation without a folder goes to a least busy connection that was never given one, else to a
    least busy one on INBOX, else to whatever is available.
   */
  lemma WithoutFolderMeans(settings: Settings, pool: Pool, urgent: bool)
    ensures var (grown, k) := Chosen(settings, pool, None, urgent);
            if HasLast(pool, None) then grown == pool && IsLeastBusyOf(pool, None, k)
            else if HasLast(pool, Some(INBOX)) then grown == pool && IsLeastBusyOf(pool, Some(INBOX), k)
            else IsAvailable(settings, pool, grown, k)
  {
    hide MinQueue, Available;
    assert forall i, f :: 0 <= i < |pool| ==> (Matches(pool[i], true, f) <==> pool[i].last == f);
    AvailableMeans(settings, pool);
  }

  /**
    An operation on a folder that is not urgent, or that must not share its folder, goes to a least busy
    connection last given the folder, else to a least busy one never given any, else to whatever is
    available.
   */
  lemma OnFolderMeans(settings: Settings, pool: Pool, folder: Option<Folder>, urgent: bool)
    requires folder.Some? && !(urgent && settings.concurrent)
    ensures var (grown, k) := Chosen(settings, pool, folder, urgent);
            if HasLast(pool, folder) then grown == pool && IsLeastBusyOf(pool, folder, k)
            else if HasLast(pool, None) then grown == pool && IsLeastBusyOf(pool, None, k)
            else IsAvailable(settings, pool, grown, k)
  {
    hide MinQueue, Available;
    assert forall i, f :: 0 <= i < |pool| ==> (Matches(pool[i], true, f) <==> pool[i].last == f);
    AvailableMeans(settings, pool);
  }

  /**
    An urgent operation that may share its folder goes to an idle connection, its folder's own before
    others and others before a new one; with all busy and no more allowed it goes where an operation that
    is not urgent goes.
   */
  lemma UrgentMeans(settings: Settings, pool: Pool, folder: Option<Folder>)
    requires folder.Some? && settings.concurrent
    ensures var (grown, k) := Chosen(settings, pool, folder, true);
            if AllBusy(pool) && IsFull(settings, pool) then (grown, k) == Chosen(settings, pool, folder, false)
            else if AllBusy(pool) then grown == pool + [FRESH] && k == |pool|
            else grown == pool && IsIdle(pool, k)
  {
    hide MinQueue, Matching;
    AvailableMeans(settings, pool);
  }

  /** The operation is last in the queue of the connection chosen, which remembers its folder; nothing else changes. */
  lemma StartedMeans(settings: Settings, pool: Pool, folder: Option<Folder>, urgent: bool)
    ensures var (grown, k) := Chosen(settings, pool, folder, urgent);
            var after := Started(settings, pool, folder, urgent);
            && |after| == |grown|
            && after[k].queue == grown[k].queue + [folder]
            && after[k].last == (if folder.Some? then folder else grown[k].last)
            && forall i :: 0 <= i < |grown| && i != k ==> after[i] == grown[i]
  {
    hide Chosen;
  }

  // ----- one folder on two connections

  /** No folder has outstanding operations on two connections. */
  ghost predicate OneEach(pool: Pool) {
    forall f: Folder, i, j ::
      0 <= i < |pool| && 0 <= j < |pool| && Some(f) in pool[i].queue && Some(f) in pool[j].queue ==> i == j
  }

  /** Every operation on a folder is on a connection that was last given that folder. */
  ghost predicate OnItsFolder(pool: Pool) {
    forall i, f: Folder :: 0 <= i < |pool| && Some(f) in pool[i].queue ==> pool[i].last == Some(f)
  }

  lemma OnItsFolderAfterStart(settings: Settings, pool: Pool, folder: Option<Folder>, urgent: bool)
    requires settings.max == 0 && !settings.concurrent && OnItsFolder(pool)
    ensures OnItsFolder(Started(settings, pool, folder, urgent))
  {
    hide MinQueue, AllBusy;
  }

  lemma OnItsFolderAfterFinish(pool: Pool, i: nat)
    requires OnItsFolder(pool)
    ensures OnItsFolder(Finished(pool, i))
  {
    if i < |pool| && !IsIdle(pool, i) {
      assert forall o :: o in pool[i].queue[1..] ==> o in pool[i].queue;
    }
  }

  lemma OnItsFolderAfterDisconnect(pool: Pool, i: nat)
    requires OnItsFolder(pool)
    ensures OnItsFolder(Queued(pool, i, None))
  {
    if i < |pool| {
      assert forall f: Folder :: Some(f) in pool[i].queue + [None] ==> Some(f) in pool[i].queue;
    }
  }

  lemma {:induction false} StayOnTheirFolder(settings: Settings, events: seq<Event>)
    requires settings.max == 0 && !settings.concurrent
    ensures OnItsFolder(Run(settings, events))
  {
    if |events| > 0 {
      hide OnItsFolder;
      var before, e := events[..|events| - 1], events[|events| - 1];
      StayOnTheirFolder(settings, before);
      match e
      case Start(folder, urgent) => OnItsFolderAfterStart(settings, Run(settings, before), folder, urgent);
      case Disconnect(i) => OnItsFolderAfterDisconnect(Run(settings, before), i);
      case Finish(i) => OnItsFolderAfterFinish(Run(settings, before), i);
    } else {
      assert Run(settings, events) == [];
    }
  }

  /** Distinct folders, one for each number. */
  function Name(k: nat): (f: Folder)
    ensures |f| == k
  {
    seq(k, _ => 'a')
  }

  /** One operation on each of the first `k` folders. */
  function Openings(k: nat): (events: seq<Event>)
    ensures |events| == k
  {
    seq(k, i requires 0 <= i < k => Start(Some(Name(i)), false))
  }

  function Opened(k: nat): (pool: Pool)
    ensures |pool| == k
  {
    seq(k, i requires 0 <= i < k => Conn([Some(Name(i))], Some(Name(i))))
  }

  lemma NamesDiffer(i: nat, j: nat)
    ensures Name(i) == Name(j) ==> i == j
  {
    if Name(i) == Name(j) {
      assert |Name(i)| == |Name(j)|;
    }
  }

  lemma {:induction false} FolderByFolder(settings: Settings, k: nat)
    requires !settings.concurrent && k <= settings.max
    ensures Run(settings, Openings(k)) == Opened(k)
  {
    if k == 0 {
    } else {
      FolderByFolder(settings, k - 1);
      assert Openings(k)[..k - 1] == Openings(k - 1);
      OpensAnother(settings, k - 1);
    }
  }

  lemma OpensAnother(settings: Settings, k: nat)
    requires !settings.concurrent && k < settings.max
    ensures Started(settings, Opened(k), Some(Name(k)), false) == Opened(k + 1)
  {
    var pool, folder := Opened(k), Some(Name(k));
    forall i | 0 <= i < k
      ensures pool[i].last != folder && pool[i].last != None
    {
      NamesDiffer(i, k);
    }
    assert MinQueue(pool, true, folder) == None && MinQueue(pool, true, None) == None;
    assert AllBusy(pool);
    hide Name, MinQueue;
    assert Available(settings, pool) == (pool + [FRESH], k);
    assert Chosen(settings, pool, folder, false) == (pool + [FRESH], k);
    assert [] + [folder] == [folder];
    assert Given(pool + [FRESH], k, folder) == Opened(k + 1);
  }

  lemma MinQueueIs(pool: Pool, filter: bool, folder: Option<Folder>, r: nat)
    requires r < |pool| && Matches(pool[r], filter, folder)
    requires forall i :: 0 <= i < |pool| && Matches(pool[i], filter, folder) ==>
      if i < r then |pool[r].queue| < |pool[i].queue| else |pool[r].queue| <= |pool[i].queue|
    ensures MinQueue(pool, filter, folder) == Some(r)
  {
  }

  /**
    When all connections are busy and no more are allowed, a new folder takes over the first, and its
    old folder goes to the second.
   */
  lemma TakesOver(settings: Settings, m: nat)
    requires !settings.concurrent && settings.max == m >= 2
    ensures var taken := Started(settings, Opened(m), Some(Name(m)), false);
            !OneEach(Started(settings, taken, Some(Name(0)), false))
  {
    var pool, folder := Opened(m), Some(Name(m));
    forall i | 0 <= i < m
      ensures pool[i].last != folder && pool[i].last != None
      ensures i > 0 ==> pool[i].last != Some(Name(0))
    {
      NamesDiffer(i, m);
      NamesDiffer(i, 0);
    }
    NamesDiffer(m, 0);
    assert MinQueue(pool, true, folder) == None && MinQueue(pool, true, None) == None;
    MinQueueIs(pool, false, None, 0);
    assert Chosen(settings, pool, folder, false) == (pool, 0);
    var taken := Given(pool, 0, folder);
    var first := Some(Name(0));
    assert MinQueue(taken, true, first) == None && MinQueue(taken, true, None) == None;
    MinQueueIs(taken, false, None, 1);
    assert Chosen(settings, taken, first, false) == (taken, 1);
    var both := Given(taken, 1, first);
    assert both[0].queue[0] == first && both[1].queue[1] == first;
  }

  /** With concurrent access, a second urgent operation on a folder gets a connection of its own. */
  lemma OpensTwo(settings: Settings)
    requires settings.concurrent && settings.max != 1
    ensures !OneEach(Run(settings, [Start(Some(INBOX), true), Start(Some(INBOX), true)]))
  {
    var f: Option<Folder> := Some(INBOX);
    var one := [Conn([f], f)];
    var events := [Start(f, true), Start(f, true)];
    assert Run(settings, []) == [];
    assert [Start(f, true)][..0] == [];
    var none: Pool := [];
    assert none + [FRESH] == [FRESH];
    assert Available(settings, none) == ([FRESH], 0);
    assert Chosen(settings, [], f, true) == ([FRESH], 0);
    assert [] + [f] == [f];
    assert Given([FRESH], 0, f) == one;
    assert events[..1] == [Start(f, true)];
    assert Run(settings, events[..1]) == one;
    assert IsIdle(one + [FRESH], 1) && !IsIdle(one, 0);
    assert Available(settings, one) == (one + [FRESH], 1);
    var two := Started(settings, one, f, true);
    assert two[0].queue[0] == f && two[1].queue[0] == f;
  }

  /**
    In every run no folder is on two connections, exactly with one connection at most, or with no limit
    and no concurrent access.
   */
  lemma OneFolderOneConnectionIff(settings: Settings)
    ensures (forall events :: OneEach(Run(settings, events))) <==>
            (settings.max == 1 || (settings.max == 0 && !settings.concurrent))
  {
    hide Started, OneEach, Run;
    if settings.max == 1 || (settings.max == 0 && !settings.concurrent) {
      forall events
        ensures OneEach(Run(settings, events))
      {
        OneEachHolds(settings, events);
      }
    } else if settings.concurrent {
      OpensTwo(settings);
    } else {
      TakesOverInRun(settings);
    }
  }

  lemma RunAppends(settings: Settings, events: seq<Event>, e: Event)
    ensures Run(settings, events + [e]) == After(settings, Run(settings, events), e)
  {
    assert (events + [e])[..|events|] == events;
  }

  /** A run to `TakesOver`. */
  lemma TakesOverInRun(settings: Settings)
    requires !settings.concurrent && settings.max >= 2
    ensures exists events :: !OneEach(Run(settings, events))
  {
    hide Run, Started, OneEach, Name, Openings, Opened;
    var m := settings.max;
    var third, first := Start(Some(Name(m)), false), Start(Some(Name(0)), false);
    FolderByFolder(settings, m);
    TakesOver(settings, m);
    RunAppends(settings, Openings(m), third);
    RunAppends(settings, Openings(m) + [third], first);
    assert !OneEach(Run(settings, Openings(m) + [third] + [first]));
  }

  lemma OneEachHolds(settings: Settings, events: seq<Event>)
    requires settings.max == 1 || (settings.max == 0 && !settings.concurrent)
    ensures OneEach(Run(settings, events))
  {
    hide Run;
    if settings.max == 1 {
      PoolIsBounded(settings, events);
    } else {
      StayOnTheirFolder(settings, events);
      LastFoldersStayDistinct(settings, events);
      DistinctMeansOneEach(Run(settings, events));
    }
  }

  lemma DistinctMeansOneEach(pool: Pool)
    requires DistinctLast(pool) && OnItsFolder(pool)
    ensures OneEach(pool)
  {
    forall f: Folder, i, j | 0 <= i < |pool| && 0 <= j < |pool| && Some(f) in pool[i].queue && Some(f) in pool[j].queue
      ensures i == j
    {
      assert pool[i].last == Some(f) == pool[j].last;
    }
  }
}
