/**
  The session and the connections of MCIMAPAsyncSession.cpp and MCIMAPAsyncConnection.cpp as objects,
  updated in place: what they hand out is what `ConnectionPool` says, and the callbacks take the steps
  of `ConnectionLifecycle`.
 */
module AsyncSession {
  import opened Basics
  import opened ConnectionPool
  import Lifecycle = ConnectionLifecycle

  class IMAPAsyncConnection {
    const mOwner: IMAPAsyncSession
    /** The operations in the queue, each known by its folder, and whether its thread is started. */
    var mQueue: seq<Option<Folder>>
    var mStarted: bool
    var mLastFolder: Option<Folder>
    var mScheduledAutomaticDisconnect: bool
    var mPendingCalls: nat
    var mQueueRunning: bool
    var mDisconnected: bool
    var mRetainCount: int

    constructor (owner: IMAPAsyncSession)
      ensures Value() == FRESH && Life() == Lifecycle.FRESH && mOwner == owner
    {
      mOwner := owner;
      mQueue, mStarted := [], false;
      mLastFolder := None;
      mScheduledAutomaticDisconnect, mPendingCalls := false, 0;
      mQueueRunning := false;
      mDisconnected := true;
      mRetainCount := 0;
    }

    function Value(): Conn
      reads this`mQueue, this`mLastFolder
    {
      Conn(mQueue, mLastFolder)
    }

    function Life(): Lifecycle.Conn
      reads this
    {
      Lifecycle.Conn(mScheduledAutomaticDisconnect, mPendingCalls, mQueueRunning,
                     |mQueue|, mStarted, mDisconnected, mRetainCount)
    }

    function OperationsCount(): nat
      reads this`mQueue
    {
      |mQueue|
    }

    method SetLastFolder(folder: Option<Folder>)
      modifies this`mLastFolder
      ensures mLastFolder == folder
    {
      mLastFolder := folder;
    }

    /** The connection is the one at place `i` of its owner. */
    ghost predicate IsAt(i: nat)
      reads mOwner`mSessions
    {
      mOwner.Valid() && i < |mOwner.mSessions| && mOwner.mSessions[i] == this
    }

    // ----- the callbacks of the queue

    method QueueStartRunning(ghost i: nat)
      requires IsAt(i)
      modifies this`mQueueRunning, this`mRetainCount, mOwner`mRetainCount, mOwner`mQueueRunning, mOwner`mSignals
      ensures mOwner.State() == Lifecycle.QueueStarts(old(mOwner.State()), i)
    {
      hide Lifecycle.StateChanged;
      SetQueueRunning(true, i);
      mOwner.OperationRunningStateChanged();
      Retain(i);
    }

    method SetQueueRunning(running: bool, ghost i: nat)
      requires IsAt(i)
      modifies this`mQueueRunning
      ensures var s := old(mOwner.State());
              mOwner.State() == Lifecycle.With(s, i, s.conns[i].(running := running))
    {
      ghost var s := mOwner.State();
      mQueueRunning := running;
      assert mOwner.State().conns == s.conns[i := Life()];
    }

    /** Holds on to the connection and to the session. */
    method Retain(ghost i: nat)
      requires IsAt(i)
      modifies this`mRetainCount, mOwner`mRetainCount
      ensures var s := old(mOwner.State());
              mOwner.State() ==
              Lifecycle.With(s, i, s.conns[i].(ownRetains := s.conns[i].ownRetains + 1)).(retains := s.retains + 1)
    {
      ghost var s := mOwner.State();
      mRetainCount := mRetainCount + 1;
      mOwner.mRetainCount := mOwner.mRetainCount + 1;
      assert mOwner.State().conns == s.conns[i := Life()];
    }

    /** Lets go of the session and of the connection. */
    method Release(ghost i: nat)
      requires IsAt(i)
      modifies this`mRetainCount, mOwner`mRetainCount
      ensures var s := old(mOwner.State());
              mOwner.State() ==
              Lifecycle.With(s, i, s.conns[i].(ownRetains := s.conns[i].ownRetains - 1)).(retains := s.retains - 1)
    {
      ghost var s := mOwner.State();
      mOwner.mRetainCount := mOwner.mRetainCount - 1;
      mRetainCount := mRetainCount - 1;
      assert mOwner.State().conns == s.conns[i := Life()];
    }

    method QueueStoppedRunning(ghost i: nat)
      requires IsAt(i)
      modifies this`mQueueRunning, this`mRetainCount, this`mScheduledAutomaticDisconnect, this`mPendingCalls
      modifies mOwner`mRetainCount, mOwner`mQueueRunning, mOwner`mSignals
      ensures mOwner.State() == Lifecycle.QueueStops(old(mOwner.State()), i)
    {
      hide Lifecycle.Schedules, Lifecycle.StateChanged;
      SetQueueRunning(false, i);
      TryAutomaticDisconnect(i);
      mOwner.OperationRunningStateChanged();
      Release(i);
    }

    // ----- the queue

    method SetStarted(started: bool, ghost i: nat)
      requires IsAt(i)
      modifies this`mStarted
      ensures var s := old(mOwner.State());
              mOwner.State() == Lifecycle.With(s, i, s.conns[i].(started := started))
    {
      ghost var s := mOwner.State();
      mStarted := started;
      assert mOwner.State().conns == s.conns[i := Life()];
    }

    method StartThread(ghost i: nat)
      requires IsAt(i)
      modifies this`mQueueRunning, this`mRetainCount, this`mStarted
      modifies mOwner`mRetainCount, mOwner`mQueueRunning, mOwner`mSignals
      ensures mOwner.State() == Lifecycle.ThreadStarts(old(mOwner.State()), i)
    {
      hide Lifecycle.QueueStarts;
      if mStarted {
        return;
      }
      QueueStartRunning(i);
      SetStarted(true, i);
    }

    method Enqueue(folder: Option<Folder>, ghost i: nat)
      requires IsAt(i)
      modifies this`mQueue
      ensures var s := old(mOwner.State());
              mOwner.State() == Lifecycle.With(s, i, s.conns[i].(operations := s.conns[i].operations + 1))
      ensures mOwner.Pool() == Queued(old(mOwner.Pool()), i, folder)
      ensures mQueue == old(mQueue) + [folder]
    {
      ghost var s, pool := mOwner.State(), mOwner.Pool();
      mQueue := mQueue + [folder];
      assert mOwner.State().conns == s.conns[i := Life()];
      assert mOwner.Pool() == pool[i := Value()];
    }

    method AddOperation(folder: Option<Folder>, ghost i: nat)
      requires IsAt(i)
      modifies this`mQueue, this`mQueueRunning, this`mRetainCount, this`mStarted
      modifies mOwner`mRetainCount, mOwner`mQueueRunning, mOwner`mSignals
      ensures var s := old(mOwner.State());
              mOwner.State() ==
              Lifecycle.ThreadStarts(Lifecycle.With(s, i, s.conns[i].(operations := s.conns[i].operations + 1)), i)
      ensures mOwner.Pool() == Queued(old(mOwner.Pool()), i, folder) && mQueue == old(mQueue) + [folder]
    {
      hide Lifecycle.ThreadStarts, Queued;
      Enqueue(folder, i);
      StartThread(i);
    }

    /** The thread is done with the first operation. */
    method RemoveFirst(ghost i: nat)
      requires IsAt(i)
      modifies this`mQueue
      ensures mOwner.State() == Lifecycle.After(old(mOwner.State()), Lifecycle.FinishOperation(i))
      ensures mOwner.Pool() == Finished(old(mOwner.Pool()), i)
    {
      ghost var s, pool := mOwner.State(), mOwner.Pool();
      assert s.conns[i] == Life() && pool[i] == Value();
      if |mQueue| == 0 {
        assert s.conns == s.conns[i := Life()];
        return;
      }
      mQueue := mQueue[1..];
      assert mOwner.State().conns == s.conns[i := Life()];
      assert mOwner.Pool() == pool[i := Value()];
    }

    method StoppedOnMainThread(ghost i: nat)
      requires IsAt(i)
      modifies this`mQueueRunning, this`mRetainCount,
               this`mScheduledAutomaticDisconnect, this`mPendingCalls, this`mStarted
      modifies mOwner`mRetainCount, mOwner`mQueueRunning, mOwner`mSignals
      ensures mOwner.State() == Lifecycle.ThreadStops(old(mOwner.State()), i)
    {
      hide Lifecycle.QueueStops, Lifecycle.ThreadStarts;
      SetStarted(false, i);
      QueueStoppedRunning(i);
      assert mOwner.State().conns[i].operations == |mQueue|;
      if |mQueue| > 0 {
        StartThread(i);
      }
    }

    // ----- operations and the delayed disconnection

    /** Cancels a delayed call and lets go of the session. */
    method CancelDisconnect(ghost i: nat)
      requires IsAt(i)
      modifies this`mScheduledAutomaticDisconnect, this`mPendingCalls, mOwner`mRetainCount
      ensures var s := old(mOwner.State());
              mOwner.State() ==
              Lifecycle.With(s, i, s.conns[i].(scheduled := false, pending := Lifecycle.OneLess(s.conns[i].pending)))
                .(retains := s.retains - 1)
    {
      ghost var s := mOwner.State();
      mPendingCalls := Lifecycle.OneLess(mPendingCalls);
      mOwner.mRetainCount := mOwner.mRetainCount - 1;
      mScheduledAutomaticDisconnect := false;
      assert mOwner.State().conns == s.conns[i := Life()];
    }

    /** Runs an operation on a folder, or on none. */
    method RunOperation(folder: Option<Folder>, ghost i: nat)
      requires IsAt(i)
      modifies this`mQueue, this`mQueueRunning, this`mRetainCount, this`mStarted
      modifies this`mScheduledAutomaticDisconnect, this`mPendingCalls
      modifies mOwner`mRetainCount, mOwner`mQueueRunning, mOwner`mSignals
      ensures mOwner.State() == Lifecycle.Runs(old(mOwner.State()), i)
      ensures mOwner.Pool() == Queued(old(mOwner.Pool()), i, folder) && mQueue == old(mQueue) + [folder]
    {
      hide Lifecycle.ThreadStarts, Queued;
      hide IMAPAsyncSession.Pool;
      assert mOwner.State().conns[i] == Life();
      if mScheduledAutomaticDisconnect {
        CancelDisconnect(i);
      }
      AddOperation(folder, i);
    }

    method TryAutomaticDisconnect(ghost i: nat)
      requires IsAt(i)
      modifies this`mScheduledAutomaticDisconnect, this`mPendingCalls, mOwner`mRetainCount
      ensures mOwner.State() == Lifecycle.Schedules(old(mOwner.State()), i)
    {
      if mDisconnected {
        return;
      }
      ghost var s := mOwner.State();
      var scheduledAutomaticDisconnect := mScheduledAutomaticDisconnect;
      if scheduledAutomaticDisconnect {
        mPendingCalls := Lifecycle.OneLess(mPendingCalls);
      }
      mOwner.mRetainCount := mOwner.mRetainCount + 1;
      mScheduledAutomaticDisconnect := true;
      mPendingCalls := mPendingCalls + 1;
      if scheduledAutomaticDisconnect {
        mOwner.mRetainCount := mOwner.mRetainCount - 1;
      }
      assert mOwner.State().conns == s.conns[i := Life()];
    }

    /** A delayed call is due: it is pending no longer. */
    method CallIsDue(ghost i: nat)
      requires IsAt(i)
      modifies this`mScheduledAutomaticDisconnect, this`mPendingCalls
      ensures var s := old(mOwner.State());
              mOwner.State() ==
              Lifecycle.With(s, i, s.conns[i].(scheduled := false, pending := Lifecycle.OneLess(s.conns[i].pending)))
    {
      ghost var s := mOwner.State();
      mPendingCalls := Lifecycle.OneLess(mPendingCalls);
      mScheduledAutomaticDisconnect := false;
      assert mOwner.State().conns == s.conns[i := Life()];
    }

    /** The operation that disconnects is bound to this connection and has no folder. */
    method TryAutomaticDisconnectAfterDelay(ghost i: nat)
      requires IsAt(i)
      modifies this`mQueue, this`mQueueRunning, this`mRetainCount, this`mStarted
      modifies this`mScheduledAutomaticDisconnect, this`mPendingCalls
      modifies mOwner`mRetainCount, mOwner`mQueueRunning, mOwner`mSignals
      ensures mOwner.State() == Lifecycle.DelayEnds(old(mOwner.State()), i)
      ensures mOwner.Pool() == After(mOwner.CurrentSettings(), old(mOwner.Pool()), Disconnect(i))
    {
      hide Lifecycle.Runs, Queued, Started;
      hide IMAPAsyncSession.Pool, IMAPAsyncSession.State;
      CallIsDue(i);
      RunOperation(None, i);
      mOwner.ReleaseOnce();
    }
  }

  ghost function Values(ss: seq<IMAPAsyncConnection>): (p: Pool)
    reads ss`mQueue, ss`mLastFolder
    ensures |p| == |ss| && forall i :: 0 <= i < |ss| ==> p[i] == ss[i].Value()
  {
    if |ss| == 0 then [] else Values(ss[..|ss| - 1]) + [ss[|ss| - 1].Value()]
  }

  class IMAPAsyncSession {
    var mSessions: seq<IMAPAsyncConnection>
    var mMaximumConnections: nat
    var mAllowsFolderConcurrentAccessEnabled: bool
    var mQueueRunning: bool
    var mRetainCount: int
    /** What the operation queue callback was told. */
    var mSignals: seq<Lifecycle.Signal>

    ghost predicate Valid()
      reads this`mSessions
    {
      && (forall i, j :: 0 <= i < j < |mSessions| ==> mSessions[i] != mSessions[j])
      && (forall i :: 0 <= i < |mSessions| ==> mSessions[i].mOwner == this)
    }

    function CurrentSettings(): Settings
      reads this`mMaximumConnections, this`mAllowsFolderConcurrentAccessEnabled
    {
      Settings(mMaximumConnections, mAllowsFolderConcurrentAccessEnabled)
    }

    ghost function Pool(): (p: Pool)
      reads this`mSessions, mSessions`mQueue, mSessions`mLastFolder
      ensures |p| == |mSessions|
    {
      Values(mSessions)
    }

    ghost function State(): (s: Lifecycle.Session)
      reads this`mSessions, this`mQueueRunning, this`mRetainCount, this`mSignals, mSessions
      ensures |s.conns| == |mSessions|
    {
      var ss := mSessions;
      Lifecycle.Session(seq(|ss|, i requires 0 <= i < |ss| reads ss => ss[i].Life()),
                        mQueueRunning, mRetainCount, mSignals)
    }

    constructor ()
      ensures Valid() && Pool() == [] && State() == Lifecycle.EMPTY
      ensures mMaximumConnections == 3 && mAllowsFolderConcurrentAccessEnabled
    {
      mSessions := [];
      mMaximumConnections := 3;
      mAllowsFolderConcurrentAccessEnabled := true;
      mQueueRunning := false;
      mRetainCount := 0;
      mSignals := [];
    }

    method OperationRunningStateChanged()
      modifies this`mQueueRunning, this`mSignals
      ensures State() == Lifecycle.StateChanged(old(State()))
    {
      var isRunning := false;
      for i := 0 to |mSessions|
        invariant !isRunning
        invariant forall j :: 0 <= j < i ==> !State().conns[j].running
      {
        if mSessions[i].mQueueRunning {
          isRunning := true;
          assert State().conns[i].running;
          break;
        }
      }
      if mQueueRunning == isRunning {
        return;
      }
      mQueueRunning := isRunning;
      if isRunning {
        mSignals := mSignals + [Lifecycle.StartRunning];
      } else {
        mSignals := mSignals + [Lifecycle.StoppedRunning];
      }
    }

    method ReleaseOnce()
      modifies this`mRetainCount
      ensures State() == old(State()).(retains := old(State()).retains - 1)
    {
      mRetainCount := mRetainCount - 1;
    }

    // ----- choosing a connection

    /** The place of a connection, if there is one. */
    ghost predicate IsAt(s: IMAPAsyncConnection?, k: Option<nat>)
      reads this`mSessions
    {
      if s == null then k.None? else k.Some? && k.value < |mSessions| && mSessions[k.value] == s
    }

    method SessionWithMinQueue(filterByFolder: bool, folder: Option<Folder>)
        returns (chosenSession: IMAPAsyncConnection?)
      ensures IsAt(chosenSession, MinQueue(Pool(), filterByFolder, folder))
    {
      hide MinQueueOf;
      hide IMAPAsyncSession.Pool;
      NoMinQueueOf(Pool(), filterByFolder, folder);
      chosenSession := null;
      var minOperationsCount := 0;
      for i := 0 to |mSessions|
        invariant IsAt(chosenSession, MinQueueOf(Pool(), filterByFolder, folder, i))
        invariant chosenSession != null ==> minOperationsCount == chosenSession.OperationsCount()
      {
        var s := mSessions[i];
        MinQueueOfNext(Pool(), filterByFolder, folder, i);
        ValueAt(i);
        if chosenSession != null {
          ValueAt(MinQueueOf(Pool(), filterByFolder, folder, i).value);
        }
        if chosenSession == null || s.OperationsCount() < minOperationsCount {
          var matched := true;
          if filterByFolder {
            matched := (folder.Some? && s.mLastFolder.Some? && s.mLastFolder.value == folder.value)
            || (folder.None? && s.mLastFolder.None?);
          }
          if matched {
            chosenSession := s;
            minOperationsCount := s.OperationsCount();
          }
        }
      }
    }

    lemma ValueAt(i: nat)
      requires i < |mSessions|
      ensures Pool()[i] == mSessions[i].Value()
    {
    }

    /** The connections are those of a pool, and `s` is the one at its place `r.1`. */
    ghost predicate Offers(r: (Pool, nat), s: IMAPAsyncConnection)
      reads this`mSessions, mSessions`mQueue, mSessions`mLastFolder
    {
      Pool() == r.0 && r.1 < |mSessions| && mSessions[r.1] == s
    }

    /** Nothing has happened but that a connection may have been opened. */
    ghost predicate OpensAtMost(before: Lifecycle.Session)
      reads this`mSessions, this`mQueueRunning, this`mRetainCount, this`mSignals, mSessions
    {
      State() == if |mSessions| == |before.conns| then before else Lifecycle.After(before, Lifecycle.Open)
    }

    method AvailableSession() returns (s: IMAPAsyncConnection)
      requires Valid()
      modifies this`mSessions
      ensures Valid() && Offers(Available(CurrentSettings(), old(Pool())), s)
      ensures s in old(mSessions) || fresh(s)
      ensures old(mSessions) <= mSessions && OpensAtMost(old(State()))
    {
      hide MinQueue;
      hide IMAPAsyncSession.Pool, IMAPAsyncSession.State;
      SomeMinQueue(Pool());
      var chosenSession := SessionWithMinQueue(false, None);
      if chosenSession != null {
        ValueAt(MinQueue(Pool(), false, None).value);
        if chosenSession.OperationsCount() == 0 {
          return chosenSession;
        }
      }
      if mMaximumConnections == 0 || |mSessions| < mMaximumConnections {
        s := OpenSession();
        return s;
      }
      s := chosenSession;
    }

    /** A new connection, last in the array. */
    method OpenSession() returns (s: IMAPAsyncConnection)
      requires Valid()
      modifies this`mSessions
      ensures Valid() && fresh(s) && mSessions == old(mSessions) + [s] && Pool() == old(Pool()) + [FRESH]
      ensures State() == Lifecycle.After(old(State()), Lifecycle.Open)
    {
      s := new IMAPAsyncConnection(this);
      mSessions := mSessions + [s];
    }

    method MatchingSessionForFolder(folder: Option<Folder>) returns (s: IMAPAsyncConnection)
      requires Valid()
      modifies this`mSessions
      ensures Valid() && Offers(Matching(CurrentSettings(), old(Pool()), folder), s)
      ensures s in old(mSessions) || fresh(s)
      ensures OpensAtMost(old(State()))
    {
      hide MinQueue, Available;
      hide IMAPAsyncSession.Pool, IMAPAsyncSession.State;
      var found := SessionWithMinQueue(true, folder);
      if found == null {
        found := SessionWithMinQueue(true, if folder.None? then Some(INBOX) else None);
      }
      if found != null {
        return found;
      }
      s := AvailableSession();
    }

    /** The connection `s`, at place `r.1` of the pool `r.0`, now remembers the folder. */
    ghost predicate Remembers(r: (Pool, nat), folder: Option<Folder>, s: IMAPAsyncConnection)
      requires r.1 < |r.0|
      reads this`mSessions, mSessions`mQueue, mSessions`mLastFolder
    {
      Offers((r.0[r.1 := r.0[r.1].(last := if folder.Some? then folder else r.0[r.1].last)], r.1), s)
    }

    /** Gives a connection that is offered its new last folder. */
    method Remember(s: IMAPAsyncConnection, folder: Option<Folder>, ghost r: (Pool, nat))
      requires Valid() && Offers(r, s) && folder.Some?
      modifies s`mLastFolder
      ensures r.1 < |r.0| && Remembers(r, folder, s)
      ensures State() == old(State())
    {
      ghost var before := State();
      s.SetLastFolder(folder);
      assert Pool() == r.0[r.1 := r.0[r.1].(last := folder)];
      assert State().conns == before.conns;
    }

    /** The least busy of the connections last given the folder is taken if it is idle. */
    method TrySelected(folder: Option<Folder>) returns (taken: bool, s: IMAPAsyncConnection?)
      requires Valid() && folder.Some?
      modifies mSessions`mLastFolder
      ensures var pool, k := old(Pool()), MinQueue(old(Pool()), true, folder);
              && (taken <==> k.Some? && IsIdle(pool, k.value))
              && (if taken then s != null && Remembers((pool, k.value), folder, s) else Pool() == pool)
      ensures s == null || s in mSessions
      ensures State() == old(State())
    {
      hide MinQueue;
      ghost var pool, k := Pool(), MinQueue(Pool(), true, folder);
      s := SessionWithMinQueue(true, folder);
      taken := false;
      if s != null {
        assert pool[k.value] == s.Value();
        if s.OperationsCount() == 0 {
          Remember(s, folder, (pool, k.value));
          taken := true;
        }
      }
    }

    /** For an urgent operation, whatever is available is taken if it is idle. */
    method TryAvailable(folder: Option<Folder>) returns (taken: bool, s: IMAPAsyncConnection)
      requires Valid() && folder.Some?
      modifies this`mSessions, mSessions`mLastFolder
      ensures var r := Available(CurrentSettings(), old(Pool()));
              && Valid() && taken == IsIdle(r.0, r.1)
              && (if taken then Remembers(r, folder, s) else Pool() == r.0)
      ensures s in old(mSessions) || fresh(s)
      ensures !taken ==> mSessions == old(mSessions)
      ensures OpensAtMost(old(State()))
    {
      hide Available;
      ghost var r := Available(CurrentSettings(), Pool());
      s := AvailableSession();
      taken := s.OperationsCount() == 0;
      if taken {
        Remember(s, folder, r);
      }
    }

    method SessionForFolder(folder: Option<Folder>, urgent: bool) returns (s: IMAPAsyncConnection)
      requires Valid()
      modifies this`mSessions, mSessions`mLastFolder
      ensures Valid() && Remembers(Chosen(CurrentSettings(), old(Pool()), folder, urgent), folder, s)
      ensures s in old(mSessions) || fresh(s)
      ensures OpensAtMost(old(State()))
    {
      hide Available, Matching, MinQueue;
      hide IMAPAsyncSession.Pool, IMAPAsyncSession.State;
      if folder.None? {
        s := MatchingSessionForFolder(None);
        return;
      }
      var taken, found := TrySelected(folder);
      if taken {
        return found;
      }
      if urgent && mAllowsFolderConcurrentAccessEnabled {
        taken, s := TryAvailable(folder);
        if taken {
          return;
        }
      }
      ghost var r := Matching(CurrentSettings(), Pool(), folder);
      s := MatchingSessionForFolder(folder);
      Remember(s, folder, r);
    }

    /** The connection `s` of a pool that is offered has the operation last in its queue, and remembers its folder. */
    lemma GivenIs(r: (Pool, nat), folder: Option<Folder>)
      requires r.1 < |r.0|
      ensures Queued(r.0[r.1 := r.0[r.1].(last := if folder.Some? then folder else r.0[r.1].last)], r.1, folder) ==
              Given(r.0, r.1, folder)
    {
    }

    /**
      Starts an operation on the connection it is bound to, if any, or on the one chosen for it. For
      the life of the connections this is the step of running an operation, after one is opened if need be.
     */
    method Start(session: IMAPAsyncConnection?, folder: Option<Folder>, urgent: bool, ghost k: nat)
        returns (s: IMAPAsyncConnection, ghost i: nat)
      requires Valid() && (session != null ==> session.mOwner == this && session.IsAt(k))
      modifies this`mSessions, mSessions, this`mRetainCount, this`mQueueRunning, this`mSignals
      ensures Valid() && s.mOwner == this && s.IsAt(i) && s in mSessions
      ensures session != null ==> s == session && Pool() == Queued(old(Pool()), k, folder)
      ensures session == null ==> Pool() == Started(CurrentSettings(), old(Pool()), folder, urgent)
      ensures |s.mQueue| > 0 && s.mQueue[|s.mQueue| - 1] == folder
      ensures var before := old(State());
              var ready := if |mSessions| == |before.conns| then before else Lifecycle.After(before, Lifecycle.Open);
              i < |ready.conns| && State() == Lifecycle.After(ready, Lifecycle.RunOperation(i))
    {
      hide Chosen, Queued, Lifecycle.Runs;
      hide IMAPAsyncSession.Pool, IMAPAsyncSession.State;
      if session != null {
        s, i := session, k;
      } else {
        ghost var r := Chosen(CurrentSettings(), Pool(), folder, urgent);
        s := SessionForFolder(folder, urgent);
        i := r.1;
        GivenIs(r, folder);
      }
      s.RunOperation(folder, i);
    }
  }
}
