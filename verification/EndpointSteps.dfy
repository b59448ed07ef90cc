/**
What the rounds of an `EventManager` are in the protocol of its remote endpoint.  The protocol only knows whether the
eventfd is watched; here that is a matter of the registrations, and a round's dispatching decides which of the
protocol's steps the manager takes.
*/
module EndpointSteps {
  import opened Basics
  import opened EventDispatch
  import opened EndpointDispatch
  import P = RemoteEndpoint
  import L = RemoteLiveness

  /** What `watched` stands for: the channel is registered on the manager's behalf, for input. */
  predicate Watching<T>(m: Manager<T>) {
    Connected(m) && Has(m.epoll.interest[m.channelFd].events, IN)
  }

  ghost predicate ReportsInput<T>(m: Manager<T>, evs: seq<EpollEvent>) {
    && m.channelFd !in m.epoll.dispatch
    && exists k :: 0 <= k < |evs| && FdOf(evs[k]) == m.channelFd && Has(evs[k].events, IN)
  }

  /** A round in which the kernel behaves and the endpoint does not panic. */
  ghost predicate GoodRound<T>(m: Manager<T>, a: Action<T>) {
    && a.Run? && Possible(m, a) && EventFdReports(m.epoll, a.evs, m.channelFd)
    && !EndpointPanics(Visits(m, a))
  }

  /** The state after the callbacks of a round, before the closures of the endpoint. */
  function AfterCallbacks<T>(m: Manager<T>, a: Action<T>): Manager<T>
    requires a.Run? && |a.evs| <= |m.epoll.ready| && |a.reactions| == |a.evs|
  {
    Dispatch(Polled(m, a.evs), a.reactions, |a.evs|).0
  }

  /** The manager can be told of the channel exactly when it watches it and has room for an event. */
  lemma PollIffWatching<T(!new)>(m: Manager<T>, idle: T)
    requires Inv(m)
    ensures (exists a :: GoodRound(m, a) && ReportsInput(m, a.evs)) <==> Watching(m) && m.epoll.ready != []
  {
    forall a | GoodRound(m, a) && ReportsInput(m, a.evs) ensures Watching(m) && m.epoll.ready != [] {
      ReportNeedsWatch(m, a.evs);
    }
    if Watching(m) && m.epoll.ready != [] { var _ := WatchReports(m, idle); }
  }

  lemma ReportNeedsWatch<T>(m: Manager<T>, evs: seq<EpollEvent>)
    requires Reportable(m.epoll, evs) && EventFdReports(m.epoll, evs, m.channelFd) && ReportsInput(m, evs)
    ensures Watching(m)
  {
  }

  lemma WatchReports<T>(m: Manager<T>, idle: T) returns (a: Action<T>)
    requires m.epoll.ready != [] && Watching(m) && Inv(m)
    ensures GoodRound(m, a) && ReportsInput(m, a.evs)
  {
    var ev := EpollEvent(IN, m.epoll.interest[m.channelFd].data);
    a := Run([ev], [Reaction([], idle)], []);
    assert FdOf(ev) == FdOf(m.epoll.interest[m.channelFd]);
    assert Dispatch(Polled(m, a.evs), a.reactions, 0).1 == [];
    assert Visits(m, a) == [Deferred(ev)];
    assert FdOf(a.evs[0]) == m.channelFd && Has(a.evs[0].events, IN);
  }

  // ----- A channel that was reported but is not served -----

  lemma {:induction false} RemovedMeansLost(p: Epoll, id: SubscriberId, ops: seq<Op>, fd: Fd)
    ensures fd in PerformAll(p, id, ops).1 ==> !OnBehalf(PerformAll(p, id, ops).0, fd)
    decreases |ops|
  {
    if ops != [] { RemovedMeansLost(p, id, ops[..|ops| - 1], fd); }
  }

  lemma VisitLoses<T>(m: Manager<T>, k: nat, reaction: Reaction<T>)
    requires k < |m.epoll.ready|
    ensures var (m', v) := Visited(m, k, reaction);
            && m'.channelFd == m.channelFd
            && (Connected(m') ==> Connected(m))
            && (v.Delivered? && (m.channelFd in v.removed || m.channelFd in v.added) ==> !Connected(m'))
  {
    hide PerformAll;
    var v := Visited(m, k, reaction).1;
    if v.Delivered? {
      RemovedMeansLost(m.epoll, v.id, reaction.ops, m.channelFd);
      OpsNeverReconnect(m.epoll, v.id, reaction.ops, m.channelFd);
    }
  }

  lemma {:induction false} DispatchLoses<T>(m: Manager<T>, reactions: seq<Reaction<T>>, n: nat, k: nat)
    requires n <= |m.epoll.ready| && n <= |reactions| && k <= n
    ensures var (m', visits) := Dispatch(m, reactions, n);
            && |visits| == n && m'.channelFd == m.channelFd
            && (m.channelFd in Gone(visits[..k]) || m.channelFd in Taken(visits[..k]) ==> !Connected(m'))
  {
    hide Visited, Gone, Taken;
    NothingYet();
    if n == 0 {
      assert Dispatch(m, reactions, n).1[..k] == [];
    } else {
      var (before, seen) := Dispatch(m, reactions, n - 1);
      var v := Visited(before, n - 1, reactions[n - 1]).1;
      VisitLoses(before, n - 1, reactions[n - 1]);
      if k < n {
        DispatchLoses(m, reactions, n - 1, k);
        assert (seen + [v])[..k] == seen[..k];
      } else {
        DispatchLoses(m, reactions, n - 1, n - 1);
        assert (seen + [v])[..n] == seen + [v] && seen[..n - 1] == seen;
        if !(m.channelFd in Gone(seen) || m.channelFd in Taken(seen)) && Connected(before) {
          SparedOnce(seen, v, m.channelFd);
        }
      }
    }
  }

  lemma SparedOnce(visits: seq<Visit>, v: Visit, fd: Fd)
    requires fd !in Gone(visits) && fd !in Taken(visits)
    ensures fd in Gone(visits + [v]) || fd in Taken(visits + [v]) ==> v.Delivered? && (fd in v.removed || fd in v.added)
  {
    assert (visits + [v])[..|visits|] == visits;
  }

  /** A reported channel that the round does not get to has been taken away by a callback of that round. */
  lemma UnservedMeansLost<T>(m: Manager<T>, a: Action<T>)
    requires Inv(m) && a.Run? && Possible(m, a) && ReportsInput(m, a.evs)
    ensures EndpointEvent(Visits(m, a)).Some? || !Connected(AfterCallbacks(m, a))
  {
    RoundServesEndpoint(m, a);
    var visits := Visits(m, a);
    var k :| 0 <= k < |a.evs| && FdOf(a.evs[k]) == m.channelFd;
    DispatchLoses(Polled(m, a.evs), a.reactions, |a.evs|, k);
    if EndpointEvent(visits).None? { assert !ReachesEndpoint(m, a.evs, visits, k); }
  }

  lemma UnreportedUnserved<T>(m: Manager<T>, a: Action<T>)
    requires Inv(m) && GoodRound(m, a) && !ReportsInput(m, a.evs)
    ensures EndpointEvent(Visits(m, a)).None?
  {
    RoundServesEndpoint(m, a);
  }

  /**
  A round is a sequence of the protocol's steps.  A report of the channel is a `Poll`, the callbacks are a `Watch`
  of what they leave registered, and then the manager gets to the channel or not: a `Clear`, after which it is ready
  to receive, or a `Skip`, after which it waits in epoll again with the eventfd unread.
  Without a report the manager's part of the protocol stays where it is.
  */
  lemma RoundIsSteps<T, M, R>(m: Manager<T>, a: Action<T>, s: P.State<M, R>)
    requires Inv(m) && GoodRound(m, a)
    requires s.alive && s.manager.Idle? && s.watched == Watching(m) && s.counter > 0
    ensures ReportsInput(m, a.evs) ==>
              && P.Enabled(s, P.Poll)
              && var s1 := P.Apply(s, P.Poll);
              && P.Enabled(s1, P.Watch(Watching(AfterCallbacks(m, a))))
              && var s2 := P.Apply(s1, P.Watch(Watching(AfterCallbacks(m, a))));
              && s2.watched == Watching(AfterCallbacks(m, a))
              && P.Enabled(s2, if EndpointEvent(Visits(m, a)).Some? then P.Clear else P.Skip)
              && var s3 := P.Apply(s2, if EndpointEvent(Visits(m, a)).Some? then P.Clear else P.Skip);
              && s3.queue == s.queue && s3.calls == s.calls
              && (if EndpointEvent(Visits(m, a)).Some? then s3.manager.Draining? && s3.counter == 0
                  else s3.manager.Idle? && s3.counter == s.counter)
    ensures !ReportsInput(m, a.evs) ==> EndpointEvent(Visits(m, a)).None?
  {
    hide Inv, Dispatch, EventFdReports, Possible;
    if ReportsInput(m, a.evs) {
      assert Watching(m) by { RoundWatches(m, a); }
      UnservedMeansLost(m, a);
    } else {
      UnreportedUnserved(m, a);
    }
  }

  lemma RoundWatches<T>(m: Manager<T>, a: Action<T>)
    requires GoodRound(m, a) && ReportsInput(m, a.evs)
    ensures Watching(m)
  {
    ReportNeedsWatch(m, a.evs);
  }

  // ----- Losing the channel for good -----

  /** An endless run of the manager from any state. */
  ghost predicate EndlessRun<T>(states: nat -> Manager<T>, actions: nat -> Action<T>) {
    forall i: nat :: Possible(states(i), actions(i)) && states(i + 1) == Act(states(i), actions(i))
  }

  /** At each point of an execution of the protocol, the manager has got to some point of its run. */
  ghost predicate Tracks<T, M, R>(t: nat -> P.State<M, R>, states: nat -> Manager<T>, at: nat -> nat) {
    && (forall i: nat, j: nat :: i <= j ==> at(i) <= at(j))
    && (forall i: nat :: t(i).watched ==> Watching(states(at(i))))
  }

  lemma {:induction false} StaysLost<T>(states: nat -> Manager<T>, actions: nat -> Action<T>, i: nat, j: nat)
    requires EndlessRun(states, actions) && i <= j && !Connected(states(i))
    ensures !Connected(states(j))
    decreases j - i
  {
    if i < j {
      ActionNeverReconnects(states(i), actions(i));
      assert states(i + 1) == Act(states(i), actions(i));
      StaysLost(states, actions, i + 1, j);
    }
  }

  /**
  Once a subscriber has removed or taken over the channel's descriptor, a `call_blocking` that waits for its reply
  waits for ever.
  */
  lemma LostCallsWait<T, M, R>(t: nat -> P.State<M, R>, sched: nat -> P.Step<M, R>, init: M,
                               states: nat -> Manager<T>, actions: nat -> Action<T>, at: nat -> nat,
                               i: nat, j: nat, c: P.CallId)
    requires L.IsExecution(t, sched, init) && EndlessRun(states, actions) && Tracks(t, states, at)
    requires !Connected(states(at(i))) && t(i).manager.Idle? && i <= j
    requires c in t(i).calls && t(i).calls[c].pc.Waiting? && c !in t(i).replies
    ensures c in t(j).calls && t(j).calls[c].pc.Waiting?
  {
    forall k: nat | i <= k ensures !t(k).watched { StaysLost(states, actions, at(i), at(k)); }
    L.WaitsForEver(t, sched, init, i, j, c);
  }
}
