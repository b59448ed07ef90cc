/**
The descriptor of the remote endpoint's channel, which the manager registers for itself but which subscribers can
operate on like any other: when a round serves the endpoint, when it panics, and when the channel is lost.
*/
module EndpointDispatch {
  import opened Basics
  import opened EventDispatch

  predicate Names(op: Op, fd: Fd) {
    Target(op) == fd
  }

  ghost predicate Leaves(ops: seq<Op>, fd: Fd) {
    forall i :: 0 <= i < |ops| ==> !Names(ops[i], fd)
  }

  ghost predicate RequestLeaves<T>(q: Request<T>, fd: Fd) {
    match q
    case Register(init) => Leaves(init.ops, fd)
    case Unregister(_) => true
    case Access(_, _) => true
    case Operate(_, op) => !Names(op, fd)
  }

  ghost predicate ActionLeaves<T>(a: Action<T>, fd: Fd) {
    match a
    case Direct(q) => RequestLeaves(q, fd)
    case Run(_, reactions, calls) =>
      && (forall i :: 0 <= i < |reactions| ==> Leaves(reactions[i].ops, fd))
      && (forall i :: 0 <= i < |calls| ==> RequestLeaves(calls[i], fd))
  }

  /** The channel is registered for input and no subscriber has anything to do with it. */
  ghost predicate Intact(p: Epoll, fd: Fd) {
    && IsFd(fd)
    && fd in p.interest && p.interest[fd] == ChannelEvent(fd)
    && fd !in p.dispatch
    && (forall id :: id in p.watch ==> fd !in p.watch[id])
  }

  lemma {:induction false} OpsKeepIntact(p: Epoll, id: SubscriberId, ops: seq<Op>, fd: Fd)
    requires Intact(p, fd) && Leaves(ops, fd)
    ensures Intact(PerformAll(p, id, ops).0, fd)
    decreases |ops|
  {
    if ops != [] {
      var last := |ops| - 1;
      OpsKeepIntact(p, id, ops[..last], fd);
      assert !Names(ops[last], fd);
    }
  }

  lemma RequestKeepsIntact<T>(m: Manager<T>, q: Request<T>)
    requires Intact(m.epoll, m.channelFd) && RequestLeaves(q, m.channelFd)
    ensures Intact(PerformRequest(m, q).epoll, m.channelFd)
  {
    match q {
      case Register(init) => OpsKeepIntact(m.epoll, m.nextId, init.ops, m.channelFd);
      case Unregister(id) => UnwatchContents(m.epoll.(watch := m.epoll.watch - {id}), Watched(m.epoll, id));
      case Access(_, _) =>
      case Operate(id, op) =>
    }
  }

  lemma {:induction false} RequestsKeepIntact<T>(m: Manager<T>, qs: seq<Request<T>>)
    requires Intact(m.epoll, m.channelFd) && forall i :: 0 <= i < |qs| ==> RequestLeaves(qs[i], m.channelFd)
    ensures Intact(PerformRequests(m, qs).epoll, m.channelFd) && PerformRequests(m, qs).channelFd == m.channelFd
    decreases |qs|
  {
    if qs != [] {
      RequestsKeepIntact(m, qs[..|qs| - 1]);
      RequestKeepsIntact(PerformRequests(m, qs[..|qs| - 1]), qs[|qs| - 1]);
    }
  }

  lemma {:induction false} DispatchKeepsIntact<T>(m: Manager<T>, reactions: seq<Reaction<T>>, n: nat)
    requires Intact(m.epoll, m.channelFd) && n <= |m.epoll.ready| && n <= |reactions|
    requires forall i :: 0 <= i < n ==> Leaves(reactions[i].ops, m.channelFd)
    ensures var r := Dispatch(m, reactions, n); Intact(r.0.epoll, m.channelFd) && r.0.channelFd == m.channelFd
  {
    if n > 0 {
      DispatchKeepsIntact(m, reactions, n - 1);
      var before := Dispatch(m, reactions, n - 1).0;
      var v := Visited(before, n - 1, reactions[n - 1]).1;
      if v.Delivered? { OpsKeepIntact(before.epoll, v.id, reactions[n - 1].ops, m.channelFd); }
    }
  }

  lemma ActionKeepsIntact<T>(m: Manager<T>, a: Action<T>)
    requires Possible(m, a) && Intact(m.epoll, m.channelFd) && ActionLeaves(a, m.channelFd)
    ensures Intact(Act(m, a).epoll, m.channelFd) && Act(m, a).channelFd == m.channelFd
  {
    match a {
      case Direct(q) => RequestKeepsIntact(m, q);
      case Run(evs, reactions, calls) =>
        DispatchKeepsIntact(Polled(m, evs), reactions, |evs|);
        RequestsKeepIntact(Dispatch(Polled(m, evs), reactions, |evs|).0, calls);
    }
  }

  /**
  What epoll reports of the channel as long as it is the manager's: an eventfd is readable or writable, and of
  that epoll reports what it was asked for.  (Overflow is not possible with writes that do not block.)
  */
  ghost predicate EventFdReports(p: Epoll, evs: seq<EpollEvent>, fd: Fd) {
    fd in p.interest && fd !in p.dispatch ==>
      forall k :: 0 <= k < |evs| && FdOf(evs[k]) == fd ==>
        && (evs[k].events == IN || evs[k].events == OUT || evs[k].events == IN + OUT)
        && (Has(evs[k].events, IN) ==> Has(p.interest[fd].events, IN))
        && (Has(evs[k].events, OUT) ==> Has(p.interest[fd].events, OUT))
  }

  lemma {:induction false} EndpointEventFound(visits: seq<Visit>)
    ensures EndpointEvent(visits).Some? <==> exists k :: 0 <= k < |visits| && visits[k].Deferred?
    ensures EndpointEvent(visits).Some? ==>
              exists k :: 0 <= k < |visits| && visits[k] == Deferred(EndpointEvent(visits).value)
  {
    if visits != [] { EndpointEventFound(visits[..|visits| - 1]); }
  }

  /** Position `k` of the reported list is the channel's, and still is when the loop gets there. */
  ghost predicate ReachesEndpoint<T>(m: Manager<T>, evs: seq<EpollEvent>, visits: seq<Visit>, k: int) {
    && 0 <= k < |evs| == |visits| && FdOf(evs[k]) == m.channelFd && m.channelFd !in m.epoll.dispatch
    && m.channelFd !in Gone(visits[..k]) && m.channelFd !in Taken(visits[..k])
  }

  /**
  A round serves the endpoint exactly when the channel was reported and no callback took it over or removed it
  before; the event it is served with is the reported one.
  */
  lemma RoundServesEndpoint<T>(m: Manager<T>, a: Action<T>)
    requires Inv(m) && a.Run? && Possible(m, a)
    ensures var visits := Visits(m, a);
            var e := EndpointEvent(visits);
            && (e.Some? <==> exists k :: ReachesEndpoint(m, a.evs, visits, k))
            && (e.Some? ==> exists k :: ReachesEndpoint(m, a.evs, visits, k) && e.value == a.evs[k])
  {
    var m1 := Polled(m, a.evs);
    var n := |a.evs|;
    assert Inv(m1) && FreshlyPolled(m1, n);
    DispatchDelivers(m1, a.reactions, n);
    var visits := Dispatch(m1, a.reactions, n).1;
    EndpointEventFound(visits);
    forall k | 0 <= k < n
      ensures visits[k].Deferred? <==> ReachesEndpoint(m, a.evs, visits, k)
      ensures visits[k].Deferred? ==> visits[k].ev == a.evs[k]
    {
      assert RightVisit(m1, visits, k);
    }
  }

  /** The `unreachable!` of `dispatch_endpoint_event`. */
  predicate EndpointPanics(visits: seq<Visit>) {
    EndpointEvent(visits).Some? && EndpointEvent(visits).value.events != IN
  }

  ghost predicate PanickingRound<T>(m: Manager<T>, a: Action<T>) {
    && a.Run? && Possible(m, a) && EventFdReports(m.epoll, a.evs, m.channelFd)
    && EndpointPanics(Visits(m, a))
  }

  /** The channel is registered on the manager's behalf. */
  predicate Connected<T>(m: Manager<T>) {
    OnBehalf(m.epoll, m.channelFd)
  }

  predicate OnBehalf(p: Epoll, fd: Fd) {
    fd in p.interest && fd !in p.dispatch
  }

  /** The channel is registered for output too. */
  predicate Exposed<T>(m: Manager<T>) {
    && m.epoll.ready != [] && Connected(m)
    && Has(m.epoll.interest[m.channelFd].events, OUT)
  }

  /**
  The next round can make the endpoint panic exactly when the mask registered for the channel includes output;
  what the callbacks of that round do makes no difference.
  */
  lemma EndpointPanicsIff<T(!new)>(m: Manager<T>, idle: T)
    requires Inv(m)
    ensures (exists a :: PanickingRound(m, a)) <==> Exposed(m)
    ensures (exists a :: PanickingRound(m, a) && ActionLeaves(a, m.channelFd)) <==> Exposed(m)
  {
    forall a | PanickingRound(m, a) ensures Exposed(m) { PanicNeedsOutput(m, a); }
    if Exposed(m) { var _ := OutputPanics(m, idle); }
  }

  lemma PanicNeedsOutput<T>(m: Manager<T>, a: Action<T>)
    requires Inv(m) && PanickingRound(m, a)
    ensures Exposed(m)
  {
    RoundServesEndpoint(m, a);
    var k :| ReachesEndpoint(m, a.evs, Visits(m, a), k) && EndpointEvent(Visits(m, a)).value == a.evs[k];
  }

  lemma OutputPanics<T>(m: Manager<T>, idle: T) returns (a: Action<T>)
    requires Inv(m) && Exposed(m)
    ensures PanickingRound(m, a) && ActionLeaves(a, m.channelFd)
  {
    var ev := EpollEvent(OUT, m.epoll.interest[m.channelFd].data);
    a := Run([ev], [Reaction([], idle)], []);
    assert FdOf(ev) == FdOf(m.epoll.interest[m.channelFd]);
    assert Dispatch(Polled(m, a.evs), a.reactions, 0).1 == [];
    assert Visits(m, a) == [Deferred(ev)];
  }

  /** So in a whole run, however the subscribers behave, a round panics only in a state so exposed. */
  lemma RunPanicsOnlyExposed<T>(states: seq<Manager<T>>, actions: seq<Action<T>>,
                                capacity: nat, channelFd: Fd, i: nat)
    requires IsRun(states, actions, capacity, channelFd) && i < |actions| && PanickingRound(states[i], actions[i])
    ensures Exposed(states[i])
  {
    RunSafe(states, actions, capacity, channelFd, i);
    PanicNeedsOutput(states[i], actions[i]);
  }

  /**
  As long as nobody operates on the channel's descriptor, a round serves the endpoint exactly when epoll
  reported it, and the endpoint never panics.
  */
  lemma {:induction false} EndpointServed<T>(states: seq<Manager<T>>, actions: seq<Action<T>>,
                                             capacity: nat, channelFd: Fd, i: nat)
    requires IsRun(states, actions, capacity, channelFd) && i <= |actions|
    requires forall j :: 0 <= j < |actions| ==> ActionLeaves(actions[j], channelFd)
    ensures Intact(states[i].epoll, channelFd) && states[i].channelFd == channelFd
    ensures i < |actions| && actions[i].Run? ==>
              && (EndpointEvent(Visits(states[i], actions[i])).Some? <==>
                  exists k :: 0 <= k < |actions[i].evs| && FdOf(actions[i].evs[k]) == channelFd)
              && !PanickingRound(states[i], actions[i])
  {
    if i > 0 {
      EndpointServed(states, actions, capacity, channelFd, i - 1);
      ActionKeepsIntact(states[i - 1], actions[i - 1]);
    }
    if i < |actions| && actions[i].Run? {
      RunSafe(states, actions, capacity, channelFd, i);
      RoundServesEndpoint(states[i], actions[i]);
      UntouchedReaches(states[i], actions[i]);
      if PanickingRound(states[i], actions[i]) { PanicNeedsOutput(states[i], actions[i]); }
    }
  }

  lemma UntouchedReaches<T>(m: Manager<T>, a: Action<T>)
    requires a.Run? && Possible(m, a) && Intact(m.epoll, m.channelFd) && ActionLeaves(a, m.channelFd)
    ensures forall k :: 0 <= k < |a.evs| && FdOf(a.evs[k]) == m.channelFd ==>
                          ReachesEndpoint(m, a.evs, Visits(m, a), k)
  {
    var m1 := Polled(m, a.evs);
    forall k | 0 <= k < |a.evs| && FdOf(a.evs[k]) == m.channelFd
      ensures ReachesEndpoint(m, a.evs, Visits(m, a), k)
    {
      NotGoneNotTaken(m1, a.reactions, |a.evs|, k);
    }
  }

  lemma {:induction false} NotGoneNotTaken<T>(m: Manager<T>, reactions: seq<Reaction<T>>, n: nat, k: nat)
    requires n <= |m.epoll.ready| && n <= |reactions| && k <= n && Intact(m.epoll, m.channelFd)
    requires forall i :: 0 <= i < n ==> Leaves(reactions[i].ops, m.channelFd)
    ensures var visits := Dispatch(m, reactions, n).1;
            m.channelFd !in Gone(visits[..k]) && m.channelFd !in Taken(visits[..k])
  {
    hide Visited, Gone, Taken, Intact, Leaves;
    if n == 0 {
      assert Dispatch(m, reactions, n).1[..k] == [];
      NothingYet();
    } else {
      var before := Dispatch(m, reactions, n - 1);
      var v := Visited(before.0, n - 1, reactions[n - 1]).1;
      if k < n {
        NotGoneNotTaken(m, reactions, n - 1, k);
        assert (before.1 + [v])[..k] == before.1[..k];
      } else {
        NotGoneNotTaken(m, reactions, n - 1, n - 1);
        DispatchKeepsIntact(m, reactions, n - 1);
        VisitSpares(before.0, n - 1, reactions[n - 1]);
        assert (before.1 + [v])[..n] == before.1 + [v] && before.1[..n - 1] == before.1;
        OneMoreVisit(before.1, v, m.channelFd);
      }
    }
  }

  lemma NothingYet()
    ensures Gone([]) == {} && Taken([]) == map[]
  {
  }

  lemma OneMoreVisit(visits: seq<Visit>, v: Visit, fd: Fd)
    requires fd !in Gone(visits) && fd !in Taken(visits) && (v.Delivered? ==> fd !in v.removed && fd !in v.added)
    ensures fd !in Gone(visits + [v]) && fd !in Taken(visits + [v])
  {
    assert (visits + [v])[..|visits|] == visits;
  }

  lemma VisitSpares<T>(m: Manager<T>, k: nat, reaction: Reaction<T>)
    requires k < |m.epoll.ready| && Intact(m.epoll, m.channelFd) && Leaves(reaction.ops, m.channelFd)
    ensures var v := Visited(m, k, reaction).1; v.Delivered? ==> m.channelFd !in v.removed && m.channelFd !in v.added
  {
    var v := Visited(m, k, reaction).1;
    if v.Delivered? {
      NothingNamedNothingRemoved(m.epoll, v.id, reaction.ops, m.channelFd);
      OpsKeepIntact(m.epoll, v.id, reaction.ops, m.channelFd);
    }
  }

  lemma {:induction false} NothingNamedNothingRemoved(p: Epoll, id: SubscriberId, ops: seq<Op>, fd: Fd)
    requires Leaves(ops, fd)
    ensures fd !in PerformAll(p, id, ops).1
    decreases |ops|
  {
    if ops != [] {
      NothingNamedNothingRemoved(p, id, ops[..|ops| - 1], fd);
      assert !Names(ops[|ops| - 1], fd);
    }
  }

  /** A subscriber can expose the channel, by widening its mask from a callback. */
  lemma ModifiedChannelMask()
    ensures var widen := Reaction([Modify(EpollEvent(5, 3), false)], 0);
            var m: Manager<int> := Act(NewManager(4, 3), Direct(Register(widen)));
            var a := Run([EpollEvent(5, 3)], [Reaction([], 0)], []);
            Exposed(m) && PanickingRound(m, a)
  {
    var m0: Manager<int> := NewManager(4, 3);
    var op := Modify(EpollEvent(5, 3), false);
    var ops := [op];
    assert ops[..0] == [];
    assert PerformAll(m0.epoll, 1, ops).0 == PerformOp(m0.epoll, 1, op).0;
    var m := Act(m0, Direct(Register(Reaction(ops, 0))));
    var a := Run([EpollEvent(5, 3)], [Reaction([], 0)], []);
    assert FdOf(EpollEvent(5, 3)) == 3;
    assert Dispatch(Polled(m, a.evs), a.reactions, 0).1 == [];
    assert Visits(m, a) == [Deferred(EpollEvent(5, 3))];
  }

  // ----- Losing the channel -----

  lemma {:induction false} OpsNeverReconnect(p: Epoll, id: SubscriberId, ops: seq<Op>, fd: Fd)
    ensures OnBehalf(PerformAll(p, id, ops).0, fd) ==> OnBehalf(p, fd)
    decreases |ops|
  {
    if ops != [] { OpsNeverReconnect(p, id, ops[..|ops| - 1], fd); }
  }

  lemma RequestNeverReconnects<T>(m: Manager<T>, q: Request<T>)
    ensures Connected(PerformRequest(m, q)) ==> Connected(m)
    ensures PerformRequest(m, q).channelFd == m.channelFd
  {
    hide PerformAll;
    match q {
      case Register(init) => OpsNeverReconnect(m.epoll, m.nextId, init.ops, m.channelFd);
      case Unregister(id) => UnwatchContents(m.epoll.(watch := m.epoll.watch - {id}), Watched(m.epoll, id));
      case Access(_, _) =>
      case Operate(id, op) =>
    }
  }

  lemma {:induction false} RequestsNeverReconnect<T>(m: Manager<T>, qs: seq<Request<T>>)
    ensures Connected(PerformRequests(m, qs)) ==> Connected(m)
    ensures PerformRequests(m, qs).channelFd == m.channelFd
    decreases |qs|
  {
    if qs != [] {
      RequestsNeverReconnect(m, qs[..|qs| - 1]);
      RequestNeverReconnects(PerformRequests(m, qs[..|qs| - 1]), qs[|qs| - 1]);
    }
  }

  lemma {:induction false} DispatchNeverReconnects<T>(m: Manager<T>, reactions: seq<Reaction<T>>, n: nat)
    requires n <= |m.epoll.ready| && n <= |reactions|
    ensures Connected(Dispatch(m, reactions, n).0) ==> Connected(m)
    ensures Dispatch(m, reactions, n).0.channelFd == m.channelFd
  {
    if n > 0 {
      DispatchNeverReconnects(m, reactions, n - 1);
      var before := Dispatch(m, reactions, n - 1).0;
      var v := Visited(before, n - 1, reactions[n - 1]).1;
      if v.Delivered? { OpsNeverReconnect(before.epoll, v.id, reactions[n - 1].ops, m.channelFd); }
    }
  }

  lemma ActionNeverReconnects<T>(m: Manager<T>, a: Action<T>)
    requires Possible(m, a)
    ensures Connected(Act(m, a)) ==> Connected(m)
    ensures Act(m, a).channelFd == m.channelFd
  {
    match a {
      case Direct(q) => RequestNeverReconnects(m, q);
      case Run(evs, reactions, calls) =>
        DispatchNeverReconnects(Polled(m, evs), reactions, |evs|);
        RequestsNeverReconnect(Dispatch(Polled(m, evs), reactions, |evs|).0, calls);
    }
  }

  /**
  Once a subscriber has removed or taken over the channel's descriptor, nothing that can happen brings the
  endpoint back: no later round serves it.
  */
  lemma {:induction false} LostForEver<T>(states: seq<Manager<T>>, actions: seq<Action<T>>,
                                          capacity: nat, channelFd: Fd, i: nat, j: nat)
    requires IsRun(states, actions, capacity, channelFd) && i <= j <= |actions| && !Connected(states[i])
    ensures !Connected(states[j])
    ensures j < |actions| ==> EndpointEvent(Visits(states[j], actions[j])).None?
  {
    if i < j {
      LostForEver(states, actions, capacity, channelFd, i, j - 1);
      ActionNeverReconnects(states[j - 1], actions[j - 1]);
    }
    if j < |actions| && actions[j].Run? {
      RunSafe(states, actions, capacity, channelFd, j);
      RoundServesEndpoint(states[j], actions[j]);
    }
  }

  /** A subscriber can do so from its first callback. */
  lemma RemovedChannel()
    ensures var take := Reaction([Remove(EpollEvent(IN, 3))], 0);
            !Connected(Act<int>(NewManager(4, 3), Direct(Register(take))))
  {
    var m0: Manager<int> := NewManager(4, 3);
    var op := Remove(EpollEvent(IN, 3));
    var ops := [op];
    assert ops[..0] == [];
    assert PerformAll(m0.epoll, 1, ops).0 == PerformOp(m0.epoll, 1, op).0;
    assert FdOf(EpollEvent(IN, 3)) == 3;
  }
}
