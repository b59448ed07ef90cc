/**
The event manager as it is written: objects whose methods update the registration tables in place and
walk the scratch buffer of ready events while callbacks change it underneath.  Each method is proved
against the function of the same operation in `EventDispatch`.
*/
module EventManagers {
  import opened Basics
  import opened EventDispatch
  import opened EndpointDispatch

  class EpollWrapper {
    var interest: map<Fd, EpollEvent>
    var dispatch: map<Fd, SubscriberId>
    var watch: map<SubscriberId, seq<Fd>>
    const ready: array<EpollEvent>

    ghost function View(): Epoll
      reads this, ready
    {
      Epoll(interest, dispatch, watch, ready[..])
    }

    constructor (capacity: nat, channelFd: Fd)
      requires IsFd(channelFd)
      ensures fresh(ready) && View() == NewManager<int>(capacity, channelFd).epoll
    {
      interest := map[channelFd := ChannelEvent(channelFd)];
      dispatch, watch := map[], map[];
      ready := new EpollEvent[capacity](_ => DEFAULT_EVENT);
      new;
      assert ready[..] == seq(capacity, _ => DEFAULT_EVENT);
    }

    /** `evs` is what the kernel reports. */
    method Poll(evs: seq<EpollEvent>)
      requires |evs| <= ready.Length
      modifies ready
      ensures View() == old(View()).(ready := evs + old(ready[..])[|evs|..])
    {
      for i := 0 to |evs|
        invariant forall j :: 0 <= j < ready.Length ==> ready[j] == if j < i then evs[j] else old(ready[..])[j]
      {
        ready[i] := evs[i];
      }
      assert ready[..] == evs + old(ready[..])[|evs|..];
    }

    method RemoveEvent(fd: Fd)
      modifies this`dispatch, ready
      ensures View() == EventDispatch.RemoveEvent(old(View()), fd)
    {
      dispatch := dispatch - {fd};
      ghost var before := ready[..];
      for i := 0 to ready.Length
        invariant dispatch == old(dispatch) - {fd}
        invariant forall j :: 0 <= j < i ==>
          ready[j] == if FdOf(before[j]) == fd then DEFAULT_EVENT else before[j]
        invariant forall j :: i <= j < ready.Length ==> ready[j] == before[j]
      {
        if FdOf(ready[i]) == fd {
          ready[i] := DEFAULT_EVENT;
        }
      }
      assert ready[..] == Discard(before, fd);
    }

    method Add(id: SubscriberId, ev: EpollEvent, refused: bool) returns (r: OpResult)
      modifies this
      ensures (View(), r) == PerformOp(old(View()), id, Op.Add(ev, refused))
    {
      var fd := FdOf(ev);
      if fd in dispatch {
        return Fail(FdAlreadyRegistered);
      }
      if fd in interest || refused {
        return Fail(EpollCtl);
      }
      interest := interest[fd := ev];
      dispatch := dispatch[fd := id];
      watch := watch[id := (if id in watch then watch[id] else []) + [fd]];
      r := Done;
    }

    method Modify(id: SubscriberId, ev: EpollEvent, refused: bool) returns (r: OpResult)
      modifies this
      ensures (View(), r) == PerformOp(old(View()), id, Op.Modify(ev, refused))
    {
      if FdOf(ev) !in interest || refused {
        return Fail(EpollCtl);
      }
      interest := interest[FdOf(ev) := ev];
      r := Done;
    }

    method Remove(id: SubscriberId, ev: EpollEvent) returns (r: OpResult)
      modifies this, ready
      ensures (View(), r) == PerformOp(old(View()), id, Op.Remove(ev))
    {
      var fd := FdOf(ev);
      if fd !in interest {
        return Fail(EpollCtl);
      }
      interest := interest - {fd};
      RemoveEvent(fd);
      if id in watch {
        var list := watch[id];
        var index := 0;
        while index < |list| && list[index] != fd
          invariant index <= |list| && forall j :: 0 <= j < index ==> list[j] != fd
        {
          index := index + 1;
        }
        DropFirstAt(list, fd, index);
        if index < |list| {
          list := list[..index] + list[index + 1..];
        }
        watch := watch[id := list];
      }
      r := Done;
    }

    /** EpollWrapper::remove */
    method RemoveAll(id: SubscriberId)
      modifies this, ready
      ensures View() == Forget(old(View()), id)
    {
      var fds := if id in watch then watch[id] else [];
      watch := watch - {id};
      ghost var start := View();
      for i := 0 to |fds|
        invariant View() == Unwatch(start, fds[..i])
      {
        assert fds[..i + 1][..i] == fds[..i];
        interest := interest - {fds[i]};
        RemoveEvent(fds[i]);
      }
      assert fds[..|fds|] == fds;
    }

    method Perform(id: SubscriberId, ops: seq<Op>) returns (removed: set<Fd>)
      modifies this, ready
      ensures (View(), removed) == PerformAll(old(View()), id, ops)
    {
      removed := {};
      for i := 0 to |ops|
        invariant (View(), removed) == PerformAll(old(View()), id, ops[..i])
      {
        assert ops[..i + 1][..i] == ops[..i];
        ghost var mid, gone := View(), removed;
        if ops[i].Remove? && FdOf(ops[i].ev) in interest {
          removed := removed + {FdOf(ops[i].ev)};
        }
        match ops[i] {
          case Add(ev, refused) => var _ := Add(id, ev, refused);
          case Modify(ev, refused) => var _ := Modify(id, ev, refused);
          case Remove(ev) => var _ := Remove(id, ev);
          case Close(fd) => interest := interest - {fd};
        }
        assert removed == gone + RemovedBy(mid, ops[i]) && View() == PerformOp(mid, id, ops[i]).0;
      }
      assert ops[..|ops|] == ops;
    }
  }

  lemma {:induction false} DropFirstAt(list: seq<Fd>, fd: Fd, index: nat)
    requires index <= |list| && (forall j :: 0 <= j < index ==> list[j] != fd)
    requires index < |list| ==> list[index] == fd
    ensures DropFirst(list, fd) == if index < |list| then list[..index] + list[index + 1..] else list
  {
    if index > 0 {
      DropFirstAt(list[1..], fd, index - 1);
      if index < |list| {
        assert list[1..][..index - 1] == list[1..index] && list[1..][index..] == list[index + 1..];
        assert list[..index] == [list[0]] + list[1..index];
      }
    }
  }

  /** The largest 32-bit signed number, in events of 12 bytes (their size on x86-64). */
  const MAX_READY_EVENTS_CAPACITY: nat := 0x7fff_ffff / 12

  datatype ManagerError = InvalidCapacity | EpollError | EventFdError

  class EventManager<T> {
    var subscribers: map<SubscriberId, T>
    var nextId: nat
    const epoll: EpollWrapper
    const channelFd: Fd

    ghost function View(): Manager<T>
      reads this, epoll, epoll.ready
    {
      Manager(subscribers, nextId, epoll.View(), channelFd)
    }

    constructor (capacity: nat, fd: Fd)
      requires IsFd(fd)
      ensures fresh(epoll) && fresh(epoll.ready) && View() == NewManager(capacity, fd)
    {
      subscribers, nextId, channelFd := map[], 1, fd;
      epoll := new EpollWrapper(capacity, fd);
    }

    /**
    `new_with_capacity`.  Whether the kernel creates the epoll instance, the descriptor of the eventfd it creates,
    if it does, and whether it registers that are inputs.
    */
    static method NewWithCapacity(capacity: nat, created: bool, channel: Option<Fd>, registered: bool)
      returns (r: Result<EventManager<T>, ManagerError>)
      requires channel.Some? ==> IsFd(channel.value)
      ensures r.Ok? <==> 12 * capacity <= 0x7fff_ffff && created && channel.Some? && registered
      ensures r == Err(InvalidCapacity) <==> 12 * capacity > 0x7fff_ffff
      ensures r == Err(EventFdError) <==> 12 * capacity <= 0x7fff_ffff && created && channel.None?
      ensures r.Ok? ==> fresh(r.value) && fresh(r.value.epoll) && fresh(r.value.epoll.ready)
                        && r.value.View() == NewManager(capacity, channel.value)
    {
      if capacity > MAX_READY_EVENTS_CAPACITY {
        return Err(InvalidCapacity);
      }
      if !created {
        return Err(EpollError);
      }
      if channel.None? {
        return Err(EventFdError);
      }
      if !registered {
        return Err(EpollError);
      }
      var manager := new EventManager(capacity, channel.value);
      r := Ok(manager);
    }

    method AddSubscriber(subscriber: T, init: Reaction<T>) returns (id: SubscriberId)
      modifies this, epoll, epoll.ready
      ensures (View(), id) == EventDispatch.AddSubscriber(old(View()), init)
    {
      id := nextId;
      nextId := nextId + 1;
      subscribers := subscribers[id := subscriber];
      var _ := epoll.Perform(id, init.ops);
      subscribers := subscribers[id := init.self];
      assert subscribers == old(subscribers)[id := init.self];
    }

    method SubscriberMut(id: SubscriberId, subscriber: T) returns (r: OpResult)
      modifies this
      ensures (View(), r) == ThroughSubscriberMut(old(View()), id, subscriber)
    {
      if id !in subscribers {
        return Fail(InvalidId);
      }
      subscribers := subscribers[id := subscriber];
      r := Done;
    }

    method RemoveSubscriber(id: SubscriberId) returns (r: Option<T>)
      modifies this, epoll, epoll.ready
      ensures (View(), r) == EventDispatch.RemoveSubscriber(old(View()), id)
    {
      if id !in subscribers {
        return None;
      }
      r := Some(subscribers[id]);
      subscribers := subscribers - {id};
      epoll.RemoveAll(id);
    }

    /**
    `reactions[i]` is what the subscriber called for the event at position `i` does.  Looking the subscriber
    up and the branch marked unreachable in the source both rest on the invariant.
    */
    method DispatchEvents(count: nat, reactions: seq<Reaction<T>>)
      returns (endpoint: Option<EpollEvent>, visits: seq<Visit>)
      requires count <= epoll.ready.Length && count <= |reactions|
      requires Inv(View()) && Pending(View(), 0, count)
      modifies this, epoll, epoll.ready
      ensures (View(), visits) == Dispatch(old(View()), reactions, count)
      ensures endpoint == EndpointEvent(visits)
      ensures Inv(View()) && !Panics(visits)
    {
      endpoint, visits := None, [];
      for k := 0 to count
        invariant (View(), visits) == Dispatch(old(View()), reactions, k)
        invariant endpoint == EndpointEvent(visits)
        invariant Inv(View()) && Pending(View(), 0, count) && !Panics(visits)
      {
        DispatchSafe(old(View()), reactions, k + 1, count);
        ghost var mid := View();
        var event := epoll.ready[k];
        var fd := FdOf(event);
        var v := Skipped;
        if event.events == DEFAULT_EVENT.events && fd == FdOf(DEFAULT_EVENT) {
        } else if fd in epoll.dispatch {
          var id := epoll.dispatch[fd];
          var _ := subscribers[id];
          var known := epoll.dispatch.Keys;
          var removed := epoll.Perform(id, reactions[k].ops);
          subscribers := subscribers[id := reactions[k].self];
          v := Delivered(id, event, removed, epoll.dispatch.Keys - known);
        } else if fd == channelFd {
          endpoint := Some(event);
          v := Deferred(event);
        } else {
          assert false;
        }
        assert (visits + [v])[..k] == visits;
        visits := visits + [v];
      }
    }

    method Serve(request: Request<T>)
      modifies this, epoll, epoll.ready
      ensures View() == PerformRequest(old(View()), request)
    {
      match request {
        case Register(init) => var _ := AddSubscriber(init.self, init);
        case Unregister(id) => var _ := RemoveSubscriber(id);
        case Access(id, subscriber) => var _ := SubscriberMut(id, subscriber);
        case Operate(id, op) =>
          if id in subscribers {
            assert [op][..0] == [];
            var _ := epoll.Perform(id, [op]);
          }
      }
    }

    method HandleEndpointCalls(calls: seq<Request<T>>)
      modifies this, epoll, epoll.ready
      ensures View() == PerformRequests(old(View()), calls)
    {
      for i := 0 to |calls|
        invariant View() == PerformRequests(old(View()), calls[..i])
      {
        assert calls[..i + 1][..i] == calls[..i];
        Serve(calls[i]);
      }
      assert calls[..|calls|] == calls;
    }

    /**
    One `run`: `evs` is what epoll reports, `calls` what the closures queued at the remote endpoint ask for.
    They are served after every subscriber event, unless the check on the endpoint's event mask fails.
    */
    method RunOnce(evs: seq<EpollEvent>, reactions: seq<Reaction<T>>, calls: seq<Request<T>>)
      returns (visits: seq<Visit>, panicked: bool)
      requires Inv(View()) && Possible(View(), Run(evs, reactions, calls))
      modifies this, epoll, epoll.ready
      ensures visits == Visits(old(View()), Run(evs, reactions, calls))
      ensures Inv(View()) && !Panics(visits)
      ensures panicked <==> EndpointPanics(visits)
      ensures panicked && EventFdReports(old(View()).epoll, evs, channelFd) ==> Exposed(old(View()))
      ensures View() == if panicked then Dispatch(Polled(old(View()), evs), reactions, |evs|).0
                        else Act(old(View()), Run(evs, reactions, calls))
    {
      ghost var a := Run(evs, reactions, calls);
      ActionSafe(View(), a);
      if PanickingRound(View(), a) { PanicNeedsOutput(View(), a); }
      panicked := false;
      epoll.Poll(evs);
      assert View() == Polled(old(View()), evs);
      var endpoint;
      endpoint, visits := DispatchEvents(|evs|, reactions);
      if endpoint.Some? {
        if endpoint.value.events != IN {
          return visits, true;
        }
        HandleEndpointCalls(calls);
      }
    }
  }
}
