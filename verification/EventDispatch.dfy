/**
The state of an `EventManager` as a value, and what each of its operations does to it.

What subscribers do when called, what the kernel reports and which closures the remote endpoint hands
over are inputs: a statement that holds for all of them holds for every subscriber and every kernel
that keeps the epoll contract (only registered descriptors are reported, with a non-zero mask and with
the data they were registered with; deleting fails only for a descriptor that is not registered).
*/
module EventDispatch {
  import opened Basics

  type Fd = int
  type SubscriberId = nat

  /** EventSet::IN and EventSet::OUT */
  const IN: nat := 1
  const OUT: nat := 4

  predicate Has(mask: nat, bit: nat)
    requires bit > 0
  {
    mask / bit % 2 == 1
  }

  // ----- Events: a descriptor and 32 bits of user data packed into the epoll data word -----

  datatype EpollEvent = EpollEvent(events: nat, data: nat)

  const DEFAULT_EVENT := EpollEvent(0, 0)

  function AsI32(x: nat): int
    requires x < TWO32
  {
    if x < TWO32 / 2 then x else x - TWO32
  }

  function AsU64(fd: Fd): int {
    if fd < 0 then fd + TWO64 else fd
  }

  predicate IsFd(fd: Fd) {
    -(TWO32 / 2) <= fd < TWO32 / 2
  }

  /** The addition wraps when the descriptor is negative and carries user data. */
  function WithDataRaw(source: Fd, data: nat, mask: nat): EpollEvent
    requires IsFd(source)
  {
    EpollEvent(mask, (data * TWO32 + AsU64(source)) % TWO64)
  }

  function FdOf(ev: EpollEvent): Fd {
    AsI32(ev.data % TWO32)
  }

  function DataOf(ev: EpollEvent): nat {
    ev.data / TWO32 % TWO32
  }

  /** The descriptor always survives the packing; the user data does exactly for non-negative ones. */
  lemma PackingRoundTrip(source: Fd, data: nat, mask: nat)
    requires IsFd(source) && data < TWO32
    ensures FdOf(WithDataRaw(source, data, mask)) == source
    ensures DataOf(WithDataRaw(source, data, mask)) == data <==> source >= 0
    ensures WithDataRaw(source, data, mask).events == mask
  {
    var low := if source < 0 then source + TWO32 else source;
    var high := if source >= 0 then data else if data == 0 then TWO32 - 1 else data - 1;
    if source < 0 && data > 0 {
      assert data * TWO32 + AsU64(source) == TWO64 + (high * TWO32 + low);
    }
    assert WithDataRaw(source, data, mask).data == high * TWO32 + low;
  }

  /** Packed with descriptor -1, user data 7 comes back as 6. */
  lemma NegativeDescriptor()
    ensures DataOf(WithDataRaw(-1, 7, IN)) == 6
  {
    PackingRoundTrip(-1, 7, IN);
  }

  // ----- The epoll context -----

  /**
  `interest` is the kernel's registration set; `dispatch`, `watch` and `ready` are the wrapper's
  fd_dispatch, subscriber_watch_list and ready_events.
  */
  datatype Epoll = Epoll(
    interest: map<Fd, EpollEvent>,
    dispatch: map<Fd, SubscriberId>,
    watch: map<SubscriberId, seq<Fd>>,
    ready: seq<EpollEvent>)

  datatype Error = FdAlreadyRegistered | EpollCtl | InvalidId

  datatype OpResult = Done | Fail(error: Error)

  /**
  What a subscriber may do through `EventOps`.  `refused` is the kernel rejecting the call for a reason
  of its own.  Closing a descriptor removes it from the registration set behind the manager's back.
  */
  datatype Op =
    | Add(ev: EpollEvent, refused: bool)
    | Modify(ev: EpollEvent, refused: bool)
    | Remove(ev: EpollEvent)
    | Close(fd: Fd)

  function Watched(p: Epoll, id: SubscriberId): seq<Fd> {
    if id in p.watch then p.watch[id] else []
  }

  /** Soft removal of pending events: entries for `fd` become the default event. */
  function Discard(ready: seq<EpollEvent>, fd: Fd): (r: seq<EpollEvent>)
    ensures |r| == |ready|
    ensures forall i :: 0 <= i < |ready| ==> r[i] == if FdOf(ready[i]) == fd then DEFAULT_EVENT else ready[i]
  {
    if ready == [] then []
    else Discard(ready[..|ready| - 1], fd) +
         [if FdOf(ready[|ready| - 1]) == fd then DEFAULT_EVENT else ready[|ready| - 1]]
  }

  function RemoveEvent(p: Epoll, fd: Fd): Epoll {
    p.(dispatch := p.dispatch - {fd}, ready := Discard(p.ready, fd))
  }

  function DropFirst(fds: seq<Fd>, fd: Fd): (r: seq<Fd>)
    ensures forall x :: x in r ==> x in fds
    ensures forall x :: x in fds && x != fd ==> x in r
  {
    if fds == [] then []
    else if fds[0] == fd then assert fds == [fds[0]] + fds[1..]; fds[1..]
    else assert fds == [fds[0]] + fds[1..]; [fds[0]] + DropFirst(fds[1..], fd)
  }

  function PerformOp(p: Epoll, id: SubscriberId, op: Op): (r: (Epoll, OpResult))
    ensures |r.0.ready| == |p.ready|
  {
    match op
    case Add(ev, refused) =>
      var fd := FdOf(ev);
      if fd in p.dispatch then (p, Fail(FdAlreadyRegistered))
      else if fd in p.interest || refused then (p, Fail(EpollCtl))
      else (Epoll(p.interest[fd := ev], p.dispatch[fd := id], p.watch[id := Watched(p, id) + [fd]], p.ready), Done)
    case Modify(ev, refused) =>
      if FdOf(ev) !in p.interest || refused then (p, Fail(EpollCtl))
      else (p.(interest := p.interest[FdOf(ev) := ev]), Done)
    case Remove(ev) =>
      var fd := FdOf(ev);
      if fd !in p.interest then (p, Fail(EpollCtl))
      else
        var q := RemoveEvent(p.(interest := p.interest - {fd}), fd);
        (q.(watch := if id in q.watch then q.watch[id := DropFirst(q.watch[id], fd)] else q.watch), Done)
    case Close(fd) => (p.(interest := p.interest - {fd}), Done)
  }

  /** The descriptor an operation is about. */
  function Target(op: Op): Fd {
    if op.Close? then op.fd else FdOf(op.ev)
  }

  /** Nothing is different for descriptors other than `fd`. */
  ghost predicate SameElsewhere(p: Epoll, q: Epoll, fd: Fd) {
    forall other :: other != fd ==>
      && (other in q.interest <==> other in p.interest)
      && (other in p.interest ==> q.interest[other] == p.interest[other])
      && (other in q.dispatch <==> other in p.dispatch)
      && (other in p.dispatch ==> q.dispatch[other] == p.dispatch[other])
  }

  /**
  Adding registers the events as given, for the caller, and puts the descriptor at the end of the caller's list.  It is
  refused for a descriptor someone else has, or that the kernel does not take, and then changes nothing.
  */
  lemma AddEffect(p: Epoll, id: SubscriberId, ev: EpollEvent, refused: bool)
    ensures var ((q, r), fd) := (PerformOp(p, id, Add(ev, refused)), FdOf(ev));
            && (r == Fail(FdAlreadyRegistered) <==> fd in p.dispatch)
            && (r == Fail(EpollCtl) <==> fd !in p.dispatch && (fd in p.interest || refused))
            && (r.Fail? ==> q == p && r != Fail(InvalidId))
            && (r.Done? ==>
                  && fd in q.interest && q.interest[fd] == ev && fd in q.dispatch && q.dispatch[fd] == id
                  && SameElsewhere(p, q, fd) && q.ready == p.ready
                  && q.watch == p.watch[id := Watched(p, id) + [fd]])
  {
  }

  /** Modifying replaces what the kernel was told of a registered descriptor, and nothing else. */
  lemma ModifyEffect(p: Epoll, id: SubscriberId, ev: EpollEvent, refused: bool)
    ensures var ((q, r), fd) := (PerformOp(p, id, Modify(ev, refused)), FdOf(ev));
            && (r == Fail(EpollCtl) <==> fd !in p.interest || refused)
            && (r.Fail? ==> q == p && r == Fail(EpollCtl))
            && (r.Done? ==>
                  && fd in q.interest && q.interest[fd] == ev && q.dispatch == p.dispatch
                  && SameElsewhere(p, q, fd) && q.ready == p.ready && q.watch == p.watch)
  {
  }

  /** Removing takes a registered descriptor out of all tables, its pending events, and the caller's list only. */
  lemma RemoveEffect(p: Epoll, id: SubscriberId, ev: EpollEvent)
    ensures var ((q, r), fd) := (PerformOp(p, id, Remove(ev)), FdOf(ev));
            && (r == Fail(EpollCtl) <==> fd !in p.interest)
            && (r.Fail? ==> q == p && r == Fail(EpollCtl))
            && (r.Done? ==>
                  && fd !in q.interest && fd !in q.dispatch
                  && SameElsewhere(p, q, fd) && q.ready == Discard(p.ready, fd)
                  && q.watch.Keys == p.watch.Keys && Watched(q, id) == DropFirst(Watched(p, id), fd)
                  && (forall other :: other in p.watch && other != id ==> q.watch[other] == p.watch[other]))
  {
  }

  /** Closing takes a descriptor out of the kernel's set, and nobody else is told. */
  lemma CloseEffect(p: Epoll, id: SubscriberId, fd: Fd)
    ensures var (q, r) := PerformOp(p, id, Close(fd));
            r.Done? && fd !in q.interest && q.dispatch == p.dispatch && SameElsewhere(p, q, fd)
            && q.ready == p.ready && q.watch == p.watch
  {
  }

  /** The descriptors a successful `EventOps::remove` takes out. */
  function RemovedBy(p: Epoll, op: Op): set<Fd> {
    if op.Remove? && FdOf(op.ev) in p.interest then {FdOf(op.ev)} else {}
  }

  /** A sequence of operations, and the descriptors they removed (some may be registered again). */
  function PerformAll(p: Epoll, id: SubscriberId, ops: seq<Op>): (r: (Epoll, set<Fd>))
    ensures |r.0.ready| == |p.ready|
    decreases |ops|
  {
    if ops == [] then (p, {})
    else
      var last := |ops| - 1;
      var before := PerformAll(p, id, ops[..last]);
      (PerformOp(before.0, id, ops[last]).0, before.1 + RemovedBy(before.0, ops[last]))
  }

  /** Deletes each descriptor from the kernel's set, ignoring failures, and stops dispatching it. */
  function Unwatch(p: Epoll, fds: seq<Fd>): Epoll
    decreases |fds|
  {
    if fds == [] then p
    else
      var q := Unwatch(p, fds[..|fds| - 1]);
      RemoveEvent(q.(interest := q.interest - {fds[|fds| - 1]}), fds[|fds| - 1])
  }

  /** EpollWrapper::remove */
  function Forget(p: Epoll, id: SubscriberId): Epoll {
    Unwatch(p.(watch := p.watch - {id}), Watched(p, id))
  }

  // ----- The manager -----

  datatype Manager<T> = Manager(subs: map<SubscriberId, T>, nextId: nat, epoll: Epoll, channelFd: Fd)

  /** What a subscriber does when called: the operations it performs and what it becomes. */
  datatype Reaction<T> = Reaction(ops: seq<Op>, self: T)

  function ChannelEvent(fd: Fd): EpollEvent
    requires IsFd(fd)
  {
    EpollEvent(IN, AsU64(fd))
  }

  function AddSubscriber<T>(m: Manager<T>, init: Reaction<T>): (Manager<T>, SubscriberId) {
    (m.(subs := m.subs[m.nextId := init.self],
        nextId := m.nextId + 1,
        epoll := PerformAll(m.epoll, m.nextId, init.ops).0), m.nextId)
  }

  function RemoveSubscriber<T>(m: Manager<T>, id: SubscriberId): (Manager<T>, Option<T>) {
    if id !in m.subs then (m, None)
    else (m.(subs := m.subs - {id}, epoll := Forget(m.epoll, id)), Some(m.subs[id]))
  }

  /** `subscriber_mut(id)`, and what the caller makes of the subscriber. */
  function ThroughSubscriberMut<T>(m: Manager<T>, id: SubscriberId, subscriber: T): (Manager<T>, OpResult) {
    if id !in m.subs then (m, Fail(InvalidId)) else (m.(subs := m.subs[id := subscriber]), Done)
  }

  /** `event_ops(id)` followed by one operation on what it returns. */
  function ThroughEventOps<T>(m: Manager<T>, id: SubscriberId, op: Op): (Manager<T>, OpResult) {
    if id !in m.subs then (m, Fail(InvalidId))
    else
      var r := PerformOp(m.epoll, id, op);
      (m.(epoll := r.0), r.1)
  }

  // ----- One dispatch round -----

  predicate Discarded(ev: EpollEvent) {
    ev.events == DEFAULT_EVENT.events && FdOf(ev) == FdOf(DEFAULT_EVENT)
  }

  /** What happened at one position of the ready list. */
  datatype Visit =
    | Skipped
    | Delivered(id: SubscriberId, ev: EpollEvent, removed: set<Fd>, added: set<Fd>)
    | Deferred(ev: EpollEvent)          // the remote endpoint's own descriptor
    | UnknownId                         // get_mut_unchecked would panic
    | UnknownFd                         // unreachable!() would be reached

  function Visited<T>(m: Manager<T>, k: nat, reaction: Reaction<T>): (r: (Manager<T>, Visit))
    requires k < |m.epoll.ready|
    ensures |r.0.epoll.ready| == |m.epoll.ready|
  {
    var ev := m.epoll.ready[k];
    var fd := FdOf(ev);
    if Discarded(ev) then (m, Skipped)
    else if fd in m.epoll.dispatch then
      var id := m.epoll.dispatch[fd];
      if id !in m.subs then (m, UnknownId)
      else
        var r := PerformAll(m.epoll, id, reaction.ops);
        (m.(subs := m.subs[id := reaction.self], epoll := r.0),
         Delivered(id, ev, r.1, r.0.dispatch.Keys - m.epoll.dispatch.Keys))
    else if fd == m.channelFd then (m, Deferred(ev))
    else (m, UnknownFd)
  }

  /** The loop over the first `n` ready events, and what happened at each. */
  function Dispatch<T>(m: Manager<T>, reactions: seq<Reaction<T>>, n: nat): (r: (Manager<T>, seq<Visit>))
    requires n <= |m.epoll.ready| && n <= |reactions|
    ensures |r.1| == n && |r.0.epoll.ready| == |m.epoll.ready|
  {
    if n == 0 then (m, [])
    else
      var before := Dispatch(m, reactions, n - 1);
      var v := Visited(before.0, n - 1, reactions[n - 1]);
      (v.0, before.1 + [v.1])
  }

  /** The event remembered for the remote endpoint: the last one deferred. */
  function EndpointEvent(visits: seq<Visit>): Option<EpollEvent> {
    if visits == [] then None
    else if visits[|visits| - 1].Deferred? then Some(visits[|visits| - 1].ev)
    else EndpointEvent(visits[..|visits| - 1])
  }

  /** The kernel writes the reported events over the start of the buffer. */
  function Polled<T>(m: Manager<T>, evs: seq<EpollEvent>): Manager<T>
    requires |evs| <= |m.epoll.ready|
  {
    m.(epoll := m.epoll.(ready := evs + m.epoll.ready[|evs|..]))
  }

  /** What epoll may report. */
  ghost predicate Reportable(p: Epoll, evs: seq<EpollEvent>) {
    && |evs| <= |p.ready|
    && (forall k :: 0 <= k < |evs| ==>
          && evs[k].events != 0
          && FdOf(evs[k]) in p.interest
          && evs[k].data == p.interest[FdOf(evs[k])].data)
  }

  // ----- The invariant -----

  ghost predicate DispatchOk<T>(m: Manager<T>) {
    forall fd :: fd in m.epoll.dispatch ==>
      && m.epoll.dispatch[fd] in m.subs
      && fd in Watched(m.epoll, m.epoll.dispatch[fd])
  }

  ghost predicate InterestOk<T>(m: Manager<T>) {
    forall fd :: fd in m.epoll.interest ==>
      && (fd in m.epoll.dispatch || fd == m.channelFd)
      && FdOf(m.epoll.interest[fd]) == fd
  }

  ghost predicate IdsOk<T>(m: Manager<T>) {
    forall id :: id in m.subs ==> id < m.nextId
  }

  ghost predicate Inv<T>(m: Manager<T>) {
    DispatchOk(m) && InterestOk(m) && IdsOk(m)
  }

  /** Pending entries from position `k` on are discarded or belong to someone. */
  ghost predicate Pending<T>(m: Manager<T>, k: nat, n: nat)
    requires n <= |m.epoll.ready|
  {
    forall i :: k <= i < n ==>
      var ev := m.epoll.ready[i];
      Discarded(ev) || FdOf(ev) in m.epoll.dispatch || FdOf(ev) == m.channelFd
  }

  lemma OpKeepsInv<T>(m: Manager<T>, id: SubscriberId, op: Op)
    requires Inv(m) && id in m.subs
    ensures Inv(m.(epoll := PerformOp(m.epoll, id, op).0))
  {
    var p' := PerformOp(m.epoll, id, op).0;
    var m' := m.(epoll := p');
    forall fd | fd in p'.dispatch ensures fd in Watched(p', p'.dispatch[fd]) {
      if fd in m.epoll.dispatch { assert fd in Watched(m.epoll, m.epoll.dispatch[fd]); }
    }
  }

  lemma {:induction false} OpsKeepInv<T>(m: Manager<T>, id: SubscriberId, ops: seq<Op>)
    requires Inv(m) && id in m.subs
    ensures Inv(m.(epoll := PerformAll(m.epoll, id, ops).0))
    decreases |ops|
  {
    if ops != [] {
      var last := |ops| - 1;
      OpsKeepInv(m, id, ops[..last]);
      OpKeepsInv(m.(epoll := PerformAll(m.epoll, id, ops[..last]).0), id, ops[last]);
    }
  }

  lemma {:induction false} UnwatchContents(p: Epoll, fds: seq<Fd>)
    ensures var q := Unwatch(p, fds);
            && q.watch == p.watch && |q.ready| == |p.ready|
            && (forall fd :: fd in q.interest <==> fd in p.interest && fd !in fds)
            && (forall fd :: fd in q.interest ==> q.interest[fd] == p.interest[fd])
            && (forall fd :: fd in q.dispatch <==> fd in p.dispatch && fd !in fds)
            && (forall fd :: fd in q.dispatch ==> q.dispatch[fd] == p.dispatch[fd])
    decreases |fds|
  {
    if fds != [] {
      var last := |fds| - 1;
      UnwatchContents(p, fds[..last]);
      assert fds == fds[..last] + [fds[last]];
    }
  }

  lemma AddKeepsInv<T>(m: Manager<T>, init: Reaction<T>)
    requires Inv(m)
    ensures Inv(AddSubscriber(m, init).0)
    ensures AddSubscriber(m, init).1 !in m.subs
  {
    var m1 := m.(subs := m.subs[m.nextId := init.self], nextId := m.nextId + 1);
    assert Inv(m1);
    OpsKeepInv(m1, m.nextId, init.ops);
  }

  lemma RemoveKeepsInv<T>(m: Manager<T>, id: SubscriberId)
    requires Inv(m)
    ensures Inv(RemoveSubscriber(m, id).0)
  {
    if id in m.subs {
      UnwatchContents(m.epoll.(watch := m.epoll.watch - {id}), Watched(m.epoll, id));
    }
  }

  // ----- What a dispatch round delivers -----

  /** All descriptors removed by the callbacks of these visits. */
  function Gone(visits: seq<Visit>): set<Fd> {
    if visits == [] then {}
    else Gone(visits[..|visits| - 1]) +
         (if visits[|visits| - 1].Delivered? then visits[|visits| - 1].removed else {})
  }

  /** The descriptors one callback registered, and for whom. */
  function NewFor(v: Visit): map<Fd, SubscriberId> {
    if v.Delivered? then map fd | fd in v.added :: v.id else map[]
  }

  /** The descriptors these callbacks registered. */
  function Taken(visits: seq<Visit>): map<Fd, SubscriberId> {
    if visits == [] then map[]
    else
      var v := visits[|visits| - 1];
      Taken(visits[..|visits| - 1]) + NewFor(v)
  }

  /** `q` is `p` after operations that removed `gone` and registered `taken`, as far as dispatching goes. */
  ghost predicate Follows(p: Epoll, q: Epoll, gone: set<Fd>, taken: map<Fd, SubscriberId>) {
    && |q.ready| == |p.ready|
    && (forall i :: 0 <= i < |p.ready| ==>
          q.ready[i] == if FdOf(p.ready[i]) in gone then DEFAULT_EVENT else p.ready[i])
    && (forall fd :: fd in p.dispatch && fd !in gone ==> fd in q.dispatch && q.dispatch[fd] == p.dispatch[fd])
    && (forall fd :: fd !in p.dispatch && fd !in gone ==>
          (fd in q.dispatch <==> fd in taken) && (fd in taken ==> q.dispatch[fd] == taken[fd]))
  }

  lemma FollowsTransitive(p: Epoll, q: Epoll, r: Epoll, a: set<Fd>, b: set<Fd>,
                          s: map<Fd, SubscriberId>, t: map<Fd, SubscriberId>)
    requires Follows(p, q, a, s) && Follows(q, r, b, t) && t.Keys !! q.dispatch.Keys
    ensures Follows(p, r, a + b, s + t)
  {
  }

  /** What one subscriber's operations add to the dispatch map. */
  function New(p: Epoll, q: Epoll, id: SubscriberId): map<Fd, SubscriberId> {
    map fd | fd in q.dispatch.Keys - p.dispatch.Keys :: id
  }

  lemma OpFollows(p: Epoll, id: SubscriberId, op: Op)
    ensures var q := PerformOp(p, id, op).0; Follows(p, q, RemovedBy(p, op), New(p, q, id))
  {
  }

  lemma {:induction false} OpsFollow(p: Epoll, id: SubscriberId, ops: seq<Op>)
    ensures var (q, gone) := PerformAll(p, id, ops); Follows(p, q, gone, New(p, q, id))
    decreases |ops|
  {
    hide PerformOp;
    if ops != [] {
      var last := |ops| - 1;
      var (mid, before) := PerformAll(p, id, ops[..last]);
      var q, now := PerformOp(mid, id, ops[last]).0, RemovedBy(mid, ops[last]);
      OpsFollow(p, id, ops[..last]);
      OpFollows(mid, id, ops[last]);
      FollowsTransitive(p, mid, q, before, now, New(p, mid, id), New(mid, q, id));
    }
  }

  /** The event at position `k` of the list the kernel reported, judged by what earlier visits changed. */
  ghost predicate RightVisit<T>(m: Manager<T>, visits: seq<Visit>, k: nat)
    requires k < |visits| <= |m.epoll.ready|
  {
    var ev := m.epoll.ready[k];
    var fd := FdOf(ev);
    if fd in Gone(visits[..k]) then visits[k] == Skipped
    else if fd in m.epoll.dispatch then
      visits[k].Delivered? && visits[k].id == m.epoll.dispatch[fd] && visits[k].ev == ev
    else
      && fd == m.channelFd
      && if fd in Taken(visits[..k]) then
           visits[k].Delivered? && visits[k].id == Taken(visits[..k])[fd] && visits[k].ev == ev
         else visits[k] == Deferred(ev)
  }

  ghost predicate FreshlyPolled<T>(m: Manager<T>, n: nat) {
    && n <= |m.epoll.ready|
    && (forall k :: 0 <= k < n ==> m.epoll.ready[k].events != 0 && FdOf(m.epoll.ready[k]) in m.epoll.interest)
  }

  /**
  Whatever the callbacks do: subscribers receive exactly the reported events, in order, except those whose
  descriptor an earlier callback of the same round removed (even if it was registered again), and each event
  goes to the subscriber that owned the descriptor when the round began.  The channel's event is deferred,
  unless a callback closed the channel's descriptor and registered its number for itself: then it gets it.
  */
  lemma {:induction false} DispatchDelivers<T>(m: Manager<T>, reactions: seq<Reaction<T>>, n: nat)
    requires Inv(m) && FreshlyPolled(m, n) && n <= |reactions|
    ensures Conforms(m, Dispatch(m, reactions, n).0, Dispatch(m, reactions, n).1)
  {
    hide Visited, Inv, Follows, Gone, Taken, RightVisit;
    if n == 0 {
      NothingChanged(m.epoll);
    } else {
      DispatchDelivers(m, reactions, n - 1);
      var before := Dispatch(m, reactions, n - 1);
      VisitDelivers(m, before.0, before.1, n - 1, reactions[n - 1]);
      RightVisitsStay(m, before.1, Visited(before.0, n - 1, reactions[n - 1]).1);
    }
  }

  lemma NothingChanged(p: Epoll)
    ensures Follows(p, p, Gone([]), Taken([]))
  {
  }

  /** `mid` is a good state that a round starting in `m` reaches by these visits, all of them right. */
  ghost predicate Conforms<T>(m: Manager<T>, mid: Manager<T>, visits: seq<Visit>) {
    && Inv(mid) && mid.channelFd == m.channelFd
    && Follows(m.epoll, mid.epoll, Gone(visits), Taken(visits))
    && |visits| <= |m.epoll.ready|
    && (forall k :: 0 <= k < |visits| ==> RightVisit(m, visits, k))
  }

  lemma RightVisitsStay<T>(m: Manager<T>, visits: seq<Visit>, v: Visit)
    requires |visits| < |m.epoll.ready| && forall k :: 0 <= k < |visits| ==> RightVisit(m, visits, k)
    ensures forall k :: 0 <= k < |visits| ==> RightVisit(m, visits + [v], k)
  {
    forall k | 0 <= k < |visits| ensures RightVisit(m, visits + [v], k) {
      assert RightVisit(m, visits, k) && (visits + [v])[..k] == visits[..k];
    }
  }

  lemma VisitDelivers<T>(m: Manager<T>, mid: Manager<T>, visits: seq<Visit>, k: nat, reaction: Reaction<T>)
    requires Inv(m) && Inv(mid) && FreshlyPolled(m, k + 1) && mid.channelFd == m.channelFd
    requires |visits| == k && Follows(m.epoll, mid.epoll, Gone(visits), Taken(visits))
    ensures var v := Visited(mid, k, reaction);
            && Inv(v.0) && v.0.channelFd == m.channelFd
            && Follows(m.epoll, v.0.epoll, Gone(visits + [v.1]), Taken(visits + [v.1]))
            && RightVisit(m, visits + [v.1], k)
  {
    hide Inv, Visited, Gone, Taken, RightVisit;
    VisitFollows(m, mid, visits, k, reaction);
    VisitIsRight(m, mid, visits, k, reaction);
  }

  lemma VisitIsRight<T>(m: Manager<T>, mid: Manager<T>, visits: seq<Visit>, k: nat, reaction: Reaction<T>)
    requires Inv(m) && Inv(mid) && FreshlyPolled(m, k + 1) && mid.channelFd == m.channelFd
    requires |visits| == k && Follows(m.epoll, mid.epoll, Gone(visits), Taken(visits))
    ensures RightVisit(m, visits + [Visited(mid, k, reaction).1], k)
  {
    hide PerformAll, Gone, Taken;
    assert (visits + [Visited(mid, k, reaction).1])[..k] == visits;
  }

  lemma SelfKeepsInv<T>(m: Manager<T>, id: SubscriberId, self: T)
    requires Inv(m) && id in m.subs
    ensures Inv(m.(subs := m.subs[id := self]))
  {
  }

  lemma VisitFollows<T>(m: Manager<T>, mid: Manager<T>, visits: seq<Visit>, k: nat, reaction: Reaction<T>)
    requires Inv(mid) && k < |mid.epoll.ready| && mid.channelFd == m.channelFd
    requires |visits| == k && Follows(m.epoll, mid.epoll, Gone(visits), Taken(visits))
    ensures var v := Visited(mid, k, reaction);
            && Inv(v.0) && v.0.channelFd == m.channelFd
            && Follows(m.epoll, v.0.epoll, Gone(visits + [v.1]), Taken(visits + [v.1]))
  {
    hide PerformAll, Follows, Inv, Gone, Taken;
    var v := Visited(mid, k, reaction);
    VisitsStep(visits, v.1);
    if v.1.Delivered? {
      SelfKeepsInv(mid, v.1.id, reaction.self);
      OpsKeepInv(mid.(subs := mid.subs[v.1.id := reaction.self]), v.1.id, reaction.ops);
      OpsFollow(mid.epoll, v.1.id, reaction.ops);
      FollowsTransitive(m.epoll, mid.epoll, v.0.epoll, Gone(visits), v.1.removed,
                        Taken(visits), New(mid.epoll, v.0.epoll, v.1.id));
      assert NewFor(v.1) == New(mid.epoll, v.0.epoll, v.1.id);
    }
  }

  lemma VisitsStep(visits: seq<Visit>, v: Visit)
    ensures Gone(visits + [v]) == if v.Delivered? then Gone(visits) + v.removed else Gone(visits)
    ensures Taken(visits + [v]) == if v.Delivered? then Taken(visits) + NewFor(v) else Taken(visits)
  {
    assert (visits + [v])[..|visits|] == visits;
    assert Taken(visits) + map[] == Taken(visits);
  }

  // ----- Whole runs -----

  /** Requests through the `SubscriberOps` interface, made directly or by a remote closure. */
  datatype Request<T> =
    | Register(init: Reaction<T>)
    | Unregister(id: SubscriberId)
    | Access(id: SubscriberId, subscriber: T)
    | Operate(id: SubscriberId, op: Op)

  function PerformRequest<T>(m: Manager<T>, q: Request<T>): Manager<T> {
    match q
    case Register(init) => AddSubscriber(m, init).0
    case Unregister(id) => RemoveSubscriber(m, id).0
    case Access(id, subscriber) => ThroughSubscriberMut(m, id, subscriber).0
    case Operate(id, op) => ThroughEventOps(m, id, op).0
  }

  function PerformRequests<T>(m: Manager<T>, qs: seq<Request<T>>): Manager<T>
    decreases |qs|
  {
    if qs == [] then m else PerformRequest(PerformRequests(m, qs[..|qs| - 1]), qs[|qs| - 1])
  }

  /** One `run`: poll, dispatch, and only then the closures waiting at the remote endpoint. */
  datatype Action<T> =
    | Direct(request: Request<T>)
    | Run(evs: seq<EpollEvent>, reactions: seq<Reaction<T>>, calls: seq<Request<T>>)

  ghost predicate Possible<T>(m: Manager<T>, a: Action<T>) {
    a.Run? ==> Reportable(m.epoll, a.evs) && |a.reactions| == |a.evs|
  }

  function Visits<T>(m: Manager<T>, a: Action<T>): seq<Visit>
    requires a.Run? ==> |a.evs| <= |m.epoll.ready| && |a.reactions| == |a.evs|
  {
    match a
    case Direct(_) => []
    case Run(evs, reactions, _) => Dispatch(Polled(m, evs), reactions, |evs|).1
  }

  function Act<T>(m: Manager<T>, a: Action<T>): Manager<T>
    requires a.Run? ==> |a.evs| <= |m.epoll.ready| && |a.reactions| == |a.evs|
  {
    match a
    case Direct(q) => PerformRequest(m, q)
    case Run(evs, reactions, calls) =>
      var r := Dispatch(Polled(m, evs), reactions, |evs|);
      if EndpointEvent(r.1).Some? then PerformRequests(r.0, calls) else r.0
  }

  /** The closures of a round that serves the endpoint take effect after it, one request at a time and in order. */
  lemma CallsTakeEffect<T>(m: Manager<T>, evs: seq<EpollEvent>, reactions: seq<Reaction<T>>, calls: seq<Request<T>>,
                           q: Request<T>)
    requires |evs| <= |m.epoll.ready| && |reactions| == |evs|
    requires EndpointEvent(Visits(m, Run(evs, reactions, calls))).Some?
    ensures Act(m, Run(evs, reactions, calls + [q])) == Act(Act(m, Run(evs, reactions, calls)), Direct(q))
    ensures Act(m, Run(evs, reactions, [])) == Dispatch(Polled(m, evs), reactions, |evs|).0
  {
    assert (calls + [q])[..|calls|] == calls;
  }

  /** A round that does not serve the endpoint leaves them waiting. */
  lemma CallsWait<T>(m: Manager<T>, evs: seq<EpollEvent>, reactions: seq<Reaction<T>>, calls: seq<Request<T>>)
    requires |evs| <= |m.epoll.ready| && |reactions| == |evs|
    requires EndpointEvent(Visits(m, Run(evs, reactions, calls))).None?
    ensures Act(m, Run(evs, reactions, calls)) == Act(m, Run(evs, reactions, []))
  {
  }

  /** The loop neither unwraps a missing subscriber nor meets a descriptor nobody owns. */
  predicate Panics(visits: seq<Visit>) {
    exists k :: 0 <= k < |visits| && (visits[k].UnknownId? || visits[k].UnknownFd?)
  }

  lemma RequestKeepsInv<T>(m: Manager<T>, q: Request<T>)
    requires Inv(m)
    ensures Inv(PerformRequest(m, q))
  {
    match q {
      case Register(init) => AddKeepsInv(m, init);
      case Unregister(id) => RemoveKeepsInv(m, id);
      case Access(id, _) =>
      case Operate(id, op) => if id in m.subs { OpKeepsInv(m, id, op); }
    }
  }

  lemma {:induction false} RequestsKeepInv<T>(m: Manager<T>, qs: seq<Request<T>>)
    requires Inv(m)
    ensures Inv(PerformRequests(m, qs))
    decreases |qs|
  {
    if qs != [] {
      RequestsKeepInv(m, qs[..|qs| - 1]);
      RequestKeepsInv(PerformRequests(m, qs[..|qs| - 1]), qs[|qs| - 1]);
    }
  }

  /** Whatever the callbacks do, each pending entry keeps an owner or is discarded. */
  lemma {:induction false} DispatchSafe<T>(m: Manager<T>, reactions: seq<Reaction<T>>, n: nat, total: nat)
    requires Inv(m) && n <= total <= |m.epoll.ready| && n <= |reactions| && Pending(m, 0, total)
    ensures var r := Dispatch(m, reactions, n);
            Inv(r.0) && Pending(r.0, 0, total) && !Panics(r.1) && r.0.channelFd == m.channelFd
  {
    if n > 0 {
      DispatchSafe(m, reactions, n - 1, total);
      var before := Dispatch(m, reactions, n - 1);
      var v := Visited(before.0, n - 1, reactions[n - 1]);
      assert Pending(before.0, n - 1, total);
      if v.1.Delivered? {
        SelfKeepsInv(before.0, v.1.id, reactions[n - 1].self);
        var mid := before.0.(subs := before.0.subs[v.1.id := reactions[n - 1].self]);
        OpsKeepInv(mid, v.1.id, reactions[n - 1].ops);
        OpsKeepPending(mid, v.1.id, reactions[n - 1].ops, total);
      }
    }
  }

  lemma {:induction false} OpsKeepPending<T>(m: Manager<T>, id: SubscriberId, ops: seq<Op>, total: nat)
    requires total <= |m.epoll.ready| && Pending(m, 0, total)
    ensures Pending(m.(epoll := PerformAll(m.epoll, id, ops).0), 0, total)
    decreases |ops|
  {
    if ops != [] {
      var last := |ops| - 1;
      OpsKeepPending(m, id, ops[..last], total);
      OpKeepsPending(m.(epoll := PerformAll(m.epoll, id, ops[..last]).0), id, ops[last], total);
    }
  }

  lemma OpKeepsPending<T>(m: Manager<T>, id: SubscriberId, op: Op, total: nat)
    requires total <= |m.epoll.ready| && Pending(m, 0, total)
    ensures Pending(m.(epoll := PerformOp(m.epoll, id, op).0), 0, total)
  {
  }

  lemma ActionSafe<T>(m: Manager<T>, a: Action<T>)
    requires Inv(m) && Possible(m, a)
    ensures Inv(Act(m, a)) && !Panics(Visits(m, a))
  {
    match a {
      case Direct(q) => RequestKeepsInv(m, q);
      case Run(evs, reactions, calls) =>
        var m1 := Polled(m, evs);
        assert Inv(m1);
        DispatchSafe(m1, reactions, |evs|, |evs|);
        RequestsKeepInv(Dispatch(m1, reactions, |evs|).0, calls);
    }
  }

  /** EventManager::new_with_capacity */
  function NewManager<T>(capacity: nat, channelFd: Fd): Manager<T>
    requires IsFd(channelFd)
  {
    Manager(map[], 1,
            Epoll(map[channelFd := ChannelEvent(channelFd)], map[], map[], seq(capacity, _ => DEFAULT_EVENT)),
            channelFd)
  }

  lemma ChannelEventFd(channelFd: Fd)
    requires IsFd(channelFd)
    ensures FdOf(ChannelEvent(channelFd)) == channelFd
  {
    assert AsU64(channelFd) % TWO32 == if channelFd < 0 then channelFd + TWO32 else channelFd;
  }

  /** A run of the manager: `states[i + 1]` is what `actions[i]` makes of `states[i]`. */
  ghost predicate IsRun<T>(states: seq<Manager<T>>, actions: seq<Action<T>>, capacity: nat, channelFd: Fd) {
    && |states| == |actions| + 1
    && IsFd(channelFd) && states[0] == NewManager(capacity, channelFd)
    && (forall i :: 0 <= i < |actions| ==>
                      Possible(states[i], actions[i]) && states[i + 1] == Act(states[i], actions[i]))
  }

  /** In every run the three views agree and no dispatch round panics. */
  lemma {:induction false} RunSafe<T>(states: seq<Manager<T>>, actions: seq<Action<T>>,
                                      capacity: nat, channelFd: Fd, i: nat)
    requires IsRun(states, actions, capacity, channelFd) && i <= |actions|
    ensures Inv(states[i])
    ensures i < |actions| ==> !Panics(Visits(states[i], actions[i]))
  {
    if i == 0 {
      ChannelEventFd(channelFd);
    } else {
      RunSafe(states, actions, capacity, channelFd, i - 1);
      ActionSafe(states[i - 1], actions[i - 1]);
    }
    if i < |actions| { ActionSafe(states[i], actions[i]); }
  }

  lemma RequestKeepsBuffer<T>(m: Manager<T>, q: Request<T>)
    ensures |PerformRequest(m, q).epoll.ready| == |m.epoll.ready|
  {
    if q.Unregister? { UnwatchContents(m.epoll.(watch := m.epoll.watch - {q.id}), Watched(m.epoll, q.id)); }
  }

  lemma {:induction false} RequestsKeepBuffer<T>(m: Manager<T>, qs: seq<Request<T>>)
    ensures |PerformRequests(m, qs).epoll.ready| == |m.epoll.ready|
    decreases |qs|
  {
    if qs != [] {
      RequestsKeepBuffer(m, qs[..|qs| - 1]);
      RequestKeepsBuffer(PerformRequests(m, qs[..|qs| - 1]), qs[|qs| - 1]);
    }
  }

  /** No round ever handles more events than the capacity the manager was made with. */
  lemma {:induction false} RoundsBounded<T>(states: seq<Manager<T>>, actions: seq<Action<T>>,
                                            capacity: nat, channelFd: Fd, i: nat)
    requires IsRun(states, actions, capacity, channelFd) && i <= |actions|
    ensures |states[i].epoll.ready| == capacity
    ensures i < |actions| && actions[i].Run? ==> |Visits(states[i], actions[i])| == |actions[i].evs| <= capacity
  {
    if i > 0 {
      RoundsBounded(states, actions, capacity, channelFd, i - 1);
      var m, a := states[i - 1], actions[i - 1];
      match a {
        case Direct(q) => RequestKeepsBuffer(m, q);
        case Run(evs, reactions, calls) =>
          RequestsKeepBuffer(Dispatch(Polled(m, evs), reactions, |evs|).0, calls);
      }
    }
  }

  // ----- Removing a subscriber -----

  /**
  `remove_subscriber` stops dispatching exactly the descriptors on the subscriber's own watch list, so the
  others keep all of theirs if and only if none of theirs is on that list.
  */
  lemma RemoveSubscriberScope<T>(m: Manager<T>, id: SubscriberId)
    requires id in m.subs
    ensures var p, p' := m.epoll, RemoveSubscriber(m, id).0.epoll;
            && (forall fd :: fd in p'.dispatch <==> fd in p.dispatch && fd !in Watched(p, id))
            && ((forall fd :: fd in p.dispatch && p.dispatch[fd] != id ==> fd in p'.dispatch) <==>
                (forall fd :: fd in Watched(p, id) && fd in p.dispatch ==> p.dispatch[fd] == id))
  {
    UnwatchContents(m.epoll.(watch := m.epoll.watch - {id}), Watched(m.epoll, id));
  }

  /** The subscriber itself leaves and is handed back, its list goes with it, and all others stay what they are. */
  lemma RemoveSubscriberEffect<T>(m: Manager<T>, id: SubscriberId)
    ensures var (m', r) := RemoveSubscriber(m, id);
            && (id !in m.subs ==> m' == m && r == None)
            && (id in m.subs ==> r == Some(m.subs[id]))
            && m'.subs == m.subs - {id} && m'.nextId == m.nextId && m'.channelFd == m.channelFd
            && (id in m.subs ==>
                  && m'.epoll.watch == m.epoll.watch - {id}
                  && (forall fd :: fd in m'.epoll.interest <==> fd in m.epoll.interest && fd !in Watched(m.epoll, id))
                  && (forall fd :: fd in m'.epoll.interest ==> m'.epoll.interest[fd] == m.epoll.interest[fd])
                  && (forall fd :: fd in m'.epoll.dispatch ==>
                        fd in m.epoll.dispatch && m'.epoll.dispatch[fd] == m.epoll.dispatch[fd]))
  {
    UnwatchContents(m.epoll.(watch := m.epoll.watch - {id}), Watched(m.epoll, id));
  }

  /** Ids that are not in use are refused; the others give access to their subscriber's events, or to the subscriber. */
  lemma AccessEffect<T>(m: Manager<T>, id: SubscriberId, op: Op, subscriber: T)
    ensures id !in m.subs ==> ThroughEventOps(m, id, op) == (m, Fail(InvalidId))
    ensures id !in m.subs ==> ThroughSubscriberMut(m, id, subscriber) == (m, Fail(InvalidId))
    ensures id in m.subs ==>
              var ((m', r), (p, s)) := (ThroughEventOps(m, id, op), PerformOp(m.epoll, id, op));
              m'.epoll == p && r == s && m'.subs == m.subs && m'.nextId == m.nextId && m'.channelFd == m.channelFd
    ensures id in m.subs ==>
              var (m', r) := ThroughSubscriberMut(m, id, subscriber);
              m'.subs == m.subs[id := subscriber] && r == Done && m' == m.(subs := m'.subs)
  {
  }

  /** A new subscriber gets an id never used before, and registers under it; all others stay what they are. */
  lemma AddSubscriberEffect<T>(m: Manager<T>, init: Reaction<T>)
    requires Inv(m)
    ensures var (m', id) := AddSubscriber(m, init);
            && id !in m.subs && m'.subs == m.subs[id := init.self]
            && m.nextId <= id < m'.nextId && m'.channelFd == m.channelFd
            && m'.epoll == PerformAll(m.epoll, id, init.ops).0
  {
  }

  /**
  The list can go stale, because `EventOps::remove` edits only the caller's: subscriber 1 registers descriptor
  5, subscriber 2 removes it and registers it for itself, and removing subscriber 1 then takes it from 2.
  */
  lemma StaleWatchList()
    ensures var ev := EpollEvent(IN, 5);
            var m0: Manager<int> := NewManager(4, 3);
            var m1 := PerformRequest(m0, Register(Reaction([], 0)));
            var m2 := PerformRequest(m1, Register(Reaction([], 0)));
            var m3 := PerformRequest(m2, Operate(1, Add(ev, false)));
            var m4 := PerformRequest(m3, Operate(2, Remove(ev)));
            var m5 := PerformRequest(m4, Operate(2, Add(ev, false)));
            var m6 := PerformRequest(m5, Unregister(1));
            && 5 in m5.epoll.dispatch && m5.epoll.dispatch[5] == 2
            && 2 in m6.subs && 5 !in m6.epoll.dispatch && 5 !in m6.epoll.interest
  {
    var ev := EpollEvent(IN, 5);
    assert FdOf(ev) == 5;
    var m0: Manager<int> := NewManager(4, 3);
    var m1 := PerformRequest(m0, Register(Reaction([], 0)));
    var m2 := PerformRequest(m1, Register(Reaction([], 0)));
    var m3 := PerformRequest(m2, Operate(1, Add(ev, false)));
    var m4 := PerformRequest(m3, Operate(2, Remove(ev)));
    var m5 := PerformRequest(m4, Operate(2, Add(ev, false)));
    assert m5.epoll.watch[1] == [5];
    UnwatchContents(m5.epoll.(watch := m5.epoll.watch - {1}), [5]);
  }
}
