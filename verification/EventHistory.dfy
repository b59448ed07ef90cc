/**
The tables of an `EventManager` as the outcome of its history: everything subscribers, callbacks and remote closures
did, in order, with the result each operation had.
*/
module EventHistory {
  import opened Basics
  import opened EventDispatch

  datatype Deed<T> =
    | Did(id: SubscriberId, op: Op, result: OpResult)      // one operation through `EventOps`
    | Became(id: SubscriberId, self: T)                    // a subscriber was added, called or accessed
    | Forgot(id: SubscriberId)                             // a subscriber was removed

  // ----- What a history amounts to -----

  /** The list of a subscriber: what it added and did not remove, in order. */
  function ListOf<T>(deeds: seq<Deed<T>>, id: SubscriberId): seq<Fd> {
    if deeds == [] then []
    else
      var before := ListOf(deeds[..|deeds| - 1], id);
      match deeds[|deeds| - 1]
      case Did(who, Add(ev, _), Done) => if who == id then before + [FdOf(ev)] else before
      case Did(who, Remove(ev), Done) => if who == id then DropFirst(before, FdOf(ev)) else before
      case Forgot(who) => if who == id then [] else before
      case _ => before
  }

  /** What the kernel was last told about a descriptor. */
  function EntryOf<T>(deeds: seq<Deed<T>>, channelFd: Fd, fd: Fd): Option<EpollEvent>
    requires IsFd(channelFd)
  {
    if deeds == [] then (if fd == channelFd then Some(ChannelEvent(fd)) else None)
    else
      var past := deeds[..|deeds| - 1];
      var before := EntryOf(past, channelFd, fd);
      match deeds[|deeds| - 1]
      case Did(_, Add(ev, _), Done) => if FdOf(ev) == fd then Some(ev) else before
      case Did(_, Modify(ev, _), Done) => if FdOf(ev) == fd then Some(ev) else before
      case Did(_, Remove(ev), Done) => if FdOf(ev) == fd then None else before
      case Did(_, Close(closed), Done) => if closed == fd then None else before
      case Forgot(id) => if fd in ListOf(past, id) then None else before
      case _ => before
  }

  /** Who last added a descriptor, if nobody removed it since. */
  function OwnerOf<T>(deeds: seq<Deed<T>>, fd: Fd): Option<SubscriberId> {
    if deeds == [] then None
    else
      var past := deeds[..|deeds| - 1];
      var before := OwnerOf(past, fd);
      match deeds[|deeds| - 1]
      case Did(id, Add(ev, _), Done) => if FdOf(ev) == fd then Some(id) else before
      case Did(_, Remove(ev), Done) => if FdOf(ev) == fd then None else before
      case Forgot(id) => if fd in ListOf(past, id) then None else before
      case _ => before
  }

  /** What a subscriber last became, if it was not removed since. */
  function SelfOf<T>(deeds: seq<Deed<T>>, id: SubscriberId): Option<T> {
    if deeds == [] then None
    else
      var before := SelfOf(deeds[..|deeds| - 1], id);
      match deeds[|deeds| - 1]
      case Became(who, self) => if who == id then Some(self) else before
      case Forgot(who) => if who == id then None else before
      case _ => before
  }

  ghost predicate Holds<K, V>(table: map<K, V>, key: K, value: Option<V>) {
    (key in table <==> value.Some?) && (key in table ==> value == Some(table[key]))
  }

  ghost predicate TablesAre<T>(p: Epoll, channelFd: Fd, deeds: seq<Deed<T>>)
    requires IsFd(channelFd)
  {
    && (forall fd :: KnownAs(p, channelFd, deeds, fd))
    && (forall id :: ListedAs(p, deeds, id))
  }

  /** The kernel's entry of a descriptor and its owner are what the history says. */
  ghost predicate KnownAs<T>(p: Epoll, channelFd: Fd, deeds: seq<Deed<T>>, fd: Fd)
    requires IsFd(channelFd)
  {
    Holds(p.interest, fd, EntryOf(deeds, channelFd, fd)) && Holds(p.dispatch, fd, OwnerOf(deeds, fd))
  }

  ghost predicate ListedAs<T>(p: Epoll, deeds: seq<Deed<T>>, id: SubscriberId) {
    Watched(p, id) == ListOf(deeds, id)
  }

  ghost predicate SubscribersAre<T>(subs: map<SubscriberId, T>, deeds: seq<Deed<T>>) {
    forall id :: Holds(subs, id, SelfOf(deeds, id))
  }

  // ----- The history of a run -----

  function OpsDone<T>(p: Epoll, id: SubscriberId, ops: seq<Op>): seq<Deed<T>>
    decreases |ops|
  {
    if ops == [] then []
    else
      var last := |ops| - 1;
      OpsDone(p, id, ops[..last]) + [Did(id, ops[last], PerformOp(PerformAll(p, id, ops[..last]).0, id, ops[last]).1)]
  }

  function RequestDone<T>(m: Manager<T>, q: Request<T>): seq<Deed<T>> {
    match q
    case Register(init) => OpsDone(m.epoll, m.nextId, init.ops) + [Became(m.nextId, init.self)]
    case Unregister(id) => if id in m.subs then [Forgot(id)] else []
    case Access(id, subscriber) => if id in m.subs then [Became(id, subscriber)] else []
    case Operate(id, op) => if id in m.subs then [Did(id, op, PerformOp(m.epoll, id, op).1)] else []
  }

  function RequestsDone<T>(m: Manager<T>, qs: seq<Request<T>>): seq<Deed<T>>
    decreases |qs|
  {
    if qs == [] then []
    else
      var last := |qs| - 1;
      RequestsDone(m, qs[..last]) + RequestDone(PerformRequests(m, qs[..last]), qs[last])
  }

  /** Each callback of a round does what it does, in the order of the events delivered. */
  function CallbacksDone<T>(m: Manager<T>, reactions: seq<Reaction<T>>, n: nat): seq<Deed<T>>
    requires n <= |m.epoll.ready| && n <= |reactions|
  {
    if n == 0 then []
    else
      var before := Dispatch(m, reactions, n - 1).0;
      var v := Visited(before, n - 1, reactions[n - 1]).1;
      CallbacksDone(m, reactions, n - 1) +
      if v.Delivered? then OpsDone(before.epoll, v.id, reactions[n - 1].ops) + [Became(v.id, reactions[n - 1].self)]
      else []
  }

  /** In a round, what the callbacks do, and then what the closures ask for if the endpoint was reported. */
  function ActionDone<T>(m: Manager<T>, a: Action<T>): seq<Deed<T>>
    requires a.Run? ==> |a.evs| <= |m.epoll.ready| && |a.reactions| == |a.evs|
  {
    match a
    case Direct(q) => RequestDone(m, q)
    case Run(evs, reactions, calls) =>
      var m1 := Polled(m, evs);
      CallbacksDone(m1, reactions, |evs|) +
      if EndpointEvent(Visits(m, a)).Some? then RequestsDone(Dispatch(m1, reactions, |evs|).0, calls) else []
  }

  ghost function RunDone<T>(states: seq<Manager<T>>, actions: seq<Action<T>>, i: nat): seq<Deed<T>>
    requires i <= |actions| < |states| && forall j :: 0 <= j < |actions| ==> Possible(states[j], actions[j])
  {
    if i == 0 then [] else RunDone(states, actions, i - 1) + ActionDone(states[i - 1], actions[i - 1])
  }

  // ----- Each step adds its part -----

  lemma OpRecorded<T>(p: Epoll, channelFd: Fd, deeds: seq<Deed<T>>, id: SubscriberId, op: Op)
    requires IsFd(channelFd) && TablesAre(p, channelFd, deeds)
    ensures TablesAre(PerformOp(p, id, op).0, channelFd, deeds + [Did(id, op, PerformOp(p, id, op).1)])
  {
    var d: Deed<T> := Did(id, op, PerformOp(p, id, op).1);
    forall fd ensures KnownAs(PerformOp(p, id, op).0, channelFd, deeds + [d], fd) {
      assert KnownAs(p, channelFd, deeds, fd);
      OpKnown(p, channelFd, deeds, id, op, fd);
    }
    forall who ensures ListedAs(PerformOp(p, id, op).0, deeds + [d], who) {
      assert ListedAs(p, deeds, who);
      OpListed(p, deeds, id, op, who);
    }
  }

  lemma OpKnown<T>(p: Epoll, channelFd: Fd, deeds: seq<Deed<T>>, id: SubscriberId, op: Op, fd: Fd)
    requires IsFd(channelFd) && KnownAs(p, channelFd, deeds, fd)
    ensures KnownAs(PerformOp(p, id, op).0, channelFd, deeds + [Did(id, op, PerformOp(p, id, op).1)], fd)
  {
    hide PerformOp, FdOf, EntryOf, OwnerOf;
    OpStep(deeds, channelFd, id, op, PerformOp(p, id, op).1, fd);
    match op {
      case Add(ev, refused) => AddEffect(p, id, ev, refused);
      case Modify(ev, refused) => ModifyEffect(p, id, ev, refused);
      case Remove(ev) => RemoveEffect(p, id, ev);
      case Close(closed) => CloseEffect(p, id, closed);
    }
  }

  lemma OpStep<T>(deeds: seq<Deed<T>>, channelFd: Fd, id: SubscriberId, op: Op, result: OpResult, fd: Fd)
    requires IsFd(channelFd)
    ensures var after := deeds + [Did(id, op, result)];
            && EntryOf(after, channelFd, fd) == (if result.Fail? || Target(op) != fd then EntryOf(deeds, channelFd, fd)
                                                 else if op.Add? || op.Modify? then Some(op.ev) else None)
            && OwnerOf(after, fd) == (if result.Fail? || Target(op) != fd then OwnerOf(deeds, fd)
                                      else if op.Add? then Some(id) else if op.Remove? then None
                                      else OwnerOf(deeds, fd))
  {
    hide FdOf;
    var after: seq<Deed<T>> := deeds + [Did(id, op, result)];
    assert after[..|after| - 1] == deeds;
  }

  lemma OpListed<T>(p: Epoll, deeds: seq<Deed<T>>, id: SubscriberId, op: Op, who: SubscriberId)
    requires ListedAs(p, deeds, who)
    ensures ListedAs(PerformOp(p, id, op).0, deeds + [Did(id, op, PerformOp(p, id, op).1)], who)
  {
    hide PerformOp, FdOf;
    var after: seq<Deed<T>> := deeds + [Did(id, op, PerformOp(p, id, op).1)];
    assert after[..|after| - 1] == deeds;
    match op {
      case Add(ev, refused) => AddEffect(p, id, ev, refused);
      case Modify(ev, refused) => ModifyEffect(p, id, ev, refused);
      case Remove(ev) => RemoveEffect(p, id, ev);
      case Close(closed) => CloseEffect(p, id, closed);
    }
  }

  /** A deed that is no operation and forgets nobody leaves the tables alone. */
  lemma SameTables<T>(p: Epoll, channelFd: Fd, deeds: seq<Deed<T>>, d: Deed<T>)
    requires IsFd(channelFd) && TablesAre(p, channelFd, deeds) && d.Became?
    ensures TablesAre(p, channelFd, deeds + [d])
  {
    var after := deeds + [d];
    assert after[..|after| - 1] == deeds;
    forall fd ensures KnownAs(p, channelFd, after, fd) { assert KnownAs(p, channelFd, deeds, fd); }
    forall id ensures ListedAs(p, after, id) { assert ListedAs(p, deeds, id); }
  }

  lemma SelfStep<T>(deeds: seq<Deed<T>>, d: Deed<T>, id: SubscriberId)
    ensures SelfOf(deeds + [d], id) == match d
                                       case Became(who, self) => if who == id then Some(self) else SelfOf(deeds, id)
                                       case Forgot(who) => if who == id then None else SelfOf(deeds, id)
                                       case _ => SelfOf(deeds, id)
  {
    var after := deeds + [d];
    assert after[..|after| - 1] == deeds;
  }

  lemma {:induction false} OpsRecorded<T>(p: Epoll, channelFd: Fd, deeds: seq<Deed<T>>, id: SubscriberId, ops: seq<Op>)
    requires IsFd(channelFd) && TablesAre(p, channelFd, deeds)
    ensures TablesAre(PerformAll(p, id, ops).0, channelFd, deeds + OpsDone(p, id, ops))
    decreases |ops|
  {
    hide TablesAre, PerformOp;
    if ops == [] {
      assert deeds + OpsDone(p, id, ops) == deeds;
    } else {
      var last := |ops| - 1;
      OpsRecorded(p, channelFd, deeds, id, ops[..last]);
      var mid := PerformAll(p, id, ops[..last]).0;
      var past := OpsDone<T>(p, id, ops[..last]);
      OpRecorded(mid, channelFd, deeds + past, id, ops[last]);
      assert deeds + past + [Did(id, ops[last], PerformOp(mid, id, ops[last]).1)] == deeds + OpsDone(p, id, ops);
    }
  }

  lemma {:induction false} OpsAreNotSelves<T>(deeds: seq<Deed<T>>, p: Epoll, id: SubscriberId, ops: seq<Op>,
                                              who: SubscriberId)
    ensures SelfOf(deeds + OpsDone(p, id, ops), who) == SelfOf(deeds, who)
    decreases |ops|
  {
    hide SelfOf, PerformAll, PerformOp;
    if ops == [] {
      assert deeds + OpsDone(p, id, ops) == deeds;
    } else {
      var last := |ops| - 1;
      OpsAreNotSelves(deeds, p, id, ops[..last], who);
      var d: Deed<T> := Did(id, ops[last], PerformOp(PerformAll(p, id, ops[..last]).0, id, ops[last]).1);
      SelfStep(deeds + OpsDone(p, id, ops[..last]), d, who);
      assert deeds + OpsDone(p, id, ops) == deeds + OpsDone(p, id, ops[..last]) + [d];
    }
  }

  lemma BecameRecorded<T>(m: Manager<T>, deeds: seq<Deed<T>>, id: SubscriberId, self: T)
    requires IsFd(m.channelFd) && Recorded(m, deeds)
    ensures Recorded(m.(subs := m.subs[id := self]), deeds + [Became(id, self)])
  {
    hide TablesAre, SelfOf;
    var d: Deed<T> := Became(id, self);
    SameTables(m.epoll, m.channelFd, deeds, d);
    var subs := m.subs[id := self];
    forall who ensures Holds(subs, who, SelfOf(deeds + [d], who)) {
      assert Holds(m.subs, who, SelfOf(deeds, who));
      SelfStep(deeds, d, who);
    }
  }

  /** The state of the manager is what its history amounts to. */
  ghost predicate Recorded<T>(m: Manager<T>, deeds: seq<Deed<T>>)
    requires IsFd(m.channelFd)
  {
    TablesAre(m.epoll, m.channelFd, deeds) && SubscribersAre(m.subs, deeds)
  }

  /** A callback: its operations, and then what the subscriber became. */
  lemma CallbackRecorded<T>(m: Manager<T>, deeds: seq<Deed<T>>, id: SubscriberId, r: Reaction<T>)
    requires IsFd(m.channelFd) && Recorded(m, deeds)
    ensures Recorded(m.(subs := m.subs[id := r.self], epoll := PerformAll(m.epoll, id, r.ops).0),
                     deeds + (OpsDone(m.epoll, id, r.ops) + [Became(id, r.self)]))
  {
    hide TablesAre, PerformAll, OpsDone, SelfOf, Holds;
    OpsRecorded(m.epoll, m.channelFd, deeds, id, r.ops);
    var done := OpsDone<T>(m.epoll, id, r.ops);
    forall who ensures SelfOf(deeds + done, who) == SelfOf(deeds, who) {
      OpsAreNotSelves(deeds, m.epoll, id, r.ops, who);
    }
    BecameRecorded(m.(epoll := PerformAll(m.epoll, id, r.ops).0), deeds + done, id, r.self);
    assert deeds + done + [Became(id, r.self)] == deeds + (done + [Became(id, r.self)]);
  }

  lemma ForgetRecorded<T>(m: Manager<T>, deeds: seq<Deed<T>>, id: SubscriberId)
    requires IsFd(m.channelFd) && Recorded(m, deeds) && id in m.subs
    ensures Recorded(RemoveSubscriber(m, id).0, deeds + [Forgot(id)])
  {
    hide SelfOf, TablesAre;
    var d: Deed<T> := Forgot(id);
    ForgetTables(m.epoll, m.channelFd, deeds, id);
    forall who ensures Holds(m.subs - {id}, who, SelfOf(deeds + [d], who)) {
      assert Holds(m.subs, who, SelfOf(deeds, who));
      SelfStep(deeds, d, who);
    }
  }

  lemma ForgetTables<T>(p: Epoll, channelFd: Fd, deeds: seq<Deed<T>>, id: SubscriberId)
    requires IsFd(channelFd) && TablesAre(p, channelFd, deeds)
    ensures TablesAre(Forget(p, id), channelFd, deeds + [Forgot(id)])
  {
    hide Unwatch;
    var d: Deed<T> := Forgot(id);
    var after := deeds + [d];
    assert after[..|after| - 1] == deeds && ListedAs(p, deeds, id);
    UnwatchContents(p.(watch := p.watch - {id}), Watched(p, id));
    forall fd ensures KnownAs(Forget(p, id), channelFd, after, fd) { assert KnownAs(p, channelFd, deeds, fd); }
    forall who ensures ListedAs(Forget(p, id), after, who) { assert ListedAs(p, deeds, who); }
  }

  lemma RequestRecorded<T>(m: Manager<T>, deeds: seq<Deed<T>>, q: Request<T>)
    requires IsFd(m.channelFd) && Recorded(m, deeds)
    ensures PerformRequest(m, q).channelFd == m.channelFd
    ensures Recorded(PerformRequest(m, q), deeds + RequestDone(m, q))
  {
    hide Recorded, PerformAll, OpsDone, PerformOp, Forget;
    assert deeds + [] == deeds;
    match q {
      case Register(init) =>
        CallbackRecorded(m, deeds, m.nextId, init);
        NextIdFree(m, m.subs[m.nextId := init.self], PerformAll(m.epoll, m.nextId, init.ops).0,
                   deeds + RequestDone(m, q));
      case Unregister(id) => if id in m.subs { ForgetRecorded(m, deeds, id); }
      case Access(id, subscriber) => if id in m.subs { BecameRecorded(m, deeds, id, subscriber); }
      case Operate(id, op) => if id in m.subs { OneOpRecorded(m, deeds, id, op); }
    }
  }

  lemma NextIdFree<T>(m: Manager<T>, subs: map<SubscriberId, T>, p: Epoll, deeds: seq<Deed<T>>)
    requires IsFd(m.channelFd) && Recorded(m.(subs := subs, epoll := p), deeds)
    ensures Recorded(m.(subs := subs, nextId := m.nextId + 1, epoll := p), deeds)
  {
  }

  lemma OneOpRecorded<T>(m: Manager<T>, deeds: seq<Deed<T>>, id: SubscriberId, op: Op)
    requires IsFd(m.channelFd) && Recorded(m, deeds)
    ensures Recorded(m.(epoll := PerformOp(m.epoll, id, op).0), deeds + [Did(id, op, PerformOp(m.epoll, id, op).1)])
  {
    hide TablesAre, PerformOp;
    OpRecorded(m.epoll, m.channelFd, deeds, id, op);
    var d: Deed<T> := Did(id, op, PerformOp(m.epoll, id, op).1);
    forall who ensures Holds(m.subs, who, SelfOf(deeds + [d], who)) {
      assert Holds(m.subs, who, SelfOf(deeds, who));
      SelfStep(deeds, d, who);
    }
  }

  lemma {:induction false} RequestsRecorded<T>(m: Manager<T>, deeds: seq<Deed<T>>, qs: seq<Request<T>>)
    requires IsFd(m.channelFd) && Recorded(m, deeds)
    ensures PerformRequests(m, qs).channelFd == m.channelFd
    ensures Recorded(PerformRequests(m, qs), deeds + RequestsDone(m, qs))
    decreases |qs|
  {
    hide Recorded, PerformRequest, RequestDone;
    if qs == [] {
      assert deeds + RequestsDone(m, qs) == deeds;
    } else {
      var last := |qs| - 1;
      RequestsRecorded(m, deeds, qs[..last]);
      var mid, past := PerformRequests(m, qs[..last]), RequestsDone(m, qs[..last]);
      RequestRecorded(mid, deeds + past, qs[last]);
      assert deeds + past + RequestDone(mid, qs[last]) == deeds + RequestsDone(m, qs);
    }
  }

  lemma VisitRecorded<T>(m: Manager<T>, deeds: seq<Deed<T>>, k: nat, r: Reaction<T>)
    requires IsFd(m.channelFd) && Recorded(m, deeds) && k < |m.epoll.ready|
    ensures Visited(m, k, r).0.channelFd == m.channelFd
    ensures var (m', v) := Visited(m, k, r);
            Recorded(m', deeds + if v.Delivered? then OpsDone(m.epoll, v.id, r.ops) + [Became(v.id, r.self)] else [])
  {
    hide Recorded, PerformAll, OpsDone;
    var (m', v) := Visited(m, k, r);
    assert deeds + [] == deeds;
    if v.Delivered? { CallbackRecorded(m, deeds, v.id, r); }
  }

  lemma {:induction false} CallbacksRecorded<T>(m: Manager<T>, deeds: seq<Deed<T>>, reactions: seq<Reaction<T>>, n: nat)
    requires IsFd(m.channelFd) && Recorded(m, deeds) && n <= |m.epoll.ready| && n <= |reactions|
    ensures Dispatch(m, reactions, n).0.channelFd == m.channelFd
    ensures Recorded(Dispatch(m, reactions, n).0, deeds + CallbacksDone(m, reactions, n))
  {
    hide Recorded, Visited, OpsDone;
    if n == 0 {
      assert deeds + CallbacksDone(m, reactions, n) == deeds;
    } else {
      CallbacksRecorded(m, deeds, reactions, n - 1);
      var before, past := Dispatch(m, reactions, n - 1).0, CallbacksDone(m, reactions, n - 1);
      VisitRecorded(before, deeds + past, n - 1, reactions[n - 1]);
      var v := Visited(before, n - 1, reactions[n - 1]).1;
      var r := reactions[n - 1];
      var now := if v.Delivered? then OpsDone(before.epoll, v.id, r.ops) + [Became(v.id, r.self)] else [];
      assert deeds + past + now == deeds + CallbacksDone(m, reactions, n);
    }
  }

  lemma PolledRecorded<T>(m: Manager<T>, deeds: seq<Deed<T>>, evs: seq<EpollEvent>)
    requires IsFd(m.channelFd) && Recorded(m, deeds) && |evs| <= |m.epoll.ready|
    ensures Recorded(Polled(m, evs), deeds)
  {
    var p := Polled(m, evs).epoll;
    forall fd ensures KnownAs(p, m.channelFd, deeds, fd) { assert KnownAs(m.epoll, m.channelFd, deeds, fd); }
    forall id ensures ListedAs(p, deeds, id) { assert ListedAs(m.epoll, deeds, id); }
  }

  lemma ActionRecorded<T>(m: Manager<T>, deeds: seq<Deed<T>>, a: Action<T>)
    requires IsFd(m.channelFd) && Recorded(m, deeds) && Possible(m, a)
    ensures Act(m, a).channelFd == m.channelFd
    ensures Recorded(Act(m, a), deeds + ActionDone(m, a))
  {
    hide Recorded, PerformRequest, PerformRequests, RequestDone, RequestsDone, Dispatch, CallbacksDone, Reportable;
    match a {
      case Direct(q) => RequestRecorded(m, deeds, q);
      case Run(evs, reactions, calls) =>
        FitsBuffer(m.epoll, evs);
        var m1 := Polled(m, evs);
        PolledRecorded(m, deeds, evs);
        CallbacksRecorded(m1, deeds, reactions, |evs|);
        var m2, past := Dispatch(m1, reactions, |evs|).0, CallbacksDone(m1, reactions, |evs|);
        RequestsRecorded(m2, deeds + past, calls);
        assert deeds + past + RequestsDone(m2, calls) == deeds + (past + RequestsDone(m2, calls));
        assert deeds + past == deeds + (past + []);
    }
  }

  lemma FitsBuffer(p: Epoll, evs: seq<EpollEvent>)
    requires Reportable(p, evs)
    ensures |evs| <= |p.ready|
  {
  }

  // ----- Every run -----

  /**
  In every run, however subscribers, callbacks and closures behave: the kernel's entry of each descriptor, its owner,
  every subscriber's list and every subscriber are what the operations done so far, with the results they had, amount
  to.
  */
  lemma {:induction false} RunRecorded<T>(states: seq<Manager<T>>, actions: seq<Action<T>>,
                                          capacity: nat, channelFd: Fd, i: nat)
    requires IsRun(states, actions, capacity, channelFd) && i <= |actions|
    ensures states[i].channelFd == channelFd && Recorded(states[i], RunDone(states, actions, i))
  {
    hide Act, ActionDone;
    if i == 0 {
      NothingDone(states[0], capacity, channelFd);
    } else {
      hide Recorded;
      RunRecorded(states, actions, capacity, channelFd, i - 1);
      ActionRecorded(states[i - 1], RunDone(states, actions, i - 1), actions[i - 1]);
    }
  }

  lemma NothingDone<T>(m: Manager<T>, capacity: nat, channelFd: Fd)
    requires IsFd(channelFd) && m == NewManager(capacity, channelFd)
    ensures Recorded(m, [])
  {
  }

  /** The deed registers `ev`, by adding or by modifying. */
  predicate Registers<T>(d: Deed<T>, ev: EpollEvent) {
    d.Did? && d.result.Done? && (d.op.Add? || d.op.Modify?) && d.op.ev == ev
  }

  /** The deed changes what the kernel holds for `fd`. */
  predicate Touches<T>(deeds: seq<Deed<T>>, k: nat, fd: Fd)
    requires k < |deeds|
  {
    match deeds[k]
    case Did(_, op, result) => result.Done? && Target(op) == fd
    case Forgot(id) => fd in ListOf(deeds[..k], id)
    case Became(_, _) => false
  }

  /** An entry is that of the last successful `add` or `modify` of its descriptor, or still the manager's own. */
  lemma {:induction false} EntryIsLast<T>(deeds: seq<Deed<T>>, channelFd: Fd, fd: Fd) returns (k: int)
    requires IsFd(channelFd) && EntryOf(deeds, channelFd, fd).Some?
    ensures -1 <= k < |deeds| && forall j :: k < j < |deeds| ==> !Touches(deeds, j, fd)
    ensures if k < 0 then fd == channelFd && EntryOf(deeds, channelFd, fd) == Some(ChannelEvent(fd))
            else Registers(deeds[k], EntryOf(deeds, channelFd, fd).value) && Touches(deeds, k, fd)
  {
    if deeds == [] {
      k := -1;
    } else {
      var last := |deeds| - 1;
      if Touches(deeds, last, fd) {
        k := last;
      } else {
        k := EntryIsLast(deeds[..last], channelFd, fd);
        forall j | k < j < last ensures !Touches(deeds, j, fd) {
          assert !Touches(deeds[..last], j, fd) && deeds[..last][..j] == deeds[..j];
        }
        if 0 <= k { assert deeds[..last][..k] == deeds[..k]; }
      }
    }
  }

  /** In every run, a descriptor is registered with the events that were asked for last. */
  lemma RegisteredAsAsked<T>(states: seq<Manager<T>>, actions: seq<Action<T>>, capacity: nat, channelFd: Fd, i: nat,
                             fd: Fd) returns (k: int)
    requires IsRun(states, actions, capacity, channelFd) && i <= |actions| && fd in states[i].epoll.interest
    ensures var deeds, ev := RunDone(states, actions, i), states[i].epoll.interest[fd];
            && -1 <= k < |deeds| && (forall j :: k < j < |deeds| ==> !Touches(deeds, j, fd))
            && if k < 0 then fd == channelFd && ev == ChannelEvent(fd)
               else Registers(deeds[k], ev) && FdOf(ev) == fd
  {
    RunRecorded(states, actions, capacity, channelFd, i);
    var deeds := RunDone(states, actions, i);
    assert KnownAs(states[i].epoll, channelFd, deeds, fd);
    k := EntryIsLast(deeds, channelFd, fd);
  }

  /** A closure that registers a descriptor in one round makes the next round deliver its events. */
  lemma ClosureRegisters()
    ensures var ev := EpollEvent(IN, 5);
            var m: Manager<int> := Act(NewManager(4, 3), Direct(Register(Reaction([], 0))));
            var a := Run([EpollEvent(IN, 3)], [Reaction([], 0)], [Operate(1, Add(ev, false))]);
            var b := Run([ev], [Reaction([], 7)], []);
            && Possible(m, a) && Possible(Act(m, a), b)
            && Visits(Act(m, a), b) == [Delivered(1, ev, {}, {})] && Act(Act(m, a), b).subs == map[1 := 7]
  {
    var ev := EpollEvent(IN, 5);
    var m: Manager<int> := Act(NewManager(4, 3), Direct(Register(Reaction([], 0))));
    assert FdOf(EpollEvent(IN, 3)) == 3 && FdOf(ev) == 5;
    assert m.epoll == NewManager<int>(4, 3).epoll && m.subs == map[1 := 0];
    hide PerformOp, Dispatch, FdOf;
    RoundServes(m, EpollEvent(IN, 3), Operate(1, Add(ev, false)));
    AddEffect(Polled(m, [EpollEvent(IN, 3)]).epoll, 1, ev, false);
    NextRoundDelivers(PerformRequest(Polled(m, [EpollEvent(IN, 3)]), Operate(1, Add(ev, false))), ev, 7);
  }

  lemma RoundServes(m: Manager<int>, ev: EpollEvent, q: Request<int>)
    requires FdOf(ev) == m.channelFd && m.channelFd in m.epoll.interest && m.channelFd !in m.epoll.dispatch
    requires ev == m.epoll.interest[m.channelFd] && ev.events != 0 && |m.epoll.ready| > 0
    ensures var a := Run([ev], [Reaction([], 0)], [q]);
            Possible(m, a) && Act(m, a) == PerformRequest(Polled(m, [ev]), q)
  {
    var a := Run([ev], [Reaction([], 0)], [q]);
    var m1 := Polled(m, a.evs);
    assert m1.epoll.ready[0] == ev;
    assert Dispatch(m1, a.reactions, 0) == (m1, []);
    assert Visited(m1, 0, a.reactions[0]) == (m1, Deferred(ev));
    assert Visits(m, a) == [Deferred(ev)] && [] + [q] == a.calls;
    CallsTakeEffect(m, a.evs, a.reactions, [], q);
  }

  lemma NextRoundDelivers(m: Manager<int>, ev: EpollEvent, self: int)
    requires ev.events != 0 && |m.epoll.ready| > 0 && m.subs.Keys == {1}
    requires FdOf(ev) in m.epoll.interest && m.epoll.interest[FdOf(ev)] == ev
    requires FdOf(ev) in m.epoll.dispatch && m.epoll.dispatch[FdOf(ev)] == 1
    ensures var b := Run([ev], [Reaction([], self)], []);
            && Possible(m, b)
            && Visits(m, b) == [Delivered(1, ev, {}, {})] && Act(m, b).subs == map[1 := self]
  {
    var b := Run([ev], [Reaction([], self)], []);
    var m1 := Polled(m, b.evs);
    assert m1.epoll.ready[0] == ev;
    assert Dispatch(m1, b.reactions, 0) == (m1, []);
    assert m1.epoll.dispatch.Keys - m1.epoll.dispatch.Keys == {};
    assert Visited(m1, 0, b.reactions[0]) == (m1.(subs := m1.subs[1 := self]), Delivered(1, ev, {}, {}));
  }
}
