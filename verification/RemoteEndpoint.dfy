/**
The remote endpoint of an `EventManager`, as a protocol of interleaved steps.

Any number of threads send closures to the manager over a FIFO channel and then bump the counter of
an eventfd.  The manager thread sleeps in epoll until that counter is positive, clears it, and runs
closures until the channel is empty.  Subscribers can change what epoll watches, the eventfd included:
`watched` says whether it is registered for input on the manager's behalf.  A callback that takes it away
may also discard an event already reported, and then the round does not get to the channel.  Every call
has its own program counter and so has the manager; one step of the model is one operation on shared
state, and a run is any interleaving of steps.

The manager's own state has type `M`; a closure maps it to a new state and a result of type `R`.
The fields `sent`, `log` and `dropped` record history and guard no step.
*/
module RemoteEndpoint {

  /** The largest counter of an eventfd.  A non-blocking write that would exceed it fails. */
  const EVENTFD_MAX: nat := 0xffff_ffff_ffff_fffe

  type CallId = nat

  /** What a call hands back to its caller. */
  datatype Outcome<R> =
    | Value(r: R)     // call_blocking: the result of the closure
    | Queued          // fire: the message was sent and announced
    | ChannelSend     // the manager was gone before the message was sent
    | EventFdFull     // the message was sent, but the eventfd counter was at its maximum
    | ChannelRecv     // the manager was dropped before the closure ran

  datatype CallPc<R> =
    | Ready           // about to send on the channel
    | Pushed          // message sent, eventfd not yet written
    | Waiting         // blocked in recv() on the private reply channel
    | Finished(outcome: Outcome<R>)

  datatype Call<!M, R> = Call(blocking: bool, run: M -> (M, R), pc: CallPc<R>)

  /** The manager's state changes by remote closures and by everything else its thread does. */
  datatype Entry<!M, R> = Remote(c: CallId, run: M -> (M, R)) | Local(step: M -> M)

  datatype ManagerPc =
    | Idle            // waiting in epoll, or about to
    | Polled          // epoll reported the eventfd; other subscribers' events are dispatched first
    | Draining        // counter cleared, receiving messages
    | Running(c: CallId)

  datatype State<!M, R> = State(
    queue: seq<CallId>,
    counter: nat,
    manager: ManagerPc,
    mem: M,
    alive: bool,
    watched: bool,
    calls: map<CallId, Call<M, R>>,
    replies: map<CallId, R>,
    sent: seq<CallId>,
    log: seq<Entry<M, R>>,
    dropped: seq<CallId>)

  datatype Step<!M, R> =
    | Start(c: CallId, blocking: bool, run: M -> (M, R))  // a thread enters call_blocking or fire
    | Push(c: CallId)                                      // Sender::send
    | Notify(c: CallId)                                    // EventFd::write(1)
    | Return(c: CallId)                                    // Receiver::recv on the reply channel
    | Kick                                                 // RemoteEndpoint::kick
    | Poll                                                 // epoll reports the eventfd
    | Clear                                                // EventFd::read
    | Skip                                                 // the round ends without the endpoint
    | Receive                                              // try_recv yields a message
    | Sleep                                                // try_recv finds the channel empty
    | Finish                                               // the closure ends, its result is sent back
    | Other(step: M -> M)                                  // anything else on the manager's thread
    | Watch(on: bool)                                      // EventOps::modify or remove on the eventfd
    | Drop                                                 // the manager is dropped

  predicate Enabled<M, R>(s: State<M, R>, e: Step<M, R>) {
    match e
    case Start(c, _, _) => c !in s.calls
    case Push(c) => c in s.calls && s.calls[c].pc.Ready?
    case Notify(c) => c in s.calls && s.calls[c].pc.Pushed?
    case Return(c) => c in s.calls && s.calls[c].pc.Waiting? && (c in s.replies || !s.alive)
    case Kick => true
    case Poll => s.alive && s.watched && s.manager.Idle? && s.counter > 0
    case Clear => s.manager.Polled?
    case Skip => s.manager.Polled? && !s.watched
    case Receive => s.manager.Draining? && s.queue != []
    case Sleep => s.manager.Draining? && s.queue == []
    case Finish => s.manager.Running? && s.manager.c in s.calls
    case Other(_) => s.alive && (s.manager.Idle? || s.manager.Polled?)
    case Watch(_) => s.alive
    case Drop => s.alive && s.manager.Idle?
  }

  function SetPc<M, R>(s: State<M, R>, c: CallId, pc: CallPc<R>): State<M, R>
    requires c in s.calls
  {
    s.(calls := s.calls[c := s.calls[c].(pc := pc)])
  }

  function Apply<M, R>(s: State<M, R>, e: Step<M, R>): State<M, R>
    requires Enabled(s, e)
  {
    match e
    case Start(c, blocking, run) => s.(calls := s.calls[c := Call(blocking, run, Ready)])
    case Push(c) =>
      if s.alive then SetPc(s, c, Pushed).(queue := s.queue + [c], sent := s.sent + [c])
      else SetPc(s, c, Finished(ChannelSend))
    case Notify(c) =>
      if s.counter == EVENTFD_MAX then SetPc(s, c, Finished(EventFdFull))
      else SetPc(s, c, if s.calls[c].blocking then Waiting else Finished(Queued)).(counter := s.counter + 1)
    case Return(c) =>
      SetPc(s, c, Finished(if c in s.replies then Value(s.replies[c]) else ChannelRecv))
    case Kick => s.(counter := if s.counter == EVENTFD_MAX then s.counter else s.counter + 1)
    case Poll => s.(manager := Polled)
    case Clear => s.(manager := Draining, counter := 0)
    case Skip => s.(manager := Idle)
    case Receive => s.(manager := Running(s.queue[0]), queue := s.queue[1..])
    case Sleep => s.(manager := Idle)
    case Finish =>
      var c := s.manager.c;
      var (m, r) := s.calls[c].run(s.mem);
      s.(manager := Draining,
         mem := m,
         log := s.log + [Remote(c, s.calls[c].run)],
         replies := if s.calls[c].blocking then s.replies[c := r] else s.replies)
    case Other(step) => s.(mem := step(s.mem), log := s.log + [Local(step)])
    case Watch(on) => s.(watched := on)
    case Drop => s.(alive := false, queue := [], dropped := s.queue)
  }

  ghost predicate Init<M, R>(s: State<M, R>, init: M) {
    s == State([], 0, Idle, init, true, true, map[], map[], [], [], [])
  }

  // ----- What the history means -----

  function Effect<M, R>(e: Entry<M, R>, m: M): M {
    match e
    case Remote(_, run) => run(m).0
    case Local(step) => step(m)
  }

  function CallOf<M, R>(e: Entry<M, R>): seq<CallId> {
    match e
    case Remote(c, _) => [c]
    case Local(_) => []
  }

  /** The manager's state after the given changes, in order. */
  function Replay<M, R>(init: M, log: seq<Entry<M, R>>): M {
    if log == [] then init
    else Effect(log[|log| - 1], Replay(init, log[..|log| - 1]))
  }

  /** The calls whose closures ran, in order. */
  function Ran<M, R>(log: seq<Entry<M, R>>): seq<CallId> {
    if log == [] then [] else Ran(log[..|log| - 1]) + CallOf(log[|log| - 1])
  }

  function InFlight(m: ManagerPc): seq<CallId> {
    if m.Running? then [m.c] else []
  }

  function Outstanding<M, R>(s: State<M, R>): seq<CallId> {
    InFlight(s.manager) + (s.queue + s.dropped)
  }

  ghost predicate Distinct(ids: seq<CallId>) {
    forall i, j :: 0 <= i < j < |ids| ==> ids[i] != ids[j]
  }

  lemma ReplayAppend<M, R>(init: M, log: seq<Entry<M, R>>, e: Entry<M, R>)
    ensures Replay(init, log + [e]) == Effect(e, Replay(init, log))
  {
    assert (log + [e])[..|log|] == log;
  }

  lemma RanAppend<M, R>(log: seq<Entry<M, R>>, e: Entry<M, R>)
    ensures Ran(log + [e]) == Ran(log) + CallOf(e)
  {
    assert (log + [e])[..|log|] == log;
  }

  lemma {:induction false} RanContains<M, R>(log: seq<Entry<M, R>>, k: nat)
    requires k < |log| && log[k].Remote?
    ensures log[k].c in Ran(log)
  {
    if k < |log| - 1 { RanContains(log[..|log| - 1], k); }
  }

  // ----- The invariant -----

  /** Every message sent has run, is running, is queued or was dropped, in exactly this order. */
  ghost predicate Ordered<M, R>(s: State<M, R>) {
    s.sent == Ran(s.log) + Outstanding(s)
  }

  ghost predicate WasSent<M, R>(s: State<M, R>, c: CallId) {
    c in s.calls && !s.calls[c].pc.Ready? && s.calls[c].pc != Finished(ChannelSend)
  }

  ghost predicate SentOnce<M, R>(s: State<M, R>) {
    && Distinct(s.sent)
    && (forall c :: c in s.sent <==> WasSent(s, c))
  }

  ghost predicate Announcing<M, R>(s: State<M, R>, c: CallId) {
    c in s.calls && s.calls[c].pc.Pushed?
  }

  /** No lost wakeup. */
  ghost predicate Awake<M, R>(s: State<M, R>) {
    && (s.queue != [] ==>
          || s.counter > 0
          || s.manager.Draining?
          || s.manager.Running?
          || exists c :: Announcing(s, c))
    && (s.manager.Polled? ==> s.counter > 0)
  }

  /** Entry `k` of the log is a run of its own call's closure, whose result became that call's reply. */
  ghost predicate Answers<M, R>(s: State<M, R>, init: M, k: nat)
    requires k < |s.log| && s.log[k].Remote?
  {
    var c := s.log[k].c;
    && c in s.calls
    && s.calls[c].run == s.log[k].run
    && (s.calls[c].blocking ==> c in s.replies && s.replies[c] == s.log[k].run(Replay(init, s.log[..k])).1)
  }

  ghost predicate Answered<M, R>(s: State<M, R>, init: M) {
    && s.mem == Replay(init, s.log)
    && (forall k: nat :: k < |s.log| && s.log[k].Remote? ==> Answers(s, init, k))
    && (forall c :: c in s.replies ==> c in Ran(s.log) && c in s.calls && s.calls[c].blocking)
  }

  ghost predicate CallOk<M, R>(s: State<M, R>, c: CallId)
    requires c in s.calls
  {
    match s.calls[c].pc
    case Ready => true
    case Pushed => true
    case Waiting => s.calls[c].blocking
    case Finished(Value(r)) => c in s.replies && r == s.replies[c]
    case Finished(Queued) => !s.calls[c].blocking
    case Finished(ChannelSend) => !s.alive
    case Finished(EventFdFull) => true
    case Finished(ChannelRecv) => !s.alive && c in s.dropped
  }

  ghost predicate Lifetimes<M, R>(s: State<M, R>) {
    && s.counter <= EVENTFD_MAX
    && (s.alive ==> s.dropped == [])
    && (!s.alive ==> s.queue == [] && s.manager.Idle?)
    && (forall c :: c in s.calls ==> CallOk(s, c))
  }

  ghost predicate Inv<M, R>(s: State<M, R>, init: M) {
    Ordered(s) && SentOnce(s) && Awake(s) && Answered(s, init) && Lifetimes(s)
  }

  lemma InitInv<M, R>(s: State<M, R>, init: M)
    requires Init(s, init)
    ensures Inv(s, init)
  {
  }

  lemma StepOrdered<M, R>(s: State<M, R>, e: Step<M, R>)
    requires Ordered(s) && (s.alive ==> s.dropped == []) && Enabled(s, e)
    ensures Ordered(Apply(s, e))
  {
    hide Apply, Enabled, Outstanding, Ran;
    if e.Finish? {
      FinishOrdered(s);
    } else {
      OnlyFinishAnswers(s, e);
      if e.Other? { RanAppend(s.log, Local(e.step)); }
      OutstandingStep(s, e);
      if e.Push? { Regrouped(Ran(s.log), Outstanding(s), [e.c]); }
    }
  }

  lemma FinishOrdered<M, R>(s: State<M, R>)
    requires Ordered(s) && Enabled(s, Finish)
    ensures Ordered(Apply(s, Finish))
  {
    hide Ran;
    RanAppend(s.log, Remote(s.manager.c, s.calls[s.manager.c].run));
    Regrouped(Ran(s.log), [s.manager.c], s.queue + s.dropped);
    assert InFlight(Draining) + (s.queue + s.dropped) == s.queue + s.dropped;
  }

  lemma OutstandingStep<M, R>(s: State<M, R>, e: Step<M, R>)
    requires (s.alive ==> s.dropped == []) && Enabled(s, e) && !e.Finish?
    ensures var s' := Apply(s, e);
            if e.Push? && s.alive then Outstanding(s') == Outstanding(s) + [e.c] && s'.sent == s.sent + [e.c]
            else Outstanding(s') == Outstanding(s) && s'.sent == s.sent
  {
    var s' := Apply(s, e);
    if e.Push? && s.alive {
      assert s.dropped == [] && s.queue + [e.c] + [] == s.queue + [] + [e.c];
      Regrouped(InFlight(s.manager), s.queue + [], [e.c]);
    } else if e.Receive? {
      assert [s.queue[0]] + s.queue[1..] == s.queue;
      Regrouped([s.queue[0]], s.queue[1..], s.dropped);
      assert Outstanding(s) == [] + (s.queue + s.dropped) == s.queue + s.dropped;
    } else if e.Drop? {
      assert [] + s.queue == s.queue + [];
    } else {
      assert InFlight(s'.manager) == InFlight(s.manager) && s'.queue == s.queue && s'.dropped == s.dropped;
    }
  }

  lemma Regrouped(a: seq<CallId>, b: seq<CallId>, c: seq<CallId>)
    ensures a + (b + c) == (a + b) + c
  {
  }

  lemma StepSentOnce<M, R>(s: State<M, R>, e: Step<M, R>)
    requires SentOnce(s) && Enabled(s, e)
    ensures SentOnce(Apply(s, e))
  {
    hide Apply, Enabled, WasSent;
    var s' := Apply(s, e);
    if e.Push? { NotYetSent(s, e); }
    forall c ensures c in s'.sent <==> WasSent(s', c) {
      assert c in s.sent <==> WasSent(s, c);
      StepSends(s, e, c);
    }
    StepSends(s, e, 0);
  }

  lemma NotYetSent<M, R>(s: State<M, R>, e: Step<M, R>)
    requires Enabled(s, e) && e.Push?
    ensures !WasSent(s, e.c)
  {
  }

  lemma StepSends<M, R>(s: State<M, R>, e: Step<M, R>, c: CallId)
    requires Enabled(s, e)
    ensures Apply(s, e).sent == if e.Push? && s.alive then s.sent + [e.c] else s.sent
    ensures WasSent(Apply(s, e), c) <==> WasSent(s, c) || (e.Push? && s.alive && c == e.c)
  {
  }

  lemma StepAwake<M, R>(s: State<M, R>, e: Step<M, R>, init: M)
    requires Inv(s, init) && Enabled(s, e)
    ensures Awake(Apply(s, e))
  {
    var s' := Apply(s, e);
    if !e.Notify? && exists c :: Announcing(s, c) {
      var c :| Announcing(s, c);
      assert Announcing(s', c);
    }
    if e.Push? && s.alive { assert Announcing(s', e.c); }
  }

  lemma StepAnswered<M, R>(s: State<M, R>, e: Step<M, R>, init: M)
    requires Answered(s, init) && Enabled(s, e) && !e.Finish?
    ensures Answered(Apply(s, e), init)
  {
    hide Apply, Enabled, Answers, Replay, Ran;
    var s' := Apply(s, e);
    OnlyFinishAnswers(s, e);
    if e.Other? {
      ReplayAppend(init, s.log, Local(e.step));
      RanAppend(s.log, Local(e.step));
    }
    CallsKeepTheirClosure(s, e);
    forall k: nat | k < |s'.log| && s'.log[k].Remote? ensures Answers(s', init, k) {
      assert Answers(s, init, k) && s'.log[..k] == s.log[..k];
      AnswerStays(s, s', init, k);
    }
  }

  lemma AnswerStays<M, R>(s: State<M, R>, s': State<M, R>, init: M, k: nat)
    requires k < |s.log| && k < |s'.log| && s.log[k] == s'.log[k] && s.log[k].Remote? && s.log[..k] == s'.log[..k]
    requires s'.replies == s.replies && Answers(s, init, k) && KeepsClosures(s, s')
    ensures Answers(s', init, k)
  {
    hide Replay;
  }

  /** Calls are never forgotten, and keep what they run. */
  ghost predicate KeepsClosures<M, R>(s: State<M, R>, s': State<M, R>) {
    forall c :: c in s.calls ==>
      c in s'.calls && s'.calls[c].run == s.calls[c].run && s'.calls[c].blocking == s.calls[c].blocking
  }

  lemma OnlyFinishAnswers<M, R>(s: State<M, R>, e: Step<M, R>)
    requires Enabled(s, e) && !e.Finish?
    ensures var s' := Apply(s, e);
            && s'.replies == s.replies
            && s'.log == (if e.Other? then s.log + [Local(e.step)] else s.log)
            && s'.mem == (if e.Other? then e.step(s.mem) else s.mem)
  {
  }

  lemma CallsKeepTheirClosure<M, R>(s: State<M, R>, e: Step<M, R>)
    requires Enabled(s, e)
    ensures KeepsClosures(s, Apply(s, e))
  {
  }

  lemma FinishAnswered<M, R>(s: State<M, R>, init: M)
    requires Inv(s, init) && Enabled(s, Finish)
    ensures Answered(Apply(s, Finish), init)
  {
    var s' := Apply(s, Finish);
    ReplayAppend(init, s.log, Remote(s.manager.c, s.calls[s.manager.c].run));
    RanAppend(s.log, Remote(s.manager.c, s.calls[s.manager.c].run));
    forall k: nat | k < |s'.log| && s'.log[k].Remote? ensures Answers(s', init, k) {
      assert s'.log[..k] == s.log[..k];
      if k < |s.log| {
        assert Answers(s, init, k);
        RanContains(s.log, k);
        InFlightIsNew(s, s.log[k].c);
      }
    }
  }

  lemma InFlightIsNew<M, R>(s: State<M, R>, c: CallId)
    requires Ordered(s) && SentOnce(s) && s.manager.Running? && c in Ran(s.log)
    ensures c != s.manager.c
  {
    var i :| 0 <= i < |Ran(s.log)| && Ran(s.log)[i] == c;
    assert s.sent[i] == c && s.sent[|Ran(s.log)|] == s.manager.c;
  }

  /** A call left without a reply when the manager is gone is one whose message was dropped. */
  lemma UnansweredWasDropped<M, R>(s: State<M, R>, init: M, c: CallId)
    requires Inv(s, init) && !s.alive && c in s.calls && s.calls[c].pc.Waiting? && c !in s.replies
    ensures c in s.dropped
  {
    assert WasSent(s, c) && CallOk(s, c);
    if c in Ran(s.log) { var _ := RanWasAnswered(s, init, c); }
  }

  lemma RanWasAnswered<M, R>(s: State<M, R>, init: M, c: CallId) returns (k: nat)
    requires Answered(s, init) && c in Ran(s.log)
    ensures k < |s.log| && s.log[k].Remote? && s.log[k].c == c && Answers(s, init, k)
  {
    k := FindRun(s.log, c);
    assert Answers(s, init, k);
  }

  lemma {:induction false} FindRun<M, R>(log: seq<Entry<M, R>>, c: CallId) returns (k: nat)
    requires c in Ran(log)
    ensures k < |log| && log[k].Remote? && log[k].c == c
  {
    var last := |log| - 1;
    if log[last].Remote? && log[last].c == c {
      k := last;
    } else {
      k := FindRun(log[..last], c);
    }
  }

  lemma StepLifetimes<M, R>(s: State<M, R>, e: Step<M, R>, init: M)
    requires Inv(s, init) && Enabled(s, e)
    ensures Lifetimes(Apply(s, e))
  {
    var s' := Apply(s, e);
    forall c | c in s'.calls ensures CallOk(s', c) {
      StepCallOk(s, e, init, c);
    }
  }

  lemma StepCallOk<M, R>(s: State<M, R>, e: Step<M, R>, init: M, c: CallId)
    requires Inv(s, init) && Enabled(s, e) && c in Apply(s, e).calls
    ensures CallOk(Apply(s, e), c)
  {
    if e.Return? && e.c !in s.replies { UnansweredWasDropped(s, init, e.c); }
    if e.Finish? && c in s.replies { InFlightIsNew(s, c); }
    CallOkFrame(s, e, c);
  }

  lemma CallOkFrame<M, R>(s: State<M, R>, e: Step<M, R>, c: CallId)
    requires Enabled(s, e) && c in Apply(s, e).calls && (c in s.calls ==> CallOk(s, c))
    requires s.alive ==> s.dropped == []
    requires e.Return? && e.c !in s.replies ==> e.c in s.dropped
    requires e.Finish? && c in s.replies ==> c != s.manager.c
    ensures CallOk(Apply(s, e), c)
  {
    hide Apply, Enabled, CallOk;
    if OwnStep(e, c) {
      OwnStepOk(s, e, c);
    } else {
      OnlyStartAdds(s, e, c);
      OtherStepOk(s, e, c);
    }
  }

  lemma OnlyStartAdds<M, R>(s: State<M, R>, e: Step<M, R>, c: CallId)
    requires Enabled(s, e) && c in Apply(s, e).calls && !OwnStep(e, c)
    ensures c in s.calls
  {
  }

  /** A step of the call `c` itself. */
  predicate OwnStep<M, R>(e: Step<M, R>, c: CallId) {
    (e.Start? || e.Push? || e.Notify? || e.Return?) && e.c == c
  }

  lemma OwnStepOk<M, R>(s: State<M, R>, e: Step<M, R>, c: CallId)
    requires Enabled(s, e) && OwnStep(e, c)
    requires (s.alive ==> s.dropped == []) && (e.Return? && c !in s.replies ==> c in s.dropped)
    ensures c in Apply(s, e).calls && CallOk(Apply(s, e), c)
  {
  }

  lemma OtherStepOk<M, R>(s: State<M, R>, e: Step<M, R>, c: CallId)
    requires Enabled(s, e) && !OwnStep(e, c) && c in s.calls && CallOk(s, c)
    requires (s.alive ==> s.dropped == []) && (e.Finish? && c in s.replies ==> c != s.manager.c)
    ensures c in Apply(s, e).calls && CallOk(Apply(s, e), c)
  {
    hide Apply, Enabled;
    OtherStepKeeps(s, e, c);
  }

  lemma OtherStepKeeps<M, R>(s: State<M, R>, e: Step<M, R>, c: CallId)
    requires Enabled(s, e) && !OwnStep(e, c) && c in s.calls && (s.alive ==> s.dropped == [])
    ensures var s' := Apply(s, e);
            && c in s'.calls && s'.calls[c] == s.calls[c]
            && (!s.alive ==> !s'.alive) && (c in s.dropped ==> c in s'.dropped)
            && (c in s.replies && !(e.Finish? && c == s.manager.c) ==> c in s'.replies && s'.replies[c] == s.replies[c])
  {
  }

  // ----- Every run -----

  /** A finite run: `steps[i]` leads from `run[i]` to `run[i + 1]`. */
  ghost predicate IsRun<M, R>(run: seq<State<M, R>>, steps: seq<Step<M, R>>, init: M) {
    && |run| == |steps| + 1
    && Init(run[0], init)
    && (forall i :: 0 <= i < |steps| ==> Enabled(run[i], steps[i]) && run[i + 1] == Apply(run[i], steps[i]))
  }

  lemma StepInv<M, R>(s: State<M, R>, e: Step<M, R>, init: M)
    requires Inv(s, init) && Enabled(s, e)
    ensures Inv(Apply(s, e), init)
  {
    StepOrdered(s, e);
    StepSentOnce(s, e);
    StepAwake(s, e, init);
    if e.Finish? { FinishAnswered(s, init); } else { StepAnswered(s, e, init); }
    StepLifetimes(s, e, init);
  }

  lemma {:induction false} RunInv<M, R>(run: seq<State<M, R>>, steps: seq<Step<M, R>>, init: M, i: nat)
    requires IsRun(run, steps, init) && i < |run|
    ensures Inv(run[i], init)
  {
    if i == 0 {
      InitInv(run[0], init);
    } else {
      RunInv(run, steps, init, i - 1);
      StepInv(run[i - 1], steps[i - 1], init);
    }
  }

  /** Whenever a closure is queued, something is bound to wake the manager; asleep, nothing is pending. */
  lemma NoLostWakeup<M, R>(run: seq<State<M, R>>, steps: seq<Step<M, R>>, init: M, i: nat)
    requires IsRun(run, steps, init) && i < |run|
    ensures run[i].queue != [] ==>
              || run[i].counter > 0
              || run[i].manager.Draining?
              || run[i].manager.Running?
              || exists c :: c in run[i].calls && run[i].calls[c].pc.Pushed?
    ensures run[i].alive && run[i].manager.Idle? && run[i].counter == 0
            && (forall c :: c in run[i].calls ==> !run[i].calls[c].pc.Pushed?)
            ==> Ran(run[i].log) == run[i].sent
  {
    RunInv(run, steps, init, i);
    var s := run[i];
    if exists c :: Announcing(s, c) {
      var c :| Announcing(s, c);
      assert c in s.calls && s.calls[c].pc.Pushed?;
    }
  }

  /** Closures run at most once each, in the order in which they entered the channel. */
  lemma RunsOnceInChannelOrder<M, R>(run: seq<State<M, R>>, steps: seq<Step<M, R>>, init: M, i: nat)
    requires IsRun(run, steps, init) && i < |run|
    ensures Ran(run[i].log) <= run[i].sent
    ensures forall a, b :: 0 <= a < b < |Ran(run[i].log)| ==> Ran(run[i].log)[a] != Ran(run[i].log)[b]
    ensures run[i].mem == Replay(init, run[i].log)
  {
    RunInv(run, steps, init, i);
    var s := run[i];
    forall a, b | 0 <= a < b < |Ran(s.log)| ensures Ran(s.log)[a] != Ran(s.log)[b] {
      assert s.sent[a] == Ran(s.log)[a] && s.sent[b] == Ran(s.log)[b];
    }
  }
}
