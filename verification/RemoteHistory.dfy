/**
What the state of the remote endpoint's protocol owes to the steps that led to it: what each call was started with and
why it ended, what the eventfd counts, and what the manager's state is made of.
*/
module RemoteHistory {
  import opened RemoteEndpoint

  // ----- The shared state -----

  /** The writes to the eventfd since it was last read, the failed ones included. */
  function Writes<M, R>(steps: seq<Step<M, R>>): nat {
    if steps == [] then 0
    else
      var before, last := Writes(steps[..|steps| - 1]), steps[|steps| - 1];
      if last.Clear? then 0 else if last.Notify? || last.Kick? then before + 1 else before
  }

  /** What was last said about watching the eventfd. */
  predicate LastWatched<M, R>(steps: seq<Step<M, R>>) {
    if steps == [] then true
    else if steps[|steps| - 1].Watch? then steps[|steps| - 1].on
    else LastWatched(steps[..|steps| - 1])
  }

  /** The closures and the local changes, in the order in which they happened. */
  ghost function Happened<M, R>(run: seq<State<M, R>>, steps: seq<Step<M, R>>): seq<Entry<M, R>>
    requires |steps| <= |run|
  {
    if steps == [] then []
    else
      var k := |steps| - 1;
      Happened(run, steps[..k]) +
      match steps[k]
      case Finish =>
        if run[k].manager.Running? && run[k].manager.c in run[k].calls
        then [Remote(run[k].manager.c, run[k].calls[run[k].manager.c].run)] else []
      case Other(step) => [Local(step)]
      case _ => []
  }

  /** In every run the eventfd counts the writes since it was last read, up to its maximum. */
  lemma {:induction false} CountsWrites<M, R>(run: seq<State<M, R>>, steps: seq<Step<M, R>>, init: M, i: nat)
    requires IsRun(run, steps, init) && i < |run|
    ensures var n := Writes(steps[..i]); run[i].counter == if n < EVENTFD_MAX then n else EVENTFD_MAX
  {
    hide Enabled, Apply;
    if i > 0 {
      CountsWrites(run, steps, init, i - 1);
      assert steps[..i][..i - 1] == steps[..i - 1];
      StepShared(run[i - 1], steps[i - 1]);
    }
  }

  /** It is watched as was last said, and the manager is alive until it is dropped. */
  lemma {:induction false} WatchedAsSaid<M, R>(run: seq<State<M, R>>, steps: seq<Step<M, R>>, init: M, i: nat)
    requires IsRun(run, steps, init) && i < |run|
    ensures run[i].watched == LastWatched(steps[..i]) && (run[i].alive <==> Drop !in steps[..i])
  {
    hide Enabled, Apply;
    if i > 0 {
      WatchedAsSaid(run, steps, init, i - 1);
      assert steps[..i][..i - 1] == steps[..i - 1] && steps[..i] == steps[..i - 1] + [steps[i - 1]];
      StepShared(run[i - 1], steps[i - 1]);
    }
  }

  /** The manager's state is the initial one after the closures finished and the local changes made, in order. */
  lemma {:induction false} MadeOfWhatHappened<M, R>(run: seq<State<M, R>>, steps: seq<Step<M, R>>, init: M, i: nat)
    requires IsRun(run, steps, init) && i < |run|
    ensures run[i].log == Happened(run, steps[..i]) && run[i].mem == Replay(init, Happened(run, steps[..i]))
  {
    hide Apply, Inv, Replay;
    RunInv(run, steps, init, i);
    assert run[i].mem == Replay(init, run[i].log) by { InvReplays(run[i], init); }
    if i > 0 {
      MadeOfWhatHappened(run, steps, init, i - 1);
      assert steps[..i][..i - 1] == steps[..i - 1];
      StepShared(run[i - 1], steps[i - 1]);
    }
  }

  lemma InvReplays<M, R>(s: State<M, R>, init: M)
    requires Inv(s, init)
    ensures s.mem == Replay(init, s.log)
  {
  }

  lemma StepShared<M, R>(s: State<M, R>, e: Step<M, R>)
    requires Enabled(s, e)
    ensures var s' := Apply(s, e);
            && s'.counter == (if e.Clear? then 0
                              else if (e.Notify? || e.Kick?) && s.counter != EVENTFD_MAX then s.counter + 1
                              else s.counter)
            && s'.watched == (if e.Watch? then e.on else s.watched)
            && s'.alive == (s.alive && !e.Drop?)
            && s'.log == s.log + match e
                                 case Finish => [Remote(s.manager.c, s.calls[s.manager.c].run)]
                                 case Other(step) => [Local(step)]
                                 case _ => []
  {
  }

  // ----- The calls -----

  /** Step number `j`, one of the first `i`, starts the call `c`. */
  ghost predicate Starts<M, R>(steps: seq<Step<M, R>>, i: nat, j: int, c: CallId) {
    0 <= j < i <= |steps| && steps[j].Start? && steps[j].c == c
  }

  /** The calls are those that were started, each with the closure it was started with. */
  lemma {:induction false} StartedWith<M, R>(run: seq<State<M, R>>, steps: seq<Step<M, R>>, init: M, i: nat, c: CallId)
    requires IsRun(run, steps, init) && i < |run|
    ensures c in run[i].calls <==> exists j :: Starts(steps, i, j, c)
    ensures forall j :: Starts(steps, i, j, c) ==>
              run[i].calls[c].run == steps[j].run && run[i].calls[c].blocking == steps[j].blocking
  {
    if i > 0 {
      StartedWith(run, steps, init, i - 1, c);
      hide Enabled, Apply;
      StepStarts(run[i - 1], steps[i - 1], c);
      if c in run[i - 1].calls {
        var j :| Starts(steps, i - 1, j, c);
        assert Starts(steps, i, j, c);
      }
      if steps[i - 1].Start? && steps[i - 1].c == c { assert Starts(steps, i, i - 1, c); }
      forall j | Starts(steps, i, j, c) && j < i - 1 ensures Starts(steps, i - 1, j, c) { }
    }
  }

  lemma StepStarts<M, R>(s: State<M, R>, e: Step<M, R>, c: CallId)
    requires Enabled(s, e)
    ensures var s' := Apply(s, e);
            && (c in s'.calls <==> c in s.calls || (e.Start? && e.c == c))
            && (c in s.calls ==> s'.calls[c].run == s.calls[c].run && s'.calls[c].blocking == s.calls[c].blocking)
            && (e.Start? && e.c == c ==>
                  c !in s.calls && s'.calls[c].run == e.run && s'.calls[c].blocking == e.blocking)
  {
  }

  ghost predicate IsFinished<M, R>(s: State<M, R>, c: CallId, o: Outcome<R>) {
    c in s.calls && s.calls[c].pc == Finished(o)
  }

  /** The step before which the run was in `s` makes the call end in `o`. */
  ghost predicate EndsIn<M, R>(s: State<M, R>, e: Step<M, R>, c: CallId, o: Outcome<R>) {
    match o
    case ChannelSend => e == Push(c) && !s.alive
    case EventFdFull => e == Notify(c) && s.counter == EVENTFD_MAX
    case Queued => e == Notify(c) && s.counter < EVENTFD_MAX && c in s.calls && !s.calls[c].blocking
    case Value(r) => e == Return(c) && c in s.replies && s.replies[c] == r
    case ChannelRecv => e == Return(c) && c !in s.replies
  }

  /** Step number `j`, one of the first `i`, does so. */
  ghost predicate EndedAt<M, R>(run: seq<State<M, R>>, steps: seq<Step<M, R>>, i: nat, c: CallId, o: Outcome<R>,
                                j: int) {
    0 <= j < i <= |steps| && i <= |run| && EndsIn(run[j], steps[j], c, o)
  }

  /**
  Why calls end.  A call fails to send if and only if the manager was gone when it tried; it reports a full eventfd if
  and only if its own write met the maximum; `fire` succeeds if and only if its write did not; and `call_blocking`
  returns the reply, or reports that there is none, if and only if that is what it found.
  */
  lemma {:induction false} WhyFinished<M, R>(run: seq<State<M, R>>, steps: seq<Step<M, R>>, init: M, i: nat,
                                             c: CallId, o: Outcome<R>)
    requires IsRun(run, steps, init) && i < |run|
    ensures IsFinished(run[i], c, o) <==> exists j :: EndedAt(run, steps, i, c, o, j)
  {
    hide Init, Enabled, Apply, EndsIn, IsFinished, Inv;
    if i == 0 {
      NoneFinished(run[0], init, c, o);
    } else {
      WhyFinished(run, steps, init, i - 1, c, o);
      RunInv(run, steps, init, i - 1);
      StepFinishes(run[i - 1], steps[i - 1], init, c, o);
      if IsFinished(run[i - 1], c, o) {
        var j :| EndedAt(run, steps, i - 1, c, o, j);
        assert EndedAt(run, steps, i, c, o, j);
      }
      forall j | EndedAt(run, steps, i, c, o, j) && j < i - 1 ensures EndedAt(run, steps, i - 1, c, o, j) { }
      if EndsIn(run[i - 1], steps[i - 1], c, o) { assert EndedAt(run, steps, i, c, o, i - 1); }
    }
  }

  lemma NoneFinished<M, R>(s: State<M, R>, init: M, c: CallId, o: Outcome<R>)
    requires Init(s, init)
    ensures !IsFinished(s, c, o)
  {
  }

  lemma StepFinishes<M, R>(s: State<M, R>, e: Step<M, R>, init: M, c: CallId, o: Outcome<R>)
    requires Enabled(s, e) && Inv(s, init)
    ensures IsFinished(Apply(s, e), c, o) <==> IsFinished(s, c, o) || EndsIn(s, e, c, o)
  {
    hide Apply, Enabled, EndsIn;
    if OwnStep(e, c) {
      OwnStepFinishes(s, e, c, o);
    } else {
      OthersEndNothing(s, e, c, o);
      StepStarts(s, e, c);
      if c in s.calls { OtherStepKeeps(s, e, c); }
    }
  }

  lemma OthersEndNothing<M, R>(s: State<M, R>, e: Step<M, R>, c: CallId, o: Outcome<R>)
    requires !OwnStep(e, c)
    ensures !EndsIn(s, e, c, o)
  {
  }

  lemma OwnStepFinishes<M, R>(s: State<M, R>, e: Step<M, R>, c: CallId, o: Outcome<R>)
    requires Enabled(s, e) && OwnStep(e, c) && s.counter <= EVENTFD_MAX
    ensures IsFinished(Apply(s, e), c, o) <==> IsFinished(s, c, o) || EndsIn(s, e, c, o)
  {
  }

  /**
  A `call_blocking` that returns a value returns what the closure it was given computed, on the manager as all earlier
  closures and local changes had left it.  It fails only when the manager is gone, or when its own write met the
  maximum of the eventfd, and then the closure is not lost.
  */
  lemma OwnResult<M, R>(run: seq<State<M, R>>, steps: seq<Step<M, R>>, init: M, i: nat, c: CallId, first: nat)
    requires IsRun(run, steps, init) && i < |run| && Starts(steps, i, first, c) && steps[first].blocking
    requires c in run[i].calls && run[i].calls[c].pc.Finished?
    ensures var s, o, f := run[i], run[i].calls[c].pc.outcome, steps[first].run;
            && (o.Value? ==> exists k: nat :: k < |s.log| && s.log[k] == Remote(c, f)
                                           && o.r == f(Replay(init, s.log[..k])).1)
            && (!o.Value? && s.alive ==>
                  && o.EventFdFull? && c in s.sent
                  && exists j :: 0 <= j < i && steps[j] == Notify(c) && run[j].counter == EVENTFD_MAX)
  {
    hide Enabled, Apply, Replay, Ran;
    StartedWith(run, steps, init, i, c);
    RunInv(run, steps, init, i);
    var s, o := run[i], run[i].calls[c].pc.outcome;
    assert CallOk(s, c) && (c in s.sent <==> WasSent(s, c));
    if o.Value? {
      var k := RanWasAnswered(s, init, c);
    } else if o.EventFdFull? {
      WhyFinished(run, steps, init, i, c, EventFdFull);
      var j :| EndedAt(run, steps, i, c, EventFdFull, j);
      assert steps[j] == Notify(c);
    }
  }

  /** A full eventfd takes 2^64 - 2 writes that the manager has not read. */
  lemma FullMeansManyWrites<M, R>(run: seq<State<M, R>>, steps: seq<Step<M, R>>, init: M, i: nat, c: CallId)
    requires IsRun(run, steps, init) && i < |run| && IsFinished(run[i], c, EventFdFull)
    ensures exists j :: 0 <= j < i && steps[j] == Notify(c) && Writes(steps[..j]) >= 0xffff_ffff_ffff_fffe
  {
    WhyFinished(run, steps, init, i, c, EventFdFull);
    var j :| EndedAt(run, steps, i, c, EventFdFull, j);
    CountsWrites(run, steps, init, j);
    assert steps[j] == Notify(c);
  }

  // ----- Nobody gets stuck -----

  /**
  A manager that is not waiting in epoll always has a next step, a caller never has to wait before its message is
  sent and announced, and only for its reply after that.
  */
  lemma NobodyStuck<M, R>(s: State<M, R>, init: M, c: CallId)
    requires Inv(s, init)
    ensures s.manager.Polled? ==> Enabled(s, Clear)
    ensures s.manager.Draining? ==> Enabled(s, Receive) || Enabled(s, Sleep)
    ensures s.manager.Running? ==> Enabled(s, Finish)
    ensures s.alive && s.manager.Idle? ==> Enabled(s, Drop) && (Enabled(s, Poll) <==> s.watched && s.counter > 0)
    ensures s.alive && (s.manager.Idle? || s.manager.Polled?) ==> forall f :: Enabled(s, Other(f))
    ensures Enabled(s, Kick) && (s.alive ==> forall on :: Enabled(s, Watch(on)))
    ensures c !in s.calls ==> forall blocking, f :: Enabled(s, Start(c, blocking, f))
    ensures c in s.calls ==>
              match s.calls[c].pc
              case Ready => Enabled(s, Push(c))
              case Pushed => Enabled(s, Notify(c))
              case Waiting => Enabled(s, Return(c)) <==> c in s.replies || !s.alive
              case Finished(_) => true
  {
    if s.manager.Running? {
      assert s.sent[|Ran(s.log)|] == s.manager.c;
      assert WasSent(s, s.manager.c);
    }
  }

  /** A state with one call, whose closure is `f`. */
  function WithCall<M, R>(queue: seq<CallId>, counter: nat, manager: ManagerPc, mem: M, f: M -> (M, R), pc: CallPc<R>,
                          replies: map<CallId, R>, log: seq<Entry<M, R>>): State<M, R> {
    State(queue, counter, manager, mem, true, true, map[0 := Call(true, f, pc)], replies, [0], log, [])
  }

  function Serving<M, R>(init: M, f: M -> (M, R), manager: ManagerPc): State<M, R> {
    WithCall([], 0, manager, init, f, Waiting, map[], [])
  }

  lemma OneCallSent<M, R>(s: State<M, R>, init: M, f: M -> (M, R))
    requires Init(s, init)
    ensures var s1 := Apply(s, Start(0, true, f));
            && Enabled(s1, Push(0))
            && var s2 := Apply(s1, Push(0));
            && Enabled(s2, Notify(0))
            && Apply(s2, Notify(0)) == WithCall([0], 1, Idle, init, f, Waiting, map[], [])
  {
  }

  lemma OneCallServed<M, R>(s: State<M, R>, init: M, f: M -> (M, R))
    requires s == WithCall([0], 1, Idle, init, f, Waiting, map[], [])
    ensures Enabled(s, Poll)
    ensures var s1 := Apply(s, Poll);
            && Enabled(s1, Clear)
            && var s2 := Apply(s1, Clear);
            && Enabled(s2, Receive)
            && Apply(s2, Receive) == Serving(init, f, Running(0))
  {
  }

  lemma OneCallAnswered<M, R>(s: State<M, R>, init: M, f: M -> (M, R))
    requires s == Serving(init, f, Running(0))
    ensures Enabled(s, Finish)
    ensures var s1 := Apply(s, Finish);
            && Enabled(s1, Return(0))
            && Apply(s1, Return(0)) == WithCall([], 0, Draining, f(init).0, f, Finished(Value(f(init).1)),
                                                map[0 := f(init).1], [Remote(0, f)])
  {
  }

  /** The protocol at work: from a new channel to the closure's result. */
  lemma OneCall<M, R>(init: M, f: M -> (M, R)) returns (run: seq<State<M, R>>, steps: seq<Step<M, R>>)
    ensures IsRun(run, steps, init) && |steps| == 8 && steps[0] == Start(0, true, f)
    ensures IsFinished(run[8], 0, Value(f(init).1)) && run[8].mem == f(init).0 && run[8].counter == 0
  {
    var s0: State<M, R> := State([], 0, Idle, init, true, true, map[], map[], [], [], []);
    hide Enabled, Apply, Init;
    assert Init(s0, init) by { IsNew(s0, init); }
    StartsAnytime(s0, f);
    OneCallSent(s0, init, f);
    run, steps := OneMore([s0], [], init, Start(0, true, f));
    run, steps := OneMore(run, steps, init, Push(0));
    run, steps := OneMore(run, steps, init, Notify(0));
    OneCallServed(run[3], init, f);
    run, steps := OneMore(run, steps, init, Poll);
    run, steps := OneMore(run, steps, init, Clear);
    run, steps := OneMore(run, steps, init, Receive);
    OneCallAnswered(run[6], init, f);
    run, steps := OneMore(run, steps, init, Finish);
    run, steps := OneMore(run, steps, init, Return(0));
  }

  lemma IsNew<M, R>(s: State<M, R>, init: M)
    requires s == State([], 0, Idle, init, true, true, map[], map[], [], [], [])
    ensures Init(s, init)
  {
  }

  lemma OneMore<M, R>(run: seq<State<M, R>>, steps: seq<Step<M, R>>, init: M, e: Step<M, R>)
    returns (run': seq<State<M, R>>, steps': seq<Step<M, R>>)
    requires IsRun(run, steps, init) && Enabled(run[|run| - 1], e)
    ensures IsRun(run', steps', init) && run' == run + [Apply(run[|run| - 1], e)] && steps' == steps + [e]
  {
    hide Enabled, Apply, Init;
    run', steps' := run + [Apply(run[|run| - 1], e)], steps + [e];
    forall i | 0 <= i < |steps'| ensures Enabled(run'[i], steps'[i]) && run'[i + 1] == Apply(run'[i], steps'[i]) {
      if i < |steps| { assert Enabled(run[i], steps[i]) && run[i + 1] == Apply(run[i], steps[i]); }
    }
  }

  lemma StartsAnytime<M, R>(s: State<M, R>, f: M -> (M, R))
    requires 0 !in s.calls
    ensures Enabled(s, Start(0, true, f))
  {
  }
}
