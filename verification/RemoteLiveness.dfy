/**
What infinite, fair executions of the remote endpoint's protocol achieve.
*/
module RemoteLiveness {
  import opened RemoteEndpoint

  ghost predicate Unfolds<M, R>(t: nat -> State<M, R>, sched: nat -> Step<M, R>, init: M) {
    && Init(t(0), init)
    && (forall i: nat :: Enabled(t(i), sched(i)) && t(i + 1) == Apply(t(i), sched(i)))
  }

  /** An execution on which the manager is never dropped. */
  ghost predicate IsExecution<M, R>(t: nat -> State<M, R>, sched: nat -> Step<M, R>, init: M) {
    Unfolds(t, sched, init) && forall i: nat :: t(i).alive
  }

  predicate ManagerMoves<M, R>(e: Step<M, R>) {
    e.Poll? || e.Clear? || e.Skip? || e.Receive? || e.Sleep? || e.Finish?
  }

  predicate ManagerCanMove<M, R>(s: State<M, R>) {
    s.manager.Idle? ==> s.watched && s.counter > 0
  }

  /** The manager's thread moves again and again while it can; a thread that sent a message gets to write. */
  ghost predicate Fair<M, R>(t: nat -> State<M, R>, sched: nat -> Step<M, R>) {
    && (forall i: nat :: ManagerServed(t, sched, i))
    && (forall i: nat, c :: Announcing(t(i), c) ==> exists j: nat :: i <= j && !Announcing(t(j), c))
  }

  ghost predicate ManagerServed<M, R>(t: nat -> State<M, R>, sched: nat -> Step<M, R>, i: nat) {
    exists j: nat :: i <= j && (ManagerMoves(sched(j)) || !ManagerCanMove(t(j)))
  }

  /** From here on the eventfd stays registered. */
  ghost predicate WatchedFrom<M, R>(t: nat -> State<M, R>, i: nat) {
    forall k: nat :: i <= k ==> t(k).watched
  }

  /** A thread blocked in `recv` wakes up once its reply has been sent. */
  ghost predicate Receptive<M, R>(t: nat -> State<M, R>) {
    forall i: nat, c :: Answerable(t(i), c) ==> exists j: nat :: i <= j && !Answerable(t(j), c)
  }

  ghost predicate Answerable<M, R>(s: State<M, R>, c: CallId) {
    c in s.calls && s.calls[c].pc.Waiting? && c in s.replies
  }

  function Phase<M, R>(s: State<M, R>): nat {
    match s.manager
    case Running(_) => 0
    case Draining => 1
    case Polled => 2
    case Idle => if s.counter > 0 then 3 else 4
  }

  /** Message number `n` has run, or fewer than `v` units of work remain before it does. */
  ghost predicate Closer<M, R>(s: State<M, R>, n: nat, v: int) {
    n < |Ran(s.log)| || Work(s, n) < v
  }

  function Work<M, R>(s: State<M, R>, n: nat): int {
    5 * (n - |Ran(s.log)|) + Phase(s)
  }

  lemma {:induction false} ExecutionInv<M, R>(t: nat -> State<M, R>, sched: nat -> Step<M, R>, init: M, i: nat)
    requires Unfolds(t, sched, init)
    ensures Inv(t(i), init)
  {
    if i == 0 {
      InitInv(t(0), init);
    } else {
      ExecutionInv(t, sched, init, i - 1);
      StepInv(t(i - 1), sched(i - 1), init);
      assert t((i - 1) + 1) == Apply(t(i - 1), sched(i - 1));
    }
  }

  /** No step adds work; the manager's own steps, and a write that ends its sleep, take some away. */
  lemma StepWork<M, R>(s: State<M, R>, e: Step<M, R>, n: nat)
    requires Ordered(s) && s.dropped == [] && s.watched && Enabled(s, e) && !e.Drop? && n < |s.sent|
    ensures var s' := Apply(s, e);
            && s.sent <= s'.sent
            && (Closer(s', n, Work(s, n)) || (Work(s', n) == Work(s, n) && s'.manager == s.manager))
            && (ManagerMoves(e) ==> Closer(s', n, Work(s, n)))
            && (e.Notify? && Phase(s) == 4 ==> Closer(s', n, Work(s, n)))
  {
    hide Ran;
    match e {
      case Finish => RanAppend(s.log, Remote(s.manager.c, s.calls[s.manager.c].run));
      case Other(step) => RanAppend(s.log, Local(step));
      case _ =>
    }
  }

  lemma {:induction false} StaysCloser<M, R>(t: nat -> State<M, R>, sched: nat -> Step<M, R>, init: M,
                                             i: nat, j: nat, n: nat, v: int)
    requires IsExecution(t, sched, init) && WatchedFrom(t, i) && i <= j && n < |t(i).sent| && Closer(t(i), n, v)
    ensures n < |t(j).sent| && t(i).sent <= t(j).sent && Closer(t(j), n, v)
    decreases j - i
  {
    if i < j {
      ExecutionInv(t, sched, init, i);
      assert t(i + 1).alive;
      StepWork(t(i), sched(i), n);
      RanGrows(t(i), sched(i));
      StaysCloser(t, sched, init, i + 1, j, n, v);
    }
  }

  lemma RanGrows<M, R>(s: State<M, R>, e: Step<M, R>)
    requires Enabled(s, e)
    ensures |Ran(s.log)| <= |Ran(Apply(s, e).log)|
  {
    match e {
      case Finish => RanAppend(s.log, Remote(s.manager.c, s.calls[s.manager.c].run));
      case Other(step) => RanAppend(s.log, Local(step));
      case _ =>
    }
  }

  /** Until work is taken away, a manager that could move stays where it is and can still move. */
  lemma {:induction false} ManagerWaits<M, R>(t: nat -> State<M, R>, sched: nat -> Step<M, R>, init: M,
                                              i: nat, j: nat, n: nat)
    requires IsExecution(t, sched, init) && WatchedFrom(t, i) && i <= j && n < |t(i).sent|
    ensures n < |t(j).sent|
    ensures Closer(t(j), n, Work(t(i), n)) || (Work(t(j), n) == Work(t(i), n) && Phase(t(j)) == Phase(t(i)))
    decreases j - i
  {
    if i < j {
      ExecutionInv(t, sched, init, i);
      assert t(i + 1).alive;
      StepWork(t(i), sched(i), n);
      if Closer(t(i + 1), n, Work(t(i), n)) {
        StaysCloser(t, sched, init, i + 1, j, n, Work(t(i), n));
      } else {
        ManagerWaits(t, sched, init, i + 1, j, n);
      }
    }
  }

  /** Until work is taken away, a thread that has sent but not written stays that way. */
  lemma {:induction false} AnnouncerWaits<M, R>(t: nat -> State<M, R>, sched: nat -> Step<M, R>, init: M,
                                                i: nat, j: nat, n: nat, c: CallId)
    requires IsExecution(t, sched, init) && WatchedFrom(t, i) && i <= j && n < |t(i).sent|
    requires Phase(t(i)) == 4 && Announcing(t(i), c)
    ensures Closer(t(j), n, Work(t(i), n)) || Announcing(t(j), c)
    decreases j - i
  {
    if i < j {
      ExecutionInv(t, sched, init, i);
      assert t(i + 1).alive;
      StepWork(t(i), sched(i), n);
      if Closer(t(i + 1), n, Work(t(i), n)) {
        StaysCloser(t, sched, init, i + 1, j, n, Work(t(i), n));
      } else {
        AnnouncerWaits(t, sched, init, i + 1, j, n, c);
      }
    }
  }

  lemma Progress<M, R>(t: nat -> State<M, R>, sched: nat -> Step<M, R>, init: M, i: nat, n: nat) returns (j: nat)
    requires IsExecution(t, sched, init) && Fair(t, sched) && WatchedFrom(t, i)
    requires |Ran(t(i).log)| <= n < |t(i).sent|
    ensures i <= j && Closer(t(j), n, Work(t(i), n))
  {
    hide Enabled, Apply, Inv, Ran, Work, Closer, Announcing;
    ExecutionInv(t, sched, init, i);
    if Phase(t(i)) == 4 {
      var c := SomeoneAnnounces(t(i), init, n);
      j :| i <= j && !Announcing(t(j), c);
      AnnouncerWaits(t, sched, init, i, j, n, c);
    } else {
      j := ManagerProgress(t, sched, init, i, n);
    }
  }

  /** A manager that sleeps on a counter of zero has messages waiting only because a write is still to come. */
  lemma SomeoneAnnounces<M, R>(s: State<M, R>, init: M, n: nat) returns (c: CallId)
    requires Inv(s, init) && s.alive && Phase(s) == 4 && |Ran(s.log)| <= n < |s.sent|
    ensures Announcing(s, c)
  {
    hide Ran, Answered, SentOnce, Announcing;
    assert Awake(s) && s.queue != [] by { assert Ordered(s) && Lifetimes(s); }
    c :| Announcing(s, c);
  }

  lemma ManagerProgress<M, R>(t: nat -> State<M, R>, sched: nat -> Step<M, R>, init: M, i: nat, n: nat)
    returns (j: nat)
    requires IsExecution(t, sched, init) && Fair(t, sched) && WatchedFrom(t, i)
    requires |Ran(t(i).log)| <= n < |t(i).sent| && Phase(t(i)) != 4
    ensures i <= j && Closer(t(j), n, Work(t(i), n))
  {
    hide Inv, Ran, Work;
    assert ManagerServed(t, sched, i);
    j :| i <= j && (ManagerMoves(sched(j)) || !ManagerCanMove(t(j)));
    ManagerWaits(t, sched, init, i, j, n);
    if !Closer(t(j), n, Work(t(i), n)) {
      StepCloser(t, sched, init, j, n);
      j := j + 1;
    }
  }

  lemma StepCloser<M, R>(t: nat -> State<M, R>, sched: nat -> Step<M, R>, init: M, j: nat, n: nat)
    requires IsExecution(t, sched, init) && t(j).watched && n < |t(j).sent| && ManagerMoves(sched(j))
    ensures Closer(t(j + 1), n, Work(t(j), n))
  {
    hide Ran, Work, Closer, Enabled, Apply, Answered, SentOnce, Ordered, Awake;
    ExecutionInv(t, sched, init, j);
    assert t(j + 1) == Apply(t(j), sched(j)) && t(j + 1).alive && t(j).alive;
    DropEnds(t(j), sched(j));
    StepWork(t(j), sched(j), n);
  }

  lemma DropEnds<M, R>(s: State<M, R>, e: Step<M, R>)
    requires Enabled(s, e) && Apply(s, e).alive
    ensures !e.Drop?
  {
  }

  /** On every fair execution on which the eventfd stays registered, every message sent is eventually run. */
  lemma {:induction false} EventuallyRuns<M, R>(t: nat -> State<M, R>, sched: nat -> Step<M, R>, init: M,
                                                i: nat, n: nat) returns (j: nat)
    requires IsExecution(t, sched, init) && Fair(t, sched) && WatchedFrom(t, i) && n < |t(i).sent|
    ensures i <= j && n < |Ran(t(j).log)| && n < |t(j).sent| && Ran(t(j).log)[n] == t(i).sent[n]
    decreases if n < |Ran(t(i).log)| then 0 else 1 + Work(t(i), n)
  {
    ExecutionInv(t, sched, init, i);
    if n < |Ran(t(i).log)| {
      j := i;
      assert t(i).sent[n] == Ran(t(i).log)[n];
    } else {
      var k := Progress(t, sched, init, i, n);
      StaysCloser(t, sched, init, i, k, n, Work(t(i), n) + 1);
      j := EventuallyRuns(t, sched, init, k, n);
    }
  }

  /** On those executions every `call_blocking` that got as far as waiting returns with a value. */
  lemma CallBlockingReturns<M, R>(t: nat -> State<M, R>, sched: nat -> Step<M, R>, init: M,
                                  i: nat, c: CallId) returns (j: nat)
    requires IsExecution(t, sched, init) && Fair(t, sched) && Receptive(t) && WatchedFrom(t, i)
    requires c in t(i).calls && t(i).calls[c].pc.Waiting?
    ensures i <= j && c in t(j).calls && t(j).calls[c].pc.Finished? && t(j).calls[c].pc.outcome.Value?
  {
    ExecutionInv(t, sched, init, i);
    assert WasSent(t(i), c);
    var n :| 0 <= n < |t(i).sent| && t(i).sent[n] == c;
    var k := EventuallyRuns(t, sched, init, i, n);
    ExecutionInv(t, sched, init, k);
    StillWaiting(t, sched, init, i, k, c);
    var _ := RanWasAnswered(t(k), init, c);
    assert CallOk(t(k), c);
    if t(k).calls[c].pc.Waiting? {
      assert Answerable(t(k), c);
      j :| k <= j && !Answerable(t(j), c);
      StillWaiting(t, sched, init, k, j, c);
      RepliesStay(t, sched, k, j, c);
    } else {
      j := k;
    }
  }

  /** The write of call `c` does not meet the maximum of the eventfd. */
  ghost predicate WriteFits<M, R>(t: nat -> State<M, R>, sched: nat -> Step<M, R>, c: CallId) {
    forall k: nat :: sched(k) == Notify(c) ==> t(k).counter < EVENTFD_MAX
  }

  /** A thread that entered a call gets to send. */
  ghost predicate Prompt<M, R>(t: nat -> State<M, R>) {
    forall i: nat, c :: Entering(t(i), c) ==> exists j: nat :: i <= j && !Entering(t(j), c)
  }

  predicate Entering<M, R>(s: State<M, R>, c: CallId) {
    c in s.calls && s.calls[c].pc.Ready?
  }

  /** The call has its own closure's result, on the manager as all that came before had left it. */
  ghost predicate HasOwnResult<M, R>(s: State<M, R>, init: M, c: CallId) {
    && c in s.calls && s.calls[c].pc.Finished? && s.calls[c].pc.outcome.Value?
    && exists k: nat :: k < |s.log| && s.log[k] == Remote(c, s.calls[c].run)
                     && s.calls[c].pc.outcome.r == s.calls[c].run(Replay(init, s.log[..k])).1
  }

  lemma ValueIsOwnResult<M, R>(s: State<M, R>, init: M, c: CallId)
    requires Inv(s, init) && c in s.calls && s.calls[c].pc.Finished? && s.calls[c].pc.outcome.Value?
    ensures HasOwnResult(s, init, c)
  {
    assert CallOk(s, c);
    var k := RanWasAnswered(s, init, c);
  }

  /** The first moment from `i` on at which the call has left the state it was in at `i`. */
  lemma {:induction false} FirstChange<M, R>(t: nat -> State<M, R>, sched: nat -> Step<M, R>, init: M,
                                             i: nat, j: nat, c: CallId) returns (k: nat)
    requires Unfolds(t, sched, init) && i <= j && c in t(i).calls
    requires c in t(j).calls ==> t(j).calls[c].pc != t(i).calls[c].pc
    ensures i <= k < j && t(k).calls.Keys >= {c} && t(k).calls[c] == t(i).calls[c] && OwnStep(sched(k), c)
    decreases j - i
  {
    hide Enabled, Apply, OwnStep;
    if OwnStep(sched(i), c) {
      k := i;
      assert i < j;
    } else {
      ExecutionInv(t, sched, init, i);
      assert t(i + 1) == Apply(t(i), sched(i));
      OtherStepKeeps(t(i), sched(i), c);
      k := FirstChange(t, sched, init, i + 1, j, c);
    }
  }

  lemma NotifyEnds<M, R>(s: State<M, R>, e: Step<M, R>, c: CallId)
    requires Enabled(s, e) && OwnStep(e, c) && Announcing(s, c)
    ensures e == Notify(c)
    ensures var s' := Apply(s, e);
            && c in s'.calls && s'.calls[c].blocking == s.calls[c].blocking && s'.calls[c].run == s.calls[c].run
            && (s.counter < EVENTFD_MAX ==>
                  s'.calls[c].pc == if s.calls[c].blocking then Waiting else Finished(Queued))
  {
  }

  lemma PushEnds<M, R>(s: State<M, R>, e: Step<M, R>, c: CallId)
    requires Enabled(s, e) && OwnStep(e, c) && Entering(s, c) && s.alive
    ensures var s' := Apply(s, e);
            && Announcing(s', c) && s'.calls[c].blocking == s.calls[c].blocking && s'.calls[c].run == s.calls[c].run
  {
  }

  /**
  On those executions every message that got into the channel has its effect on the caller too, unless the eventfd
  was full: `call_blocking` returns its own closure's result and `fire` succeeds.
  */
  lemma SentCallReturns<M, R>(t: nat -> State<M, R>, sched: nat -> Step<M, R>, init: M,
                              i: nat, c: CallId) returns (j: nat)
    requires IsExecution(t, sched, init) && Fair(t, sched) && Receptive(t) && WatchedFrom(t, i)
    requires Announcing(t(i), c) && WriteFits(t, sched, c)
    ensures i <= j && c in t(j).calls
    ensures if t(i).calls[c].blocking then HasOwnResult(t(j), init, c) else t(j).calls[c].pc == Finished(Queued)
  {
    hide Enabled, Apply, OwnStep, HasOwnResult, Ran, Replay;
    var away: nat :| i <= away && !Announcing(t(away), c);
    var k := FirstChange(t, sched, init, i, away, c);
    assert t(k + 1) == Apply(t(k), sched(k));
    NotifyEnds(t(k), sched(k), c);
    if t(i).calls[c].blocking {
      j := CallBlockingReturns(t, sched, init, k + 1, c);
      ExecutionInv(t, sched, init, j);
      ValueIsOwnResult(t(j), init, c);
    } else {
      j := k + 1;
    }
  }

  /** So does every call, from the moment it is entered. */
  lemma CallReturns<M, R>(t: nat -> State<M, R>, sched: nat -> Step<M, R>, init: M, i: nat, c: CallId) returns (j: nat)
    requires IsExecution(t, sched, init) && Fair(t, sched) && Receptive(t) && Prompt(t) && WatchedFrom(t, i)
    requires Entering(t(i), c) && WriteFits(t, sched, c)
    ensures i <= j && c in t(j).calls
    ensures if t(i).calls[c].blocking then HasOwnResult(t(j), init, c) else t(j).calls[c].pc == Finished(Queued)
  {
    hide Enabled, Apply, OwnStep, HasOwnResult;
    var away: nat :| i <= away && !Entering(t(away), c);
    var k := FirstChange(t, sched, init, i, away, c);
    assert t(k + 1) == Apply(t(k), sched(k)) && t(k).alive;
    PushEnds(t(k), sched(k), c);
    j := SentCallReturns(t, sched, init, k + 1, c);
  }

  predicate Committed<M, R>(s: State<M, R>, c: CallId) {
    c in s.calls && (s.calls[c].pc.Waiting? || (s.calls[c].pc.Finished? && s.calls[c].pc.outcome.Value?))
  }

  lemma StepCommitted<M, R>(s: State<M, R>, e: Step<M, R>, c: CallId)
    requires Enabled(s, e) && s.alive && Committed(s, c)
    ensures Committed(Apply(s, e), c)
  {
  }

  lemma {:induction false} StillWaiting<M, R>(t: nat -> State<M, R>, sched: nat -> Step<M, R>, init: M,
                                              i: nat, j: nat, c: CallId)
    requires IsExecution(t, sched, init) && i <= j && Committed(t(i), c)
    ensures Committed(t(j), c)
    decreases j - i
  {
    if i < j {
      StepCommitted(t(i), sched(i), c);
      StillWaiting(t, sched, init, i + 1, j, c);
    }
  }

  lemma {:induction false} RepliesStay<M, R>(t: nat -> State<M, R>, sched: nat -> Step<M, R>, i: nat, j: nat, c: CallId)
    requires (forall k: nat :: Enabled(t(k), sched(k)) && t(k + 1) == Apply(t(k), sched(k)))
    requires i <= j && c in t(i).replies
    ensures c in t(j).replies
    decreases j - i
  {
    if i < j { RepliesStay(t, sched, i + 1, j, c); }
  }

  // ----- Without the registration -----

  ghost predicate UnwatchedFrom<M, R>(t: nat -> State<M, R>, i: nat) {
    forall k: nat :: i <= k ==> !t(k).watched
  }

  /** A manager that waits in epoll without the eventfd never gets to the channel again. */
  lemma {:induction false} UnwatchedStaysIdle<M, R>(t: nat -> State<M, R>, sched: nat -> Step<M, R>, init: M,
                                                    i: nat, j: nat)
    requires IsExecution(t, sched, init) && UnwatchedFrom(t, i) && t(i).manager.Idle? && i <= j
    ensures t(j).manager.Idle? && Ran(t(j).log) == Ran(t(i).log) && t(j).replies == t(i).replies
    decreases j - i
  {
    if i < j {
      var s, e := t(i), sched(i);
      assert t(i + 1) == Apply(s, e) && t(i + 1).alive && !s.watched;
      if e.Other? { RanAppend(s.log, Local(e.step)); }
      UnwatchedStaysIdle(t, sched, init, i + 1, j);
    }
  }

  /**
  With the manager waiting in epoll and the registration not changing any more, a pending message is run if and
  only if the eventfd is registered.
  */
  lemma RunsIffWatched<M, R>(t: nat -> State<M, R>, sched: nat -> Step<M, R>, init: M, i: nat, n: nat)
    requires IsExecution(t, sched, init) && Fair(t, sched) && (WatchedFrom(t, i) || UnwatchedFrom(t, i))
    requires t(i).manager.Idle? && |Ran(t(i).log)| <= n < |t(i).sent|
    ensures (exists j: nat :: i <= j && n < |Ran(t(j).log)|) <==> t(i).watched
  {
    if t(i).watched {
      var j := EventuallyRuns(t, sched, init, i, n);
    } else {
      forall j: nat | i <= j ensures |Ran(t(j).log)| <= n { UnwatchedStaysIdle(t, sched, init, i, j); }
    }
  }

  /** So does a waiting `call_blocking` return, if and only if the eventfd is registered. */
  lemma ReturnsIffWatched<M, R>(t: nat -> State<M, R>, sched: nat -> Step<M, R>, init: M, i: nat, c: CallId)
    requires IsExecution(t, sched, init) && Fair(t, sched) && Receptive(t)
    requires (WatchedFrom(t, i) || UnwatchedFrom(t, i)) && t(i).manager.Idle?
    requires c in t(i).calls && t(i).calls[c].pc.Waiting? && c !in t(i).replies
    ensures (exists j: nat :: i <= j && c in t(j).calls && t(j).calls[c].pc.Finished?) <==> t(i).watched
  {
    if t(i).watched {
      var j := CallBlockingReturns(t, sched, init, i, c);
    } else {
      forall j: nat | i <= j ensures c in t(j).calls && t(j).calls[c].pc.Waiting? {
        WaitsForEver(t, sched, init, i, j, c);
      }
    }
  }

  lemma {:induction false} WaitsForEver<M, R>(t: nat -> State<M, R>, sched: nat -> Step<M, R>, init: M,
                                              i: nat, j: nat, c: CallId)
    requires IsExecution(t, sched, init) && UnwatchedFrom(t, i) && t(i).manager.Idle? && i <= j
    requires c in t(i).calls && t(i).calls[c].pc.Waiting? && c !in t(i).replies
    ensures c in t(j).calls && t(j).calls[c].pc.Waiting?
    decreases j - i
  {
    if i < j {
      assert t(i).alive && t(i + 1) == Apply(t(i), sched(i)) && t(i + 1).alive;
      UnwatchedStaysIdle(t, sched, init, i, i + 1);
      WaitsForEver(t, sched, init, i + 1, j, c);
    }
  }

  // ----- Going back to sleep -----

  ghost predicate QuietFrom<M, R>(sched: nat -> Step<M, R>, i: nat) {
    forall k: nat :: i <= k ==> !sched(k).Push? && !sched(k).Notify? && !sched(k).Kick?
  }

  predicate Asleep<M, R>(s: State<M, R>) {
    s.manager.Idle? && s.counter == 0
  }

  /** What is left to do before the manager can sleep. */
  function Chores<M, R>(s: State<M, R>): nat {
    6 * |Outstanding(s)| + (if s.counter > 0 then 4 else 0) +
    match s.manager
    case Draining => 2
    case Idle => 1
    case _ => 0
  }

  lemma StepChores<M, R>(s: State<M, R>, e: Step<M, R>, init: M)
    requires Inv(s, init) && s.alive && s.watched && Enabled(s, e)
    requires !e.Push? && !e.Notify? && !e.Kick? && !e.Drop?
    ensures var s' := Apply(s, e);
            && Chores(s') <= Chores(s) && (ManagerMoves(e) ==> Chores(s') < Chores(s))
            && (Asleep(s) ==> Asleep(s'))
  {
    if e.Finish? {
      assert Outstanding(s) == [s.manager.c] + Outstanding(Apply(s, e));
    } else {
      OutstandingStep(s, e);
    }
  }

  lemma {:induction false} ChoresFall<M, R>(t: nat -> State<M, R>, sched: nat -> Step<M, R>, init: M, i: nat, j: nat)
    requires IsExecution(t, sched, init) && WatchedFrom(t, i) && QuietFrom(sched, i) && i <= j
    ensures Chores(t(j)) <= Chores(t(i)) && (Asleep(t(i)) ==> Asleep(t(j)))
    decreases j - i
  {
    hide Enabled, Apply, Inv, Chores, Asleep;
    if i < j {
      QuietStep(t, sched, init, i);
      ChoresFall(t, sched, init, i + 1, j);
    }
  }

  lemma QuietStep<M, R>(t: nat -> State<M, R>, sched: nat -> Step<M, R>, init: M, i: nat)
    requires IsExecution(t, sched, init) && WatchedFrom(t, i) && QuietFrom(sched, i)
    ensures Chores(t(i + 1)) <= Chores(t(i)) && (ManagerMoves(sched(i)) ==> Chores(t(i + 1)) < Chores(t(i)))
    ensures Asleep(t(i)) ==> Asleep(t(i + 1))
  {
    hide Enabled, Apply, Inv, Chores, Asleep, ManagerMoves;
    ExecutionInv(t, sched, init, i);
    assert t(i).alive && t(i + 1).alive && t(i + 1) == Apply(t(i), sched(i)) && t(i).watched;
    DropEnds(t(i), sched(i));
    StepChores(t(i), sched(i), init);
  }

  /**
  Once nobody sends or kicks any more, the manager finishes what there is, goes back to wait in epoll with the eventfd
  read, and stays there: it does not spin.
  */
  lemma {:induction false} GoesToSleep<M, R>(t: nat -> State<M, R>, sched: nat -> Step<M, R>, init: M, i: nat)
    returns (j: nat)
    requires IsExecution(t, sched, init) && Fair(t, sched) && WatchedFrom(t, i) && QuietFrom(sched, i)
    ensures i <= j && forall k: nat :: j <= k ==> Asleep(t(k))
    decreases Chores(t(i))
  {
    hide Enabled, Apply, Inv, Chores, Ran;
    assert ManagerServed(t, sched, i);
    var k: nat :| i <= k && (ManagerMoves(sched(k)) || !ManagerCanMove(t(k)));
    ChoresFall(t, sched, init, i, k);
    if ManagerMoves(sched(k)) {
      QuietStep(t, sched, init, k);
      j := GoesToSleep(t, sched, init, k + 1);
    } else {
      assert t(k).watched;
      j := k;
      forall n: nat | j <= n ensures Asleep(t(n)) { ChoresFall(t, sched, init, j, n); }
    }
  }

  // ----- After the manager is gone -----

  function StepsLeft<R>(pc: CallPc<R>): nat {
    match pc
    case Ready => 3
    case Pushed => 2
    case Waiting => 1
    case Finished(_) => 0
  }

  /** Every thread in an unfinished call gets to move. */
  ghost predicate CallersMove<M, R>(t: nat -> State<M, R>, sched: nat -> Step<M, R>) {
    forall i: nat, c :: Unfinished(t(i), c) ==> exists j: nat :: i <= j && OwnStep(sched(j), c)
  }

  predicate Unfinished<M, R>(s: State<M, R>, c: CallId) {
    c in s.calls && !s.calls[c].pc.Finished?
  }

  lemma OwnStepAdvances<M, R>(s: State<M, R>, e: Step<M, R>, c: CallId)
    requires Enabled(s, e) && OwnStep(e, c) && c in s.calls
    ensures c in Apply(s, e).calls && StepsLeft(Apply(s, e).calls[c].pc) < StepsLeft(s.calls[c].pc)
  {
  }

  lemma GoneForGood<M, R>(s: State<M, R>, e: Step<M, R>)
    requires Enabled(s, e) && !s.alive
    ensures !Apply(s, e).alive
  {
  }

  /** Nobody waits for a manager that was dropped: every call ends, whatever state it is in. */
  lemma {:induction false} EndsAfterDrop<M, R>(t: nat -> State<M, R>, sched: nat -> Step<M, R>, init: M,
                                               i: nat, c: CallId) returns (j: nat)
    requires Unfolds(t, sched, init) && CallersMove(t, sched) && !t(i).alive && c in t(i).calls
    ensures i <= j && c in t(j).calls && t(j).calls[c].pc.Finished?
    decreases StepsLeft(t(i).calls[c].pc)
  {
    hide Enabled, Apply, OwnStep;
    if Unfinished(t(i), c) {
      var k: nat :| i <= k && OwnStep(sched(k), c);
      var n := NextOwnStep(t, sched, init, i, k, c);
      assert t(n + 1) == Apply(t(n), sched(n));
      OwnStepAdvances(t(n), sched(n), c);
      GoneForGood(t(n), sched(n));
      j := EndsAfterDrop(t, sched, init, n + 1, c);
    } else {
      j := i;
    }
  }

  lemma {:induction false} NextOwnStep<M, R>(t: nat -> State<M, R>, sched: nat -> Step<M, R>, init: M,
                                             i: nat, k: nat, c: CallId) returns (n: nat)
    requires Unfolds(t, sched, init) && i <= k && OwnStep(sched(k), c) && c in t(i).calls && !t(i).alive
    ensures i <= n <= k && OwnStep(sched(n), c) && c in t(n).calls && t(n).calls[c] == t(i).calls[c] && !t(n).alive
    decreases k - i
  {
    hide Enabled, Apply, OwnStep;
    if OwnStep(sched(i), c) {
      n := i;
    } else {
      ExecutionInv(t, sched, init, i);
      assert t(i + 1) == Apply(t(i), sched(i));
      OtherStepKeeps(t(i), sched(i), c);
      GoneForGood(t(i), sched(i));
      n := NextOwnStep(t, sched, init, i + 1, k, c);
    }
  }
}
