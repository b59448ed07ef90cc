/**
Publishing memory maps: readers take snapshots of a shared pointer, writers replace the map under a mutex.
Every interleaving of the steps of any number of threads is a run of the state machine below.
*/
module GuestMemoryAtomics {
  import opened Basics
  import opened GuestRegions

  type Tid = nat
  type SnapshotId = nat
  type Map = seq<Region>

  datatype Update = Insert(region: Region) | Remove(base: nat, size: nat)

  predicate ValidUpdate(u: Update) {
    u.Insert? ==> ValidRegion(u.region)
  }

  function Apply(m: Map, u: Update): (r: Result<Map, CollectionError>)
    requires Ordered(m) && ValidUpdate(u)
    ensures r.Ok? ==> Ordered(r.value)
  {
    match u
    case Insert(region) =>
      InsertExact(m, region);
      InsertRegion(m, region)
    case Remove(base, size) =>
      RemoveExact(m, base, size);
      match RemoveRegion(m, base, size)
      case Ok((rest, _)) => Ok(rest)
      case Err(e) => Err(e)
  }

  /**
  Where a thread is.  `Early` threads have loaded the map without holding the lock, `Loaded` threads hold the
  lock and have a map to start from, `Stored` threads have published their map but not yet released the lock.
  `version` is how many maps had been published at the load.
  */
  datatype Phase = Idle | Early(base: Map, version: nat) | Locked | Loaded(base: Map, version: nat) | Stored

  /** A snapshot, and how many maps had been published when it was taken. */
  datatype Snapshot = Snapshot(map_: Map, version: nat)

  /**
  The shared pointer and the mutex; the threads and the snapshots they hold; and, for reasoning, all maps that
  have ever been current and, for each published map, the update, the map it was computed from and its version.
  */
  datatype State = State(
    current: Map,
    holder: Option<Tid>,
    poisoned: bool,
    phases: map<Tid, Phase>,
    snapshots: map<SnapshotId, Snapshot>,
    history: seq<Map>,
    commits: seq<Update>,
    bases: seq<Map>,
    versions: seq<nat>)

  datatype Action =
    | Load(t: Tid)
    | Lock(t: Tid)
    | Replace(t: Tid, update: Update)
    | Unlock(t: Tid)
    | Panic(t: Tid)
    | Take(id: SnapshotId)
    | Clone(id: SnapshotId, copy: SnapshotId)
    | Release(id: SnapshotId)

  function PhaseOf(s: State, t: Tid): Phase {
    if t in s.phases then s.phases[t] else Idle
  }

  predicate Holding(p: Phase) {
    p.Locked? || p.Loaded? || p.Stored?
  }

  predicate Based(p: Phase) {
    p.Early? || p.Loaded?
  }

  function Init(m: Map): State {
    State(m, None, false, map[], map[], [m], [], [], [])
  }

  predicate Enabled(s: State, a: Action) {
    match a
    case Load(t) => PhaseOf(s, t).Idle? || PhaseOf(s, t).Early? || PhaseOf(s, t).Locked? || PhaseOf(s, t).Loaded?
    case Lock(t) => s.holder.None? && !Holding(PhaseOf(s, t))
    case Replace(t, u) =>
      PhaseOf(s, t).Loaded? && ValidUpdate(u) && Ordered(PhaseOf(s, t).base) && Apply(PhaseOf(s, t).base, u).Ok?
    case Unlock(t) => Holding(PhaseOf(s, t))
    case Panic(t) => Holding(PhaseOf(s, t))
    case Take(id) => id !in s.snapshots
    case Clone(id, copy) => id in s.snapshots && copy !in s.snapshots
    case Release(id) => id in s.snapshots
  }

  function Step(s: State, a: Action): State
    requires Enabled(s, a)
  {
    match a
    case Load(t) =>
      var n := |s.commits|;
      s.(phases := s.phases[t := if Holding(PhaseOf(s, t)) then Loaded(s.current, n) else Early(s.current, n)])
    case Lock(t) =>
      var p := PhaseOf(s, t);
      s.(holder := Some(t), phases := s.phases[t := if p.Early? then Loaded(p.base, p.version) else Locked])
    case Replace(t, u) =>
      var base := PhaseOf(s, t).base;
      var next := Apply(base, u).value;
      s.(current := next, phases := s.phases[t := Stored],
         history := s.history + [next], commits := s.commits + [u],
         bases := s.bases + [base], versions := s.versions + [PhaseOf(s, t).version])
    case Unlock(t) => s.(holder := None, phases := s.phases[t := Idle])
    case Panic(t) => s.(holder := None, poisoned := true, phases := s.phases[t := Idle])
    case Take(id) => s.(snapshots := s.snapshots[id := Snapshot(s.current, |s.commits|)])
    case Clone(id, copy) => s.(snapshots := s.snapshots[copy := s.snapshots[id]])
    case Release(id) => s.(snapshots := s.snapshots - {id})
  }

  predicate Legal(s: State, run: seq<Action>)
    decreases |run|
  {
    run == [] || (Enabled(s, run[0]) && Legal(Step(s, run[0]), run[1..]))
  }

  function After(s: State, run: seq<Action>): State
    requires Legal(s, run)
    decreases |run|
  {
    if run == [] then s else After(Step(s, run[0]), run[1..])
  }

  // ----- What every run keeps -----

  ghost predicate Exclusive(s: State) {
    forall t :: t in s.phases ==> (Holding(s.phases[t]) <==> s.holder == Some(t))
  }

  /** Maps are only ever computed from maps that were current, and are always sorted and disjoint. */
  ghost predicate Recorded(s: State) {
    && |s.history| == |s.commits| + 1 == |s.bases| + 1 == |s.versions| + 1
    && s.current == s.history[|s.commits|]
    && (forall k :: 0 <= k < |s.history| ==> Ordered(s.history[k]))
    && (forall k :: 0 <= k < |s.commits| ==> Published(s, k))
    && (forall t :: t in s.phases && Based(s.phases[t]) ==>
          s.phases[t].version < |s.history| && s.phases[t].base == s.history[s.phases[t].version])
  }

  ghost predicate Published(s: State, k: int)
    requires 0 <= k < |s.commits| == |s.bases| == |s.versions| && |s.history| == |s.commits| + 1
  {
    && s.versions[k] <= k && s.bases[k] == s.history[s.versions[k]]
    && Ordered(s.bases[k]) && ValidUpdate(s.commits[k]) && Apply(s.bases[k], s.commits[k]) == Ok(s.history[k + 1])
  }

  /** A held snapshot is the map that was current when it was taken. */
  ghost predicate OnceCurrent(s: State) {
    forall id :: id in s.snapshots ==>
                   s.snapshots[id].version < |s.history| && s.snapshots[id].map_ == s.history[s.snapshots[id].version]
  }

  ghost predicate Inv(s: State) {
    (s.holder.Some? ==> s.holder.value in s.phases) && Exclusive(s) && Recorded(s) && OnceCurrent(s)
  }

  lemma StepRecorded(s: State, a: Action)
    requires Recorded(s) && Enabled(s, a)
    ensures Recorded(Step(s, a))
  {
    hide Apply, Ordered;
    var s' := Step(s, a);
    if a.Replace? {
      var n := |s.commits|;
      assert s'.history[n] == s.history[n];
      forall k | 0 <= k <= n ensures Published(s', k) {
        if k < n { assert Published(s, k); }
      }
    } else {
      forall k | 0 <= k < |s.commits| ensures Published(s', k) { assert Published(s, k); }
    }
  }

  lemma StepInv(s: State, a: Action)
    requires Inv(s) && Enabled(s, a)
    ensures Inv(Step(s, a))
  {
    hide Apply, Ordered, Recorded, Enabled;
    StepRecorded(s, a);
    StepExclusive(s, a);
    StepOnceCurrent(s, a);
  }

  lemma StepExclusive(s: State, a: Action)
    requires Exclusive(s) && Enabled(s, a) && (s.holder.Some? ==> s.holder.value in s.phases)
    ensures Exclusive(Step(s, a)) && (Step(s, a).holder.Some? ==> Step(s, a).holder.value in Step(s, a).phases)
  {
  }

  lemma StepOnceCurrent(s: State, a: Action)
    requires OnceCurrent(s) && Recorded(s) && Enabled(s, a)
    ensures OnceCurrent(Step(s, a))
  {
    hide Apply, Ordered;
  }

  /** In every run, whatever the writers do, each map in use is a sorted, disjoint collection that was once current. */
  lemma {:induction false} RunInv(s: State, run: seq<Action>)
    requires Inv(s) && Legal(s, run)
    ensures Inv(After(s, run))
    decreases |run|
  {
    hide Inv, Enabled, Step;
    if run != [] {
      StepInv(s, run[0]);
      RunInv(Step(s, run[0]), run[1..]);
    }
  }

  lemma InitInv(m: Map)
    requires Ordered(m)
    ensures Inv(Init(m)) && Linked(Init(m)) && Fresh(Init(m))
  {
  }

  predicate Releases(run: seq<Action>, id: SnapshotId) {
    exists i :: 0 <= i < |run| && run[i] == Release(id)
  }

  lemma {:induction false} SnapshotsStay(s: State, run: seq<Action>, id: SnapshotId)
    requires Legal(s, run) && id in s.snapshots && !Releases(run, id)
    ensures id in After(s, run).snapshots && After(s, run).snapshots[id] == s.snapshots[id]
    decreases |run|
  {
    if run != [] {
      assert run[0] != Release(id);
      forall i | 0 <= i < |run[1..]| ensures run[1..][i] != Release(id) { assert run[i + 1] != Release(id); }
      SnapshotsStay(Step(s, run[0]), run[1..], id);
    }
  }

  /**
  A reader that takes a snapshot in the middle of a run, and holds on to it, keeps seeing the map that was current
  then, whole, sorted and disjoint, whatever is published afterwards.
  */
  lemma ReaderSeesOneMap(m: Map, before: seq<Action>, id: SnapshotId, after: seq<Action>)
    requires Ordered(m) && Legal(Init(m), before) && Enabled(After(Init(m), before), Take(id))
    requires Legal(Step(After(Init(m), before), Take(id)), after) && !Releases(after, id)
    ensures var taken := After(Init(m), before);
            var now := After(Step(taken, Take(id)), after);
            id in now.snapshots && now.snapshots[id].map_ == taken.current && Ordered(now.snapshots[id].map_)
  {
    hide Ordered, Legal, After, Enabled;
    InitInv(m);
    RunInv(Init(m), before);
    SnapshotsStay(Step(After(Init(m), before), Take(id)), after, id);
  }

  // ----- Lost updates -----

  /** Each published map is its predecessor with one update applied: no update is lost. */
  ghost predicate Linked(s: State) {
    forall k :: 0 <= k < |s.commits| && k + 1 < |s.history| ==> LinkAt(s, k)
  }

  ghost predicate LinkAt(s: State, k: int)
    requires 0 <= k < |s.commits| && k + 1 < |s.history|
  {
    Ordered(s.history[k]) && ValidUpdate(s.commits[k]) && Apply(s.history[k], s.commits[k]) == Ok(s.history[k + 1])
  }

  /** Updates are injective: what a map was computed from can be told from the map and the update. */
  lemma ApplyInjective(m: Map, n: Map, u: Update)
    requires Ordered(m) && Ordered(n) && ValidUpdate(u) && Apply(m, u).Ok? && Apply(m, u) == Apply(n, u)
    ensures m == n
  {
    match u
    case Insert(r) =>
      RemoveUndoesInsert(m, r);
      RemoveUndoesInsert(n, r);
    case Remove(base, size) =>
      RemovedFrom(m, base, size);
      RemovedFrom(n, base, size);
  }

  lemma RemovedFrom(m: Map, base: nat, size: nat)
    requires Ordered(m) && Apply(m, Remove(base, size)).Ok?
    ensures ValidRegion(Region(base, size))
    ensures InsertRegion(Apply(m, Remove(base, size)).value, Region(base, size)) == Ok(m)
  {
    RemoveExact(m, base, size);
    var i :| 0 <= i < |m| && m[i] == Region(base, size);
    InsertUndoesRemove(m, i);
  }

  /** No update is lost exactly when every published map was computed from the map that was then current. */
  lemma LostUpdatesExact(s: State)
    requires Inv(s)
    ensures Linked(s) <==> forall k :: 0 <= k < |s.bases| ==> s.bases[k] == s.history[k]
  {
    hide Apply, Ordered;
    forall k | 0 <= k < |s.commits| ensures LinkAt(s, k) <==> s.bases[k] == s.history[k] {
      assert Published(s, k);
      if LinkAt(s, k) { ApplyInjective(s.bases[k], s.history[k], s.commits[k]); }
    }
  }

  /** A writer that loads the map only while it holds the lock. */
  predicate Disciplined(s: State, run: seq<Action>)
    requires Legal(s, run)
    decreases |run|
  {
    run == [] || ((run[0].Load? ==> s.holder == Some(run[0].t)) && Disciplined(Step(s, run[0]), run[1..]))
  }

  /** The map the lock holder starts from is the current one; nobody else has one. */
  ghost predicate Fresh(s: State) {
    forall t :: t in s.phases && Based(s.phases[t]) ==> s.phases[t].Loaded? && s.phases[t].base == s.current
  }

  lemma {:induction false} DisciplinedRun(s: State, run: seq<Action>)
    requires Inv(s) && Fresh(s) && Linked(s) && Legal(s, run) && Disciplined(s, run)
    ensures Inv(After(s, run)) && Linked(After(s, run))
    decreases |run|
  {
    hide Apply, Ordered, Recorded, OnceCurrent, Enabled, Step, Linked, Inv, Fresh;
    if run != [] {
      StepInv(s, run[0]);
      StepFresh(s, run[0]);
      StepLinked(s, run[0]);
      DisciplinedRun(Step(s, run[0]), run[1..]);
    }
  }

  lemma StepFresh(s: State, a: Action)
    requires Inv(s) && Fresh(s) && Enabled(s, a) && (a.Load? ==> s.holder == Some(a.t))
    ensures Fresh(Step(s, a))
  {
    hide Apply, Ordered, Recorded, OnceCurrent;
  }

  lemma StepLinked(s: State, a: Action)
    requires Inv(s) && Fresh(s) && Linked(s) && Enabled(s, a)
    ensures Linked(Step(s, a))
  {
    hide Apply, Ordered;
    var s' := Step(s, a);
    forall k | 0 <= k < |s'.commits| && k + 1 < |s'.history| ensures LinkAt(s', k) {
      if k < |s.commits| { assert LinkAt(s, k); }
    }
  }

  /** The updates applied in commit order; `None` if one of them does not apply. */
  function ApplyAll(m: Map, us: seq<Update>): (r: Option<Map>)
    requires Ordered(m)
    ensures r.Some? ==> Ordered(r.value)
  {
    if us == [] then Some(m)
    else
      var before := ApplyAll(m, us[..|us| - 1]);
      var u := us[|us| - 1];
      if before.None? || !ValidUpdate(u) || Apply(before.value, u).Err? then None
      else Some(Apply(before.value, u).value)
  }

  lemma {:induction false} LinkedIsApplyAll(s: State, k: nat)
    requires Inv(s) && Linked(s) && k <= |s.commits|
    ensures Ordered(s.history[0]) && ApplyAll(s.history[0], s.commits[..k]) == Some(s.history[k])
  {
    hide Apply, Ordered;
    if k > 0 {
      LinkedIsApplyAll(s, k - 1);
      assert LinkAt(s, k - 1);
      assert s.commits[..k][..k - 1] == s.commits[..k - 1];
    }
  }

  lemma {:induction false} HistoryStarts(s: State, run: seq<Action>)
    requires Legal(s, run) && s.history != []
    ensures After(s, run).history != [] && After(s, run).history[0] == s.history[0]
    decreases |run|
  {
    hide Apply, Ordered;
    if run != [] { HistoryStarts(Step(s, run[0]), run[1..]); }
  }

  /**
  In every interleaving of readers and of writers that load under the lock: the current map is the initial one
  with all committed updates applied in commit order, and each snapshot is such a map for a prefix of them.
  */
  lemma NoLostUpdate(m: Map, run: seq<Action>)
    requires Ordered(m) && Legal(Init(m), run) && Disciplined(Init(m), run)
    ensures var s := After(Init(m), run);
            && ApplyAll(m, s.commits) == Some(s.current)
            && forall id :: id in s.snapshots ==>
                 && s.snapshots[id].version <= |s.commits|
                 && ApplyAll(m, s.commits[..s.snapshots[id].version]) == Some(s.snapshots[id].map_)
  {
    hide Apply, Ordered, Disciplined, Legal, After, Linked;
    var s := After(Init(m), run);
    InitInv(m);
    DisciplinedRun(Init(m), run);
    HistoryStarts(Init(m), run);
    LinkedIsApplyAll(s, |s.commits|);
    assert s.commits[..|s.commits|] == s.commits;
    forall id | id in s.snapshots
      ensures s.snapshots[id].version <= |s.commits| &&
              ApplyAll(m, s.commits[..s.snapshots[id].version]) == Some(s.snapshots[id].map_)
    {
      LinkedIsApplyAll(s, s.snapshots[id].version);
    }
  }

  // ----- Which map a writer starts from -----

  /** `states[i + 1]` is what `run[i]` makes of `states[i]`. */
  ghost predicate IsRun(states: seq<State>, run: seq<Action>, m: Map) {
    && |states| == |run| + 1 && Ordered(m) && states[0] == Init(m)
    && (forall i :: 0 <= i < |run| ==> Enabled(states[i], run[i]) && states[i + 1] == Step(states[i], run[i]))
  }

  lemma {:induction false} StatesInv(states: seq<State>, run: seq<Action>, m: Map, i: nat)
    requires IsRun(states, run, m) && i < |states|
    ensures Inv(states[i])
  {
    hide Inv, Enabled, Step;
    if i == 0 {
      InitInv(m);
    } else {
      StatesInv(states, run, m, i - 1);
      StepInv(states[i - 1], run[i - 1]);
    }
  }

  /** `j` is the last of the first `i` actions by which thread `t` loads the map. */
  ghost predicate LastLoad(run: seq<Action>, i: nat, t: Tid, j: int) {
    0 <= j < i <= |run| && run[j] == Load(t) && forall k :: j < k < i ==> run[k] != Load(t)
  }

  /** In every run, the map a writer starts from is the one that was current when it last loaded. */
  lemma {:induction false} BaseIsLastLoaded(states: seq<State>, run: seq<Action>, m: Map, i: nat, t: Tid)
    returns (j: nat)
    requires IsRun(states, run, m) && i < |states| && Based(PhaseOf(states[i], t))
    ensures LastLoad(run, i, t, j)
    ensures var p := PhaseOf(states[i], t); p.base == states[j].current && p.version == |states[j].commits|
  {
    hide Enabled, Step, Apply, Ordered;
    if i > 0 {
      StepBase(states[i - 1], run[i - 1], t);
      if run[i - 1] == Load(t) {
        j := i - 1;
      } else {
        j := BaseIsLastLoaded(states, run, m, i - 1, t);
      }
    }
  }

  lemma StepBase(s: State, a: Action, t: Tid)
    requires Enabled(s, a) && Based(PhaseOf(Step(s, a), t))
    ensures var p := PhaseOf(Step(s, a), t);
            if a == Load(t) then p.base == s.current && p.version == |s.commits|
            else Based(PhaseOf(s, t)) && p.base == PhaseOf(s, t).base && p.version == PhaseOf(s, t).version
  {
  }

  lemma {:induction false} Unpublished(states: seq<State>, run: seq<Action>, m: Map, j: nat, i: nat)
    requires IsRun(states, run, m) && j <= i < |states| && forall k :: j <= k < i ==> !run[k].Replace?
    ensures states[i].current == states[j].current && states[i].commits == states[j].commits
  {
    hide Enabled, Apply, Ordered;
    if j < i { Unpublished(states, run, m, j, i - 1); }
  }

  /** Between the load and the replacement of the writer who acts at `i`, nobody publishes. */
  ghost predicate Undisturbed(run: seq<Action>, i: nat)
    requires i < |run| && run[i].Replace?
  {
    exists j :: 0 <= j < i && run[j] == Load(run[i].t) && forall k :: j < k < i ==> !run[k].Replace?
  }

  /** Such a writer applies its update to the current map, whether or not it loaded under the lock. */
  lemma UndisturbedReplace(states: seq<State>, run: seq<Action>, m: Map, i: nat)
    requires IsRun(states, run, m) && i < |run| && run[i].Replace? && Undisturbed(run, i)
    ensures Based(PhaseOf(states[i], run[i].t)) && PhaseOf(states[i], run[i].t).base == states[i].current
    ensures Ordered(states[i].current) && ValidUpdate(run[i].update)
    ensures Apply(states[i].current, run[i].update) == Ok(states[i + 1].current)
  {
    hide Apply, Ordered;
    var t := run[i].t;
    assert Enabled(states[i], run[i]);
    var j :| 0 <= j < i && run[j] == Load(t) && forall k :: j < k < i ==> !run[k].Replace?;
    var last := BaseIsLastLoaded(states, run, m, i, t);
    assert j <= last;
    Unpublished(states, run, m, last, i);
  }

  /** Writers that do not overlap lose nothing: the current map is the initial one with all updates applied. */
  lemma {:induction false} ApartWriters(states: seq<State>, run: seq<Action>, m: Map, i: nat)
    requires IsRun(states, run, m) && i < |states|
    requires forall k :: 0 <= k < i && run[k].Replace? ==> Undisturbed(run, k)
    ensures ApplyAll(m, states[i].commits) == Some(states[i].current)
  {
    hide Enabled, Step, Apply, Ordered, Undisturbed, ApplyAll;
    if i == 0 {
      NothingApplied(m);
    } else {
      ApartWriters(states, run, m, i - 1);
      if run[i - 1].Replace? {
        UndisturbedReplace(states, run, m, i - 1);
        ApplyOneMore(m, states[i - 1], run[i - 1]);
      } else {
        KeepsCurrent(states[i - 1], run[i - 1]);
      }
    }
  }

  lemma NothingApplied(m: Map)
    requires Ordered(m)
    ensures ApplyAll(m, Init(m).commits) == Some(Init(m).current)
  {
  }

  lemma ApplyOneMore(m: Map, s: State, a: Action)
    requires Ordered(m) && Enabled(s, a) && a.Replace? && ApplyAll(m, s.commits) == Some(s.current)
    requires Ordered(s.current) && ValidUpdate(a.update) && Apply(s.current, a.update) == Ok(Step(s, a).current)
    ensures ApplyAll(m, Step(s, a).commits) == Some(Step(s, a).current)
  {
    hide Apply, Ordered;
    var us := Step(s, a).commits;
    assert us[..|us| - 1] == s.commits && us[|us| - 1] == a.update;
  }

  lemma KeepsCurrent(s: State, a: Action)
    requires Enabled(s, a) && !a.Replace?
    ensures Step(s, a).current == s.current && Step(s, a).commits == s.commits
  {
    hide Apply, Ordered;
  }

  // ----- What the state owes to the actions -----

  /** The updates published by these actions, in order. */
  function UpdatesOf(run: seq<Action>): seq<Update> {
    if run == [] then []
    else
      var last := run[|run| - 1];
      UpdatesOf(run[..|run| - 1]) + if last.Replace? then [last.update] else []
  }

  /** Who took the lock last, if it was not given back since. */
  function HolderOf(run: seq<Action>): Option<Tid> {
    if run == [] then None
    else
      match run[|run| - 1]
      case Lock(t) => Some(t)
      case Unlock(_) => None
      case Panic(_) => None
      case _ => HolderOf(run[..|run| - 1])
  }

  /** Whether the snapshot was taken or cloned and not released since. */
  predicate HeldBy(run: seq<Action>, id: SnapshotId) {
    run != [] &&
    match run[|run| - 1]
    case Take(new_) => new_ == id || HeldBy(run[..|run| - 1], id)
    case Clone(_, copy) => copy == id || HeldBy(run[..|run| - 1], id)
    case Release(gone) => gone != id && HeldBy(run[..|run| - 1], id)
    case _ => HeldBy(run[..|run| - 1], id)
  }

  /**
  In every run: the committed updates are those of the replacements made, in order; the lock is held by the thread
  that took it last, until it gives it back or panics; it is poisoned once a holder has panicked; and the snapshots in
  use are those taken or cloned and not released.
  */
  lemma {:induction false} OwedToActions(states: seq<State>, run: seq<Action>, m: Map, i: nat, id: SnapshotId)
    requires IsRun(states, run, m) && i < |states|
    ensures states[i].commits == UpdatesOf(run[..i]) && states[i].holder == HolderOf(run[..i])
    ensures states[i].poisoned <==> exists k :: 0 <= k < i && run[k].Panic?
    ensures id in states[i].snapshots <==> HeldBy(run[..i], id)
  {
    hide Enabled, Apply, Ordered;
    if i > 0 {
      OwedToActions(states, run, m, i - 1, id);
      assert run[..i][..i - 1] == run[..i - 1];
      StepOwed(states[i - 1], run[i - 1], id);
    }
  }

  lemma StepOwed(s: State, a: Action, id: SnapshotId)
    requires Enabled(s, a)
    ensures var s' := Step(s, a);
            && s'.commits == s.commits + (if a.Replace? then [a.update] else [])
            && s'.holder == (if a.Lock? then Some(a.t) else if a.Unlock? || a.Panic? then None else s.holder)
            && s'.poisoned == (s.poisoned || a.Panic?)
            && (id in s'.snapshots <==>
                  || (a.Take? && a.id == id) || (a.Clone? && a.copy == id)
                  || (id in s.snapshots && a != Release(id)))
  {
    hide Apply, Ordered;
  }

  /** Readers never wait, whatever the writers are doing; writers wait for the lock only. */
  lemma ReadersNeverWait(s: State, id: SnapshotId, copy: SnapshotId, t: Tid)
    ensures Enabled(s, Take(id)) <==> id !in s.snapshots
    ensures id in s.snapshots ==> Enabled(s, Release(id)) && (copy !in s.snapshots ==> Enabled(s, Clone(id, copy)))
    ensures !PhaseOf(s, t).Stored? ==> Enabled(s, Load(t))
    ensures !Holding(PhaseOf(s, t)) ==> (Enabled(s, Lock(t)) <==> s.holder.None?)
    ensures Holding(PhaseOf(s, t)) ==> Enabled(s, Unlock(t))
  {
  }

  /** A clone is the same snapshot, and outlives the one it was made from. */
  lemma CloneSeesTheSame(s: State, id: SnapshotId, copy: SnapshotId, after: seq<Action>)
    requires Enabled(s, Clone(id, copy)) && Legal(Step(s, Clone(id, copy)), after) && !Releases(after, copy)
    ensures var now := After(Step(s, Clone(id, copy)), after);
            copy in now.snapshots && now.snapshots[copy] == s.snapshots[id]
  {
    SnapshotsStay(Step(s, Clone(id, copy)), after, copy);
  }

  /** The second thread loads first, waits for the first thread's update, and then publishes its own. */
  function Race(): seq<Action> {
    [Load(2), Lock(1), Load(1), Replace(1, Insert(Region(0, 1))), Unlock(1), Lock(2), Replace(2, Insert(Region(1, 1)))]
  }

  /** Loading before locking loses an update: the first writer's region is gone. */
  lemma LoadBeforeLock()
    ensures Legal(Init([]), Race())
    ensures After(Init([]), Race()).current == [Region(1, 1)] && !Linked(After(Init([]), Race()))
  {
    hide Apply, Legal, After, Ordered, Linked, Inv, Race;
    SecondWriter();
    FirstWriter();
    InsertIntoEmpty(Region(0, 1));
    assert Race()[0..] == Race();
    LostIfStale(Race(), After(Init([]), Race()), 1);
  }

  /** The race after the first writer: the second one still has the map it loaded at the beginning. */
  function HalfWay(): State {
    var a := Region(0, 1);
    State([a], None, false, map[2 := Early([], 0), 1 := Idle], map[], [[], [a]], [Insert(a)], [[]], [0])
  }

  lemma FirstWriter()
    requires Legal(HalfWay(), Race()[5..])
    ensures Legal(Init([]), Race()[0..]) && After(Init([]), Race()[0..]) == After(HalfWay(), Race()[5..])
  {
    hide Apply, Legal, After, Ordered;
    var s0 := Init([]);
    var s1 := Step(s0, Load(2));
    var s2 := Step(s1, Lock(1));
    var s3 := Step(s2, Load(1));
    InsertIntoEmpty(Region(0, 1));
    var s4 := Step(s3, Replace(1, Insert(Region(0, 1))));
    assert Step(s4, Unlock(1)) == HalfWay();
    RunOf(s4, Race(), 4);
    RunOf(s3, Race(), 3);
    RunOf(s2, Race(), 2);
    RunOf(s1, Race(), 1);
    RunOf(s0, Race(), 0);
  }

  lemma SecondWriter()
    ensures Legal(HalfWay(), Race()[5..])
    ensures var s := After(HalfWay(), Race()[5..]);
            s.current == [Region(1, 1)] && |s.bases| == 2 && s.bases[1] == [] && |s.history| == 3
            && s.history[1] == [Region(0, 1)]
  {
    hide Apply, Legal, After, Ordered;
    InsertIntoEmpty(Region(1, 1));
    var s6 := Step(HalfWay(), Lock(2));
    var s7 := Step(s6, Replace(2, Insert(Region(1, 1))));
    RunEnds(s7);
    assert Race()[7..] == [];
    RunOf(s6, Race(), 6);
    RunOf(HalfWay(), Race(), 5);
  }

  lemma LostIfStale(run: seq<Action>, s: State, k: nat)
    requires Ordered([]) && Legal(Init([]), run) && s == After(Init([]), run)
    requires k < |s.bases| && k < |s.history| && s.bases[k] != s.history[k]
    ensures !Linked(s)
  {
    hide Apply, Legal, After, Ordered, Linked;
    InitInv([]);
    RunInv(Init([]), run);
    LostUpdatesExact(s);
  }

  lemma InsertIntoEmpty(r: Region)
    requires ValidRegion(r)
    ensures Ordered([]) && Apply([], Insert(r)) == Ok([r])
  {
    InsertExact([], r);
    assert Spliced([], 0, r) == [r];
  }

  lemma RunEnds(s: State)
    ensures Legal(s, []) && After(s, []) == s
  {
  }

  lemma RunOf(s: State, run: seq<Action>, i: nat)
    requires i < |run| && Enabled(s, run[i]) && Legal(Step(s, run[i]), run[i + 1..])
    ensures Legal(s, run[i..]) && After(s, run[i..]) == After(Step(s, run[i]), run[i + 1..])
  {
    assert run[i..][1..] == run[i + 1..];
  }
}
