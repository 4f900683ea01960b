/**
 Whether all workers have ended when stopJavaScriptThreads returns. It waits only for the threads in
 its snapshot, so this depends on where the workers are when the snapshot is taken.
 */
module ThreadPoolStop {
  import opened ThreadPool
  import opened ThreadPoolRuns

  /** The main thread holds the mutex and is about to copy the set. */
  predicate AtSnapshot(s: State) { s.main.TakeSnapshot? && s.mutex.Main? }

  /** Nobody who has replaced itself is still running and nobody is past the check of the flag. */
  ghost predicate Settled(s: State) {
    forall id :: id in s.workers ==>
      s.workers[id].point.Ended? || (!s.workers[id].detached && !InWindow(s.workers[id].point))
  }

  ghost predicate AllEnded(s: State) {
    forall id :: id in s.workers ==> s.workers[id].point.Ended?
  }

  // ----- Settled at the snapshot: all have ended at the return -----

  predicate Harmless(p: WorkerPoint) { !InWindow(p) && !p.LeaveLoop? }

  /** The main thread's progress through the threads of its snapshot of `ids`. */
  ghost predicate Progress(ids: set<Id>, s: State) {
    match s.main
    case TakeSnapshot => s.tracked == ids
    case Waiting(n) =>
      && n <= ThreadsCount == |s.snapshot| && Lists(s.snapshot, ids)
      && forall j :: 0 <= j < n ==> At(s, s.snapshot[j], Ended)
    case ClearSet => forall id :: id in ids ==> At(s, id, Ended)
    case ReleaseGroup => forall id :: id in ids ==> At(s, id, Ended)
    case Stopped => forall id :: id in ids ==> At(s, id, Ended)
    case _ => false
  }

  /** Past the loop for good; `late` counts a worker that still has to clean up as done. */
  predicate Done(p: WorkerPoint, late: bool) { p.Ended? || (late && p.CleanUp?) }

  /** Only the workers in `ids` are not yet done, and none of them can replace itself. */
  ghost predicate Settling(ids: set<Id>, s: State, late: bool) {
    && s.terminate && |ids| == ThreadsCount && Progress(ids, s)
    && forall id :: id in s.workers ==> Done(s.workers[id].point, late) || (id in ids && Harmless(s.workers[id].point))
  }

  lemma WorkersSettle(ids: set<Id>, s: State, late: bool, step: Step, id: Id)
    requires Settling(ids, s, late) && Enabled(s, step) && id in Apply(s, step).workers
    ensures id in s.workers && (s.workers[id].point.Ended? ==> At(Apply(s, step), id, Ended))
    ensures Done(Apply(s, step).workers[id].point, late) || (id in ids && Harmless(Apply(s, step).workers[id].point))
  {
    hide Progress, Harmless, Enabled, Apply, Lists;
    NobodyNew(ids, s, late, step);
    PointMoves(s, step, id);
  }

  lemma NobodyNew(ids: set<Id>, s: State, late: bool, step: Step)
    requires Settling(ids, s, late) && Enabled(s, step)
    ensures !step.Replace? && !step.Start?
  {
    hide Lists;
  }

  /** Once the flag is set, where a worker can go in one step. */
  lemma PointMoves(s: State, step: Step, id: Id)
    requires s.terminate && Enabled(s, step) && !step.Replace? && !step.Start? && id in Apply(s, step).workers
    ensures id in s.workers
    ensures var p, q := s.workers[id].point, Apply(s, step).workers[id].point;
            (p.Ended? ==> q.Ended?) && (p.CleanUp? ==> q.CleanUp? || q.Ended?) && (Harmless(p) ==> Harmless(q))
  {
    hide Lists;
  }

  lemma StepSettles(ids: set<Id>, s: State, late: bool, step: Step)
    requires Settling(ids, s, late) && Enabled(s, step)
    ensures Settling(ids, Apply(s, step), late)
  {
    hide Harmless, Done, Lists, Progress, Enabled, Apply;
    var t := Apply(s, step);
    forall id | id in t.workers ensures Done(t.workers[id].point, late) || (id in ids && Harmless(t.workers[id].point)) {
      WorkersSettle(ids, s, late, step, id);
    }
    ProgressKept(ids, s, late, step);
  }

  lemma ProgressKept(ids: set<Id>, s: State, late: bool, step: Step)
    requires Settling(ids, s, late) && Enabled(s, step)
    ensures Progress(ids, Apply(s, step)) && Apply(s, step).terminate
  {
    hide Harmless, Lists, SectionOf, Moved;
    EndedStay(s, step);
    if step.Section? || step.Choose? || step.Replace? || step.Leave? || step.Start? { SectionKeepsMain(s, step); }
    if Apply(s, step).main.TakeSnapshot? { TrackedStays(ids, s, late, step); }
    if step.Snapshot? { ListsSize(step.listing, ids); }
    if step.Waited? { AllListed(ids, s); }
  }

  lemma SectionKeepsMain(s: State, step: Step)
    requires Enabled(s, step) && (step.Section? || step.Choose? || step.Replace? || step.Leave? || step.Start?)
    ensures var t := Apply(s, step);
            && (t.main == s.main || step.Start?) && t.snapshot == s.snapshot && t.terminate == s.terminate
  {
    hide Lists;
  }

  lemma TrackedStays(ids: set<Id>, s: State, late: bool, step: Step)
    requires Settling(ids, s, late) && Enabled(s, step) && Apply(s, step).main.TakeSnapshot?
    ensures s.main.TakeSnapshot? && Apply(s, step).tracked == s.tracked
  {
    hide Lists, Progress, Settling;
    NobodyNew(ids, s, late, step);
    AfterFlag(ids, s, late);
    if step.Section? { NoRespawn(ids, s, late, step.id); }
  }

  lemma AfterFlag(ids: set<Id>, s: State, late: bool)
    requires Settling(ids, s, late)
    ensures !s.main.SetFlag? && !s.main.Starting? && !s.main.Running?
  {
  }

  lemma NoRespawn(ids: set<Id>, s: State, late: bool, id: Id)
    requires Settling(ids, s, late) && id in s.workers
    ensures !s.workers[id].point.Respawn?
  {
    hide Progress;
  }

  lemma EndedStay(s: State, step: Step)
    requires Enabled(s, step)
    ensures forall id :: At(s, id, Ended) ==> At(Apply(s, step), id, Ended)
  {
    hide Lists;
  }

  lemma AllListed(ids: set<Id>, s: State)
    requires s.main == Waiting(ThreadsCount) && Progress(ids, s)
    ensures forall id :: id in ids ==> At(s, id, Ended)
  {
    forall id | id in ids ensures At(s, id, Ended) {
      var j :| 0 <= j < |s.snapshot| && s.snapshot[j] == id;
    }
  }

  lemma {:induction false} RunsSettle(ids: set<Id>, s: State, late: bool, steps: seq<Step>, t: State)
    requires Settling(ids, s, late) && Runs(s, steps, t)
    ensures Settling(ids, t, late)
    decreases |steps|
  {
    hide Settling, Enabled, Apply;
    if steps != [] {
      StepSettles(ids, s, late, steps[0]);
      RunsSettle(ids, Apply(s, steps[0]), late, steps[1..], t);
    }
  }

  lemma {:induction false} SettledStops(s: State, steps: seq<Step>, t: State)
    requires Reachable(s) && AtSnapshot(s) && Settled(s) && Runs(s, steps, t) && t.main.Stopped?
    ensures AllEnded(t)
  {
    ReachableInv(s);
    forall id | id in s.workers
      ensures s.workers[id].point.Ended? || (id in s.tracked && Harmless(s.workers[id].point))
    {
      assert WorkerOk(s, id);
    }
    RunsSettle(s.tracked, s, false, steps, t);
  }

  // ----- Not settled at the snapshot: some run returns too early -----

  /** From `s` to `t` the mutex is free at both ends and, besides new workers, only worker `id` changed. */
  ghost predicate Only(s: State, t: State, id: Id) {
    && t.mutex.Free? && t.main == s.main && t.snapshot == s.snapshot && t.terminate == s.terminate
    && s.workers.Keys <= t.workers.Keys
    && forall o :: o in s.workers && o != id ==> t.workers[o] == s.workers[o]
  }

  lemma RunOne(s: State, step: Step)
    requires Enabled(s, step)
    ensures Runs(s, [step], Apply(s, step))
  {
    hide Enabled, Apply;
    assert [step][1..] == [];
  }

  lemma RunThen(s: State, step: Step, steps: seq<Step>, t: State)
    requires Enabled(s, step) && Runs(Apply(s, step), steps, t)
    ensures Runs(s, [step] + steps, t)
  {
    hide Enabled, Apply;
    assert ([step] + steps)[1..] == steps;
  }

  /** A worker takes the mutex, runs one critical section and gives the mutex back. */
  lemma OneSection(s: State, id: Id) returns (t: State)
    requires s.mutex.Free? && id in s.workers && NeedsMutex(s.workers[id].point) && !s.workers[id].point.Respawn?
    ensures Runs(s, [Acquire(id), Section(id)], t) && Only(s, t, id) && t.workers.Keys == s.workers.Keys
    ensures t.workers[id].point == SectionOf(s, id).workers[id].point
  {
    var held := Apply(s, Acquire(id));
    t := Apply(held, Section(id));
    RunOne(held, Section(id));
    RunThen(s, Acquire(id), [Section(id)], t);
    assert [Acquire(id)] + [Section(id)] == [Acquire(id), Section(id)];
  }

  lemma {:induction false} FreshId(ids: set<Id>) returns (n: Id)
    ensures n !in ids && forall id :: id in ids ==> id < n
    decreases ids
  {
    n := 0;
    if ids != {} {
      var id :| id in ids;
      var m := FreshId(ids - {id});
      n := if m > id then m else id + 1;
      forall o | o in ids ensures o < n { assert o == id || o in ids - {id}; }
    }
  }

  /** A worker that is replacing itself creates a new one and goes on to clean up. */
  lemma OneRespawn(s: State, id: Id) returns (steps: seq<Step>, t: State, n: Id)
    requires s.mutex.Free? && At(s, id, Respawn)
    ensures Runs(s, steps, t) && Only(s, t, id) && At(t, id, CleanUp)
    ensures n !in s.workers && At(t, n, CreateContext)
  {
    n := FreshId(s.workers.Keys);
    var s1 := Apply(s, Acquire(id));
    var s2 := Apply(s1, Section(id));
    var s3 := Apply(s2, Replace(id, n));
    t := Apply(s3, Leave(id));
    RunOne(s3, Leave(id));
    RunThen(s2, Replace(id, n), [Leave(id)], t);
    RunThen(s1, Section(id), [Replace(id, n)] + [Leave(id)], t);
    steps := [Acquire(id)] + ([Section(id)] + ([Replace(id, n)] + [Leave(id)]));
    RunThen(s, Acquire(id), [Section(id)] + ([Replace(id, n)] + [Leave(id)]), t);
  }

  function Rank(p: WorkerPoint): nat {
    match p
    case Ended => 0
    case CleanUp => 1
    case Respawn => 2
    case CheckFlag => 3
    case MakeObjects => 4
    case Evaluate => 5
    case CreateScript => 6
    case CreateContext => 7
    case Decide => 8
    case _ => 9
  }

  /** Points at which a worker can be while the mutex is free. */
  predicate Resting(p: WorkerPoint) { NeedsMutex(p) || p.Decide? || p.Ended? }

  /** One move of a worker towards its end. */
  lemma Advance(s: State, id: Id) returns (steps: seq<Step>, t: State)
    requires s.mutex.Free? && s.terminate && id in s.workers
    requires Resting(s.workers[id].point) && !s.workers[id].point.Ended?
    ensures Runs(s, steps, t) && Only(s, t, id)
    ensures Resting(t.workers[id].point) && Rank(t.workers[id].point) < Rank(s.workers[id].point)
    ensures s.workers[id].point.Respawn? ==> exists n :: n !in s.workers && At(t, n, CreateContext)
  {
    hide Enabled, Runs, Lists;
    if s.workers[id].point.Respawn? {
      var n;
      steps, t, n := OneRespawn(s, id);
    } else if s.workers[id].point.Decide? {
      steps, t := [Choose(id, true)], Apply(s, Choose(id, true));
      ChooseAgain(s, id);
    } else {
      t := OneSection(s, id);
      steps := [Acquire(id), Section(id)];
    }
  }

  lemma ChooseAgain(s: State, id: Id)
    requires At(s, id, Decide)
    ensures Runs(s, [Choose(id, true)], Apply(s, Choose(id, true)))
  {
    RunOne(s, Choose(id, true));
  }

  /** Left alone with the mutex, a worker ends. */
  lemma {:induction false} Finish(s: State, id: Id) returns (steps: seq<Step>, t: State)
    requires s.mutex.Free? && s.terminate && id in s.workers && Resting(s.workers[id].point)
    ensures Runs(s, steps, t) && Only(s, t, id) && At(t, id, Ended)
    ensures s.workers[id].point.Respawn? ==> exists n :: n !in s.workers && At(t, n, CreateContext)
    decreases Rank(s.workers[id].point)
  {
    hide Runs, Rank, NeedsMutex;
    if s.workers[id].point.Ended? {
      steps, t := [], s;
      RunNone(s);
    } else {
      var first, mid := Advance(s, id);
      var rest;
      rest, t := Finish(mid, id);
      steps := first + rest;
      RunsConcat(s, first, mid, rest, t);
      if s.workers[id].point.Respawn? {
        var n :| n !in s.workers && At(mid, n, CreateContext);
        assert At(t, n, CreateContext);
      }
    }
  }

  lemma RunNone(s: State)
    ensures Runs(s, [], s)
  {
  }

  /** The main thread waits for the rest of its snapshot and returns, while `w` stays where it is. */
  lemma {:induction false} ReturnPast(s: State, w: Id) returns (steps: seq<Step>, t: State)
    requires Inv(s) && s.mutex.Free? && s.main.Waiting? && s.main.waited <= ThreadsCount == |s.snapshot|
    requires forall id :: id in s.snapshot ==> id in s.workers
    requires w in s.workers && w !in s.snapshot && !s.workers[w].point.Ended?
    ensures Runs(s, steps, t) && t.main.Stopped? && t.mutex.Free? && w in t.workers && t.workers[w] == s.workers[w]
    decreases ThreadsCount - s.main.waited
  {
    hide Inv, Runs, Lists, SectionOf, Rank;
    if s.main.waited == ThreadsCount {
      steps, t := ReturnNow(s);
    } else {
      var id := s.snapshot[s.main.waited];
      RestingWhenFree(s, id);
      var first, mid := Finish(s, id);
      RunsKeepInv(s, first, mid);
      var next := Apply(mid, Wait);
      StepKeepsInv(mid, Wait);
      var rest;
      rest, t := ReturnPast(next, w);
      RunThen(mid, Wait, rest, t);
      RunsConcat(s, first, mid, [Wait] + rest, t);
      steps := first + ([Wait] + rest);
    }
  }

  lemma RestingWhenFree(s: State, id: Id)
    requires Inv(s) && s.mutex.Free? && id in s.workers
    ensures Resting(s.workers[id].point) && (PastFlag(s.main) ==> s.terminate)
  {
    assert WorkerOk(s, id);
  }

  lemma ReturnNow(s: State) returns (steps: seq<Step>, t: State)
    requires s.mutex.Free? && s.main == Waiting(ThreadsCount)
    ensures Runs(s, steps, t) && t.main.Stopped? && t.mutex.Free? && t.workers == s.workers
  {
    var s1 := Apply(s, Waited);
    var s2 := Apply(s1, MainAcquire);
    var s3 := Apply(s2, MainSection);
    t := Apply(s3, Release);
    RunOne(s3, Release);
    RunThen(s2, MainSection, [Release], t);
    RunThen(s1, MainAcquire, [MainSection] + [Release], t);
    steps := [Waited] + ([MainAcquire] + ([MainSection] + [Release]));
    RunThen(s, Waited, [MainAcquire] + ([MainSection] + [Release]), t);
  }

  lemma {:induction false} ListingOf(ids: set<Id>) returns (listing: seq<Id>)
    ensures Lists(listing, ids)
    decreases ids
  {
    listing := [];
    if ids != {} {
      var id :| id in ids;
      var rest := ListingOf(ids - {id});
      listing := rest + [id];
    }
  }

  /** A worker missed by the snapshot, or created after it, can outlive the return. */
  lemma {:induction false} UnsettledReturnsEarly(s: State) returns (steps: seq<Step>, t: State)
    requires Reachable(s) && AtSnapshot(s) && !Settled(s)
    ensures Runs(s, steps, t) && t.main.Stopped? && !AllEnded(t)
  {
    hide Inv, Runs, Lists, SectionOf, Rank, NeedsMutex, Reachable;
    ReachableInv(s);
    var id :| id in s.workers && !s.workers[id].point.Ended? && (s.workers[id].detached || InWindow(s.workers[id].point));
    if s.workers[id].detached {
      var listing, s1 := TakenSnapshot(s);
      SnapshotFacts(s, listing, id);
      var rest;
      rest, t := ReturnPast(s1, id);
      steps := [Snapshot(listing)] + rest;
      RunThen(s, Snapshot(listing), rest, t);
    } else {
      var n;
      steps, t, n := ReplacedLate(s, id);
    }
  }

  /** A worker past the check of the flag replaces itself after the snapshot; the new one is missed by the wait. */
  lemma ReplacedLate(s: State, id: Id) returns (steps: seq<Step>, t: State, n: Id)
    requires Inv(s) && AtSnapshot(s) && id in s.workers && InWindow(s.workers[id].point)
    ensures Runs(s, steps, t) && t.main.Stopped? && t.mutex.Free? && At(t, n, CreateContext)
  {
    hide Inv, Runs, Lists, SectionOf, Rank, NeedsMutex;
    var listing, s1 := TakenSnapshot(s);
    SnapshotFacts(s, listing, id);
    var first, s2 := ToRespawn(s1, id);
    RunsKeepInv(s1, first, s2);
    RestingWhenFree(s2, id);
    var second, s3 := Finish(s2, id);
    RunsKeepInv(s2, second, s3);
    n :| n !in s2.workers && At(s3, n, CreateContext);
    var third;
    third, t := ReturnPast(s3, n);
    RunsConcat(s2, second, s3, third, t);
    RunsConcat(s1, first, s2, second + third, t);
    var rest := first + (second + third);
    steps := [Snapshot(listing)] + rest;
    RunThen(s, Snapshot(listing), rest, t);
  }

  lemma TakenSnapshot(s: State) returns (listing: seq<Id>, t: State)
    requires Inv(s) && AtSnapshot(s)
    ensures Enabled(s, Snapshot(listing)) && t == Apply(s, Snapshot(listing)) && Inv(t)
    ensures t.mutex.Free? && t.main == Waiting(0) && t.snapshot == listing && t.workers == s.workers && t.terminate
  {
    listing := ListingOf(s.tracked);
    t := Apply(s, Snapshot(listing));
    StepKeepsInv(s, Snapshot(listing));
  }

  lemma SnapshotFacts(s: State, listing: seq<Id>, id: Id)
    requires Inv(s) && AtSnapshot(s) && Lists(listing, s.tracked) && id in s.workers
    ensures |listing| == ThreadsCount && forall o :: o in listing ==> o in s.workers
    ensures s.workers[id].detached ==> id !in listing
    ensures InWindow(s.workers[id].point) ==> s.workers[id].point.Decide? || s.workers[id].point.Respawn?
  {
    ListsSize(listing, s.tracked);
    assert WorkerOk(s, id);
  }

  /** A worker past the check of the flag gets to the point where it replaces itself. */
  lemma ToRespawn(s: State, id: Id) returns (steps: seq<Step>, t: State)
    requires s.mutex.Free? && (At(s, id, Decide) || At(s, id, Respawn))
    ensures Runs(s, steps, t) && Only(s, t, id) && At(t, id, Respawn) && t.workers.Keys == s.workers.Keys
  {
    if At(s, id, Respawn) {
      steps, t := [], s;
    } else {
      steps, t := [Choose(id, false)], Apply(s, Choose(id, false));
      RunOne(s, Choose(id, false));
    }
  }

  /** stopJavaScriptThreads returns only after all workers have ended exactly when they are settled at its snapshot. */
  lemma {:induction false} StopWaitsForAll(s: State)
    requires Reachable(s) && AtSnapshot(s)
    ensures Settled(s) <==> forall steps, t :: Runs(s, steps, t) && t.main.Stopped? ==> AllEnded(t)
  {
    hide Reachable, Runs, Settled, AllEnded;
    if Settled(s) {
      forall steps, t | Runs(s, steps, t) && t.main.Stopped? ensures AllEnded(t) {
        SettledStops(s, steps, t);
      }
    } else {
      var steps, t := UnsettledReturnsEarly(s);
    }
  }

  // ----- Contexts in the released group -----

  /** The next step of worker `id` creates a context in the group that has been released. */
  predicate CreatesLate(s: State, id: Id) {
    s.groupReleased && s.mutex == ByWorker(id) && At(s, id, CreateContext)
  }

  /** With nobody past the check of the flag at the snapshot, whoever has not created a context is waited for. */
  lemma NoLateContext(s: State, steps: seq<Step>, t: State, id: Id)
    requires Reachable(s) && AtSnapshot(s) && Window(s) == {} && Runs(s, steps, t)
    ensures !CreatesLate(t, id)
  {
    hide Inv, Runs, Reachable, Settling, Window;
    ReachableInv(s);
    RunsKeepInv(s, steps, t);
    SettlesLate(s);
    RunsSettle(s.tracked, s, true, steps, t);
    StoppedReleased(t);
    NoneLeft(s.tracked, t, id);
  }

  lemma NoneLeft(ids: set<Id>, t: State, id: Id)
    requires Settling(ids, t, true) && (t.groupReleased <==> t.main.Stopped?)
    ensures t.groupReleased && id in t.workers ==> Done(t.workers[id].point, true)
  {
    hide Harmless, Lists;
  }

  lemma SettlesLate(s: State)
    requires Inv(s) && AtSnapshot(s) && Window(s) == {}
    ensures Settling(s.tracked, s, true)
  {
    forall id | id in s.workers
      ensures Done(s.workers[id].point, true) || (id in s.tracked && Harmless(s.workers[id].point))
    {
      assert WorkerOk(s, id);
      assert id !in Window(s);
    }
  }

  lemma StoppedReleased(s: State)
    requires Inv(s)
    ensures s.groupReleased <==> s.main.Stopped?
  {
  }

  lemma LateContext(s: State) returns (steps: seq<Step>, t: State, n: Id)
    requires Reachable(s) && AtSnapshot(s) && Window(s) != {}
    ensures Runs(s, steps, t) && CreatesLate(t, n) && Enabled(t, Section(n))
  {
    hide Inv, Runs, Reachable;
    ReachableInv(s);
    var id :| id in Window(s);
    var before, stopped;
    before, stopped, n := ReplacedLate(s, id);
    RunsKeepInv(s, before, stopped);
    StoppedReleased(stopped);
    t := Apply(stopped, Acquire(n));
    RunOne(stopped, Acquire(n));
    RunsConcat(s, before, stopped, [Acquire(n)], t);
    steps := before + [Acquire(n)];
  }

  /**
   Some continuation creates a context in the released group exactly when some worker is past the check of the flag,
   with its replacement still to be created, at the snapshot.
   */
  lemma {:induction false} LateContextExactly(s: State)
    requires Reachable(s) && AtSnapshot(s)
    ensures (exists steps, t, id :: Runs(s, steps, t) && CreatesLate(t, id)) <==> Window(s) != {}
  {
    hide Reachable, Runs, CreatesLate, Window, Enabled;
    if Window(s) == {} {
      forall steps, t, id | Runs(s, steps, t) ensures !CreatesLate(t, id) { NoLateContext(s, steps, t, id); }
    } else {
      var steps, t, id := LateContext(s);
    }
  }

  // ----- It does happen -----

  lemma StartFour() returns (steps: seq<Step>, t: State)
    ensures Runs(Init, steps, t) && t.mutex.Free? && t.main.Running? && !t.terminate && At(t, 0, CreateContext)
  {
    var s0 := Apply(Init, MainAcquire);
    var s1 := Apply(s0, Start(0));
    var s2 := Apply(s1, Start(1));
    var s3 := Apply(s2, Start(2));
    var s4 := Apply(s3, Start(3));
    t := Apply(s4, Started);
    RunOne(s4, Started);
    RunThen(s3, Start(3), [Started], t);
    RunThen(s2, Start(2), [Start(3)] + [Started], t);
    RunThen(s1, Start(1), [Start(2)] + ([Start(3)] + [Started]), t);
    RunThen(s0, Start(0), [Start(1)] + ([Start(2)] + ([Start(3)] + [Started])), t);
    steps := [MainAcquire] + ([Start(0)] + ([Start(1)] + ([Start(2)] + ([Start(3)] + [Started]))));
    RunThen(Init, MainAcquire, [Start(0)] + ([Start(1)] + ([Start(2)] + ([Start(3)] + [Started]))), t);
  }

  /** Before the flag is set a worker gets past its check. */
  lemma {:induction false} ReachDecide(s: State, id: Id) returns (steps: seq<Step>, t: State)
    requires s.mutex.Free? && !s.terminate && id in s.workers
    requires s.workers[id].point.Decide? || 3 <= Rank(s.workers[id].point) <= 7
    ensures Runs(s, steps, t) && Only(s, t, id) && At(t, id, Decide)
    decreases if s.workers[id].point.Decide? then 0 else Rank(s.workers[id].point)
  {
    hide Runs, Enabled;
    if s.workers[id].point.Decide? {
      steps, t := [], s;
      RunNone(s);
    } else {
      var mid := OneSection(s, id);
      var rest;
      rest, t := ReachDecide(mid, id);
      steps := [Acquire(id), Section(id)] + rest;
      RunsConcat(s, [Acquire(id), Section(id)], mid, rest, t);
    }
  }

  lemma StopUpToSnapshot(s: State) returns (steps: seq<Step>, t: State)
    requires s.mutex.Free? && s.main.Running?
    ensures Runs(s, steps, t) && AtSnapshot(t) && t.workers == s.workers
  {
    var s1 := Apply(s, CallStop);
    var s2 := Apply(s1, MainAcquire);
    var s3 := Apply(s2, MainSection);
    t := Apply(s3, MainAcquire);
    RunOne(s3, MainAcquire);
    RunThen(s2, MainSection, [MainAcquire], t);
    RunThen(s1, MainAcquire, [MainSection] + [MainAcquire], t);
    steps := [CallStop] + ([MainAcquire] + ([MainSection] + [MainAcquire]));
    RunThen(s, CallStop, [MainAcquire] + ([MainSection] + [MainAcquire]), t);
  }

  /** A run up to a snapshot that finds a worker past the check of the flag. */
  lemma WindowAtSnapshot() returns (steps: seq<Step>, t: State)
    ensures Runs(Init, steps, t) && AtSnapshot(t) && At(t, 0, Decide)
  {
    hide Runs, Enabled, Apply;
    var a, s1 := StartFour();
    var b, s2 := ReachDecide(s1, 0);
    var c;
    c, t := StopUpToSnapshot(s2);
    RunsConcat(s1, b, s2, c, t);
    RunsConcat(Init, a, s1, b + c, t);
    steps := a + (b + c);
  }

  /** A run in which stopJavaScriptThreads returns while a worker is still running. */
  lemma {:induction false} EarlyReturnHappens() returns (steps: seq<Step>, t: State)
    ensures Runs(Init, steps, t) && t.main.Stopped? && !AllEnded(t)
  {
    hide Runs, Enabled, AllEnded, Apply;
    var a, s := WindowAtSnapshot();
    assert Reachable(s) && !Settled(s);
    var b;
    b, t := UnsettledReturnsEarly(s);
    steps := a + b;
    RunsConcat(Init, a, s, b, t);
  }

  /** A run in which a worker creates a context in the released group. */
  lemma {:induction false} LateContextHappens() returns (steps: seq<Step>, t: State, id: Id)
    ensures Runs(Init, steps, t) && CreatesLate(t, id) && Enabled(t, Section(id))
  {
    hide Runs, Enabled, Apply;
    var a, s := WindowAtSnapshot();
    assert Reachable(s) && 0 in Window(s);
    var b;
    b, t, id := LateContext(s);
    steps := a + b;
    RunsConcat(Init, a, s, b, t);
  }
}
