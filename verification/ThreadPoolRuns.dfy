/** What holds over every interleaving of the thread pool. */
module ThreadPoolRuns {
  import opened ThreadPool

  lemma {:induction false} RunsKeepInv(s: State, steps: seq<Step>, t: State)
    requires Inv(s) && Runs(s, steps, t)
    ensures Inv(t)
    decreases |steps|
  {
    hide Inv, Enabled, Apply;
    if steps != [] {
      StepKeepsInv(s, steps[0]);
      RunsKeepInv(Apply(s, steps[0]), steps[1..], t);
    }
  }

  lemma ReachableInv(s: State)
    requires Reachable(s)
    ensures Inv(s)
  {
    hide Inv;
    InitInv();
    var steps :| Runs(Init, steps, s);
    RunsKeepInv(Init, steps, s);
  }

  lemma {:induction false} RunsConcat(s: State, a: seq<Step>, t: State, b: seq<Step>, u: State)
    requires Runs(s, a, t) && Runs(t, b, u)
    ensures Runs(s, a + b, u)
    decreases |a|
  {
    hide Enabled, Apply;
    if a == [] {
      assert a + b == b;
    } else {
      assert (a + b)[1..] == a[1..] + b;
      RunsConcat(Apply(s, a[0]), a[1..], t, b, u);
    }
  }

  // ----- The tracked set -----

  lemma {:induction false} ListsSize(listing: seq<Id>, ids: set<Id>)
    requires Lists(listing, ids)
    ensures |listing| == |ids|
    decreases |listing|
  {
    if listing == [] {
      assert ids == {};
    } else {
      var last := listing[|listing| - 1];
      var init := listing[..|listing| - 1];
      assert listing == init + [last];
      ListsSize(init, ids - {last});
    }
  }

  /**
   Between the end of startJavaScriptThreads and the final clear: whenever the mutex is free the set has exactly
   four ids, a worker about to replace itself finds itself in it, and the size assertion of the snapshot holds.
   */
  lemma {:induction false} TrackedSetIsFour(s: State)
    requires Reachable(s)
    ensures SetInUse(s) && !s.main.Starting? && s.mutex.Free? ==> |s.tracked| == 4
    ensures forall id :: SetInUse(s) && At(s, id, Respawn) ==> id in s.tracked
    ensures forall listing :: Enabled(s, Snapshot(listing)) ==> |listing| == 4
  {
    ReachableInv(s);
    forall id | SetInUse(s) && At(s, id, Respawn) ensures id in s.tracked {
      assert WorkerOk(s, id);
    }
    forall listing | Enabled(s, Snapshot(listing)) ensures |listing| == ThreadsCount {
      ListsSize(listing, s.tracked);
    }
  }

  predicate PastSnapshot(m: MainPoint) { m.Waiting? || m.ClearSet? || m.ReleaseGroup? || m.Stopped? }

  /** The snapshot lists four workers, and once the set has been cleared none of them is in it. */
  ghost predicate Forgotten(s: State) {
    && (forall id :: id in s.snapshot ==> id in s.workers)
    && (!SetInUse(s) ==> forall id :: id in s.snapshot ==> id !in s.tracked)
    && (PastSnapshot(s.main) ==> |s.snapshot| == 4)
  }

  lemma StepForgets(s: State, step: Step)
    requires Inv(s) && Enabled(s, step) && Forgotten(s)
    ensures Forgotten(Apply(s, step))
  {
    hide Enabled, Apply, Inv, PastSnapshot;
    var t := Apply(s, step);
    if step.Snapshot? {
      SnapshotTaken(s, step.listing);
    } else {
      SnapshotKept(s, step);
      WorkersStay(s, step);
      if SetInUse(s) && !SetInUse(t) { ClearEmpties(s, step); }
      if !SetInUse(s) {
        forall id | id in t.snapshot ensures id !in t.tracked { NotTrackedAgain(s, step, id); }
      }
    }
  }

  lemma SnapshotTaken(s: State, listing: seq<Id>)
    requires Inv(s) && Enabled(s, Snapshot(listing))
    ensures var t := Apply(s, Snapshot(listing));
            SetInUse(t) && |t.snapshot| == 4 && forall id :: id in t.snapshot ==> id in t.workers
  {
    hide MutexOk, WorkerOk;
    ListsSize(listing, s.tracked);
  }

  lemma SnapshotKept(s: State, step: Step)
    requires Enabled(s, step) && !step.Snapshot?
    ensures var t := Apply(s, step); t.snapshot == s.snapshot && (PastSnapshot(t.main) ==> PastSnapshot(s.main))
    ensures SetInUse(Apply(s, step)) ==> SetInUse(s)
  {
    hide Lists;
  }

  lemma WorkersStay(s: State, step: Step)
    requires Enabled(s, step)
    ensures s.workers.Keys <= Apply(s, step).workers.Keys
  {
    hide Lists;
  }

  lemma ClearEmpties(s: State, step: Step)
    requires Enabled(s, step) && SetInUse(s) && !SetInUse(Apply(s, step))
    ensures Apply(s, step).tracked == {}
  {
    hide Lists, SectionOf;
    if step.Section? { SectionInUse(s, step.id); }
  }

  lemma SectionInUse(s: State, id: Id)
    requires id in s.workers
    ensures SetInUse(SectionOf(s, id)) == SetInUse(s)
  {
  }

  lemma NotTrackedAgain(s: State, step: Step, id: Id)
    requires Enabled(s, step) && id in s.workers && id !in s.tracked
    ensures id !in Apply(s, step).tracked
  {
    hide Lists;
  }

  lemma {:induction false} RunsForget(s: State, steps: seq<Step>, t: State)
    requires Inv(s) && Forgotten(s) && Runs(s, steps, t)
    ensures Forgotten(t)
    decreases |steps|
  {
    hide Inv, Enabled, Apply, Forgotten;
    if steps != [] {
      StepKeepsInv(s, steps[0]);
      StepForgets(s, steps[0]);
      RunsForget(Apply(s, steps[0]), steps[1..], t);
    }
  }

  /**
   The final clear empties the set; from then on none of the four threads that were waited for is in it, though a
   worker that was missed may still add its replacement.
   */
  lemma {:induction false} SetIsCleared(s: State)
    requires Reachable(s)
    ensures s.main.ClearSet? && Enabled(s, MainSection) ==> Apply(s, MainSection).tracked == {}
    ensures s.main.ReleaseGroup? || s.main.Stopped? ==>
              |s.snapshot| == 4 && forall id :: id in s.snapshot ==> id in s.workers && id !in s.tracked
  {
    hide Inv, Runs;
    InitInv();
    var steps :| Runs(Init, steps, s);
    RunsForget(Init, steps, s);
  }

  /** Every worker creates one context and releases it exactly once, when it ends. */
  lemma {:induction false} ContextsReleasedOnce(s: State, id: Id)
    requires Reachable(s) && id in s.workers
    ensures s.workers[id].released <= s.workers[id].created <= 1
    ensures s.workers[id].point.Ended? <==> s.workers[id].released == 1
  {
    ReachableInv(s);
    assert WorkerOk(s, id);
  }

  /** What a worker has done when it is at a point of its loop. */
  predicate CountsOk(w: Worker) {
    var c := w.counts;
    && c.strings == (if w.point.CreateContext? || w.point.CreateScript? then 0 else 1)
    && c.stringsReleased == (if w.point.Ended? then 1 else 0)
    && c.evaluated == c.checked + (if w.point.MakeObjects? || w.point.CheckFlag? then 1 else 0)
    && c.made == c.checked + (if w.point.CheckFlag? then 1 else 0)
    && (w.point.Decide? || w.point.Respawn? || w.point.AddReplacement? || w.point.LeaveLoop? || w.point.CleanUp? || w.point.Ended?
        ==> c.checked > 0)
    && (w.point.CreateContext? || w.point.CreateScript? ==> c.checked == 0)
  }

  lemma StepKeepsCounts(s: State, step: Step, id: Id)
    requires Enabled(s, step) && id in Apply(s, step).workers && (id in s.workers ==> CountsOk(s.workers[id]))
    ensures CountsOk(Apply(s, step).workers[id])
  {
    hide CountsOk, SectionOf, Lists;
    NewCounts();
    if step.Section? {
      SectionMoves(s, step.id, id);
    } else {
      Moves(s, step, id);
    }
  }

  lemma NewCounts()
    ensures CountsOk(NewWorker)
  {
  }

  lemma SectionMoves(s: State, actor: Id, id: Id)
    requires Enabled(s, Section(actor)) && id in SectionOf(s, actor).workers && (id in s.workers ==> CountsOk(s.workers[id]))
    ensures CountsOk(SectionOf(s, actor).workers[id])
  {
    hide CountsOk;
    if id == actor { SectionCounts(s, id); }
  }

  lemma SectionCounts(s: State, id: Id)
    requires id in s.workers && CountsOk(s.workers[id]) && NeedsMutex(s.workers[id].point)
    ensures CountsOk(SectionOf(s, id).workers[id])
  {
  }

  /** Outside critical sections a worker only moves on between points that say the same about its counts. */
  lemma Moves(s: State, step: Step, id: Id)
    requires Enabled(s, step) && !step.Section? && id in Apply(s, step).workers
    requires id in s.workers ==> CountsOk(s.workers[id])
    ensures CountsOk(Apply(s, step).workers[id])
  {
    hide CountsOk, SectionOf, Lists;
    NewCounts();
    if id in s.workers { SameCounts(s.workers[id]); }
  }

  lemma SameCounts(w: Worker)
    requires CountsOk(w)
    ensures w.point.Decide? ==> CountsOk(w.(point := Evaluate)) && CountsOk(w.(point := Respawn))
    ensures w.point.AddReplacement? ==> CountsOk(w.(point := LeaveLoop))
    ensures w.point.LeaveLoop? ==> CountsOk(w.(point := CleanUp))
  {
  }

  lemma {:induction false} RunsKeepCounts(s: State, steps: seq<Step>, t: State)
    requires Runs(s, steps, t) && forall id :: id in s.workers ==> CountsOk(s.workers[id])
    ensures forall id :: id in t.workers ==> CountsOk(t.workers[id])
    decreases |steps|
  {
    hide Enabled, Apply, CountsOk;
    if steps != [] {
      var next := Apply(s, steps[0]);
      forall id | id in next.workers ensures CountsOk(next.workers[id]) { StepKeepsCounts(s, steps[0], id); }
      RunsKeepCounts(next, steps[1..], t);
    }
  }

  /**
   Every worker creates one script string and releases it exactly when it ends; between two checks of the flag it
   evaluates the script once and makes its objects once, and none ends without having checked the flag.
   */
  lemma {:induction false} WorkersDoTheirWork(s: State, id: Id)
    requires Reachable(s) && id in s.workers
    ensures var w, c := s.workers[id], s.workers[id].counts;
            && c.stringsReleased <= c.strings <= 1 && (w.point.Ended? <==> c.stringsReleased == 1)
            && (w.point.Evaluate? || w.point.Decide? ==> c.evaluated == c.made == c.checked)
            && (w.point.CheckFlag? ==> c.evaluated == c.made == c.checked + 1)
            && (w.point.Ended? ==> c.evaluated == c.made == c.checked > 0)
  {
    hide Runs;
    var steps :| Runs(Init, steps, s);
    RunsKeepCounts(Init, steps, s);
  }

  // ----- After the flag -----

  /** Past the check of the flag, with the replacement not yet created. */
  predicate InWindow(p: WorkerPoint) { p.Decide? || p.Respawn? || p.AddReplacement? }

  ghost function Window(s: State): set<Id> {
    set id | id in s.workers && InWindow(s.workers[id].point)
  }

  /** While the set is in use, the workers in the window are in it, except one that is replacing itself. */
  lemma WindowTracked(s: State)
    requires Inv(s) && SetInUse(s)
    ensures |Window(s)| <= ThreadsCount
  {
    var replacing := if s.mutex.ByWorker? && At(s, s.mutex.id, AddReplacement) then {s.mutex.id} else {};
    forall id | id in Window(s) ensures id in s.tracked + replacing {
      assert WorkerOk(s, id);
    }
    SubsetSize(Window(s), s.tracked + replacing);
    if replacing != {} {
      assert WorkerOk(s, s.mutex.id);
      assert s.tracked !! replacing;
    }
  }

  lemma SubsetSize<T>(a: set<T>, b: set<T>)
    requires a <= b
    ensures |a| <= |b|
  {
    assert b == a + (b - a);
  }

  /** Once the flag is set nobody enters the window, and every worker created is paid for by one leaving it. */
  lemma StepAfterFlag(s: State, step: Step)
    requires Inv(s) && s.terminate && Enabled(s, step)
    ensures Apply(s, step).terminate && Window(Apply(s, step)) <= Window(s)
    ensures |Apply(s, step).workers| + |Window(Apply(s, step))| <= |s.workers| + |Window(s)|
  {
    var t := Apply(s, step);
    hide MutexOk, SetOk;
    assert Window(t) <= Window(s) by { WindowShrinks(s, step); }
    SubsetSize(Window(t), Window(s));
    if step.Replace? {
      assert t.workers.Keys == s.workers.Keys + {step.replacement};
      assert step.id in Window(s) && step.id !in Window(t);
      SubsetSize(Window(t), Window(s) - {step.id});
      assert |t.workers.Keys| == |s.workers.Keys| + 1;
    } else {
      KeysKept(s, step);
    }
  }

  lemma WindowShrinks(s: State, step: Step)
    requires s.terminate && Enabled(s, step)
    ensures Apply(s, step).terminate && Window(Apply(s, step)) <= Window(s)
  {
    hide Enabled, Apply;
    FlagStays(s, step);
    forall id | id in Window(Apply(s, step)) ensures id in Window(s) { NoEntry(s, step, id); }
  }

  lemma FlagStays(s: State, step: Step)
    requires s.terminate && Enabled(s, step)
    ensures Apply(s, step).terminate
  {
    hide Lists;
  }

  lemma NoEntry(s: State, step: Step, id: Id)
    requires s.terminate && Enabled(s, step) && id in Apply(s, step).workers && InWindow(Apply(s, step).workers[id].point)
    ensures id in s.workers && InWindow(s.workers[id].point)
  {
    hide Lists;
  }

  lemma KeysKept(s: State, step: Step)
    requires Inv(s) && s.terminate && Enabled(s, step) && !step.Replace?
    ensures |Apply(s, step).workers| == |s.workers|
  {
    hide MutexOk, SetOk, Lists;
    assert Apply(s, step).workers.Keys == s.workers.Keys;
  }

  /** The window never holds more than four workers. */
  lemma {:induction false} RunsBoundWindow(s: State, steps: seq<Step>, t: State)
    requires Inv(s) && |Window(s)| <= ThreadsCount && Runs(s, steps, t)
    ensures |Window(t)| <= ThreadsCount
    decreases |steps|
  {
    hide Inv, Enabled, Apply, Window;
    if steps != [] {
      var next := Apply(s, steps[0]);
      StepKeepsInv(s, steps[0]);
      if SetInUse(next) {
        WindowTracked(next);
      } else {
        FlagBeforeClear(s, steps[0]);
        StepAfterFlag(s, steps[0]);
        SubsetSize(Window(next), Window(s));
      }
      RunsBoundWindow(next, steps[1..], t);
    }
  }

  lemma FlagBeforeClear(s: State, step: Step)
    requires Inv(s) && Enabled(s, step) && !SetInUse(Apply(s, step))
    ensures s.terminate
  {
    hide MutexOk, SetOk, Lists, WorkerOk;
  }

  /** Workers created after a given moment stay outside the window and are never detached. */
  ghost predicate NewcomersStay(before: set<Id>, s: State) {
    forall id :: id in s.workers && id !in before ==> Newcomer(s.workers[id])
  }

  lemma StepKeepsNewcomers(before: set<Id>, s: State, step: Step)
    requires Inv(s) && s.terminate && Enabled(s, step) && NewcomersStay(before, s)
    ensures NewcomersStay(before, Apply(s, step))
  {
    hide Inv, Enabled, Apply;
    forall id | id in Apply(s, step).workers && id !in before
      ensures Newcomer(Apply(s, step).workers[id])
    {
      NewcomerStays(s, step, id);
    }
  }

  predicate Newcomer(w: Worker) { !InWindow(w.point) && !w.point.LeaveLoop? && !w.detached }

  lemma NewcomerStays(s: State, step: Step, id: Id)
    requires s.terminate && Enabled(s, step) && id in Apply(s, step).workers && (id in s.workers ==> Newcomer(s.workers[id]))
    ensures Newcomer(Apply(s, step).workers[id])
  {
    hide Lists;
  }

  lemma {:induction false} RunsAfterFlag(before: set<Id>, s: State, steps: seq<Step>, t: State)
    requires Inv(s) && s.terminate && Runs(s, steps, t) && NewcomersStay(before, s)
    ensures NewcomersStay(before, t)
    ensures |t.workers| + |Window(t)| <= |s.workers| + |Window(s)|
    decreases |steps|
  {
    hide Inv, Enabled, Apply, Window, NewcomersStay;
    if steps != [] {
      StepKeepsInv(s, steps[0]);
      StepAfterFlag(s, steps[0]);
      StepKeepsNewcomers(before, s, steps[0]);
      RunsAfterFlag(before, Apply(s, steps[0]), steps[1..], t);
    }
  }

  /**
   After the terminate flag is set, at most four more workers are created in any run, and none of them ever
   replaces itself.
   */
  lemma {:induction false} FewWorkersAfterFlag(s: State, steps: seq<Step>, t: State)
    requires Reachable(s) && s.terminate && Runs(s, steps, t)
    ensures |t.workers| <= |s.workers| + 4
    ensures NewcomersStay(s.workers.Keys, t)
  {
    hide Inv, Runs;
    ReachableInv(s);
    InitInv();
    var first :| Runs(Init, first, s);
    NothingAtStart();
    RunsBoundWindow(Init, first, s);
    NoNewcomers(s);
    RunsAfterFlag(s.workers.Keys, s, steps, t);
  }

  lemma NothingAtStart()
    ensures |Window(Init)| <= ThreadsCount
  {
    assert Window(Init) == {};
  }

  lemma NoNewcomers(s: State)
    ensures NewcomersStay(s.workers.Keys, s)
  {
  }
}
