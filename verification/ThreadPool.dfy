/**
 JavaScriptThreading.cpp as a step relation: four workers that replace themselves under one
 mutex while the main thread starts them, sets the terminate flag, takes a snapshot of the
 tracked set, waits for the threads in it and clears the set.
 */
module ThreadPool {
  type Id = nat

  const ThreadsCount := 4  // javaScriptThreadsCount

  // ----- State -----

  /** Where a worker is; most points wait for the mutex and then hold it for one critical section. */
  datatype WorkerPoint =
    | CreateContext   // lines 73-76
    | CreateScript    // lines 79-82
    | Evaluate        // lines 85-90
    | MakeObjects     // lines 92-98
    | CheckFlag       // lines 100-104
    | Decide          // line 107, without the mutex
    | Respawn         // lines 110-113
    | AddReplacement  // line 114, mutex held
    | LeaveLoop       // line 115, mutex held
    | CleanUp         // lines 118-121
    | Ended

  /** How often a worker has created and released its script string, evaluated it, made objects and checked the flag. */
  datatype Counts = Counts(strings: nat, stringsReleased: nat, evaluated: nat, made: nat, checked: nat)

  /** `created` and `released` count JSGlobalContextCreateInGroup and JSGlobalContextRelease calls. */
  datatype Worker = Worker(point: WorkerPoint, detached: bool, created: nat, released: nat, counts: Counts)

  const NewWorker := Worker(CreateContext, false, 0, 0, Counts(0, 0, 0, 0, 0))

  datatype MainPoint =
    | Starting(started: nat)  // lines 128-131
    | Running                 // between startJavaScriptThreads and stopJavaScriptThreads
    | SetFlag                 // lines 136-139
    | TakeSnapshot            // lines 142-146
    | Waiting(waited: nat)    // lines 148-149
    | ClearSet                // lines 151-154
    | ReleaseGroup            // line 156
    | Stopped

  datatype Holder = Free | Main | ByWorker(id: Id)

  datatype State = State(mutex: Holder, main: MainPoint, terminate: bool, tracked: set<Id>, snapshot: seq<Id>,
                         workers: map<Id, Worker>, groupReleased: bool)

  const Init := State(Free, Starting(0), false, {}, [], map[], false)

  // ----- Steps -----

  datatype Step =
    | Acquire(id: Id)
    | Section(id: Id)                   // the body of a critical section, up to the next point
    | Choose(id: Id, again: bool)       // rand() % 5
    | Replace(id: Id, replacement: Id)  // createThread and add
    | Leave(id: Id)
    | MainAcquire
    | Start(newId: Id)
    | Started
    | CallStop
    | MainSection
    | Snapshot(listing: seq<Id>)
    | Wait
    | Waited
    | Release

  predicate NeedsMutex(p: WorkerPoint) {
    p in {CreateContext, CreateScript, Evaluate, MakeObjects, CheckFlag, Respawn, CleanUp}
  }

  predicate MainNeedsMutex(p: MainPoint) {
    p == Starting(0) || p.SetFlag? || p.TakeSnapshot? || p.ClearSet?
  }

  ghost predicate Lists(listing: seq<Id>, ids: set<Id>) {
    && (forall i, j :: 0 <= i < j < |listing| ==> listing[i] != listing[j])
    && (forall id :: id in ids <==> id in listing)
  }

  predicate At(s: State, id: Id, p: WorkerPoint) { id in s.workers && s.workers[id].point == p }

  ghost predicate Enabled(s: State, step: Step) {
    match step
    case Acquire(id) => s.mutex.Free? && id in s.workers && NeedsMutex(s.workers[id].point)
    case Section(id) => s.mutex == ByWorker(id) && id in s.workers && NeedsMutex(s.workers[id].point)
    case Choose(id, _) => At(s, id, Decide)
    case Replace(id, replacement) => At(s, id, AddReplacement) && replacement !in s.workers
    case Leave(id) => At(s, id, LeaveLoop)
    case MainAcquire => s.mutex.Free? && MainNeedsMutex(s.main)
    case Start(newId) => s.mutex.Main? && s.main.Starting? && s.main.started < ThreadsCount && newId !in s.workers
    case Started => s.mutex.Main? && s.main == Starting(ThreadsCount)
    case CallStop => s.main.Running?
    case MainSection => s.mutex.Main? && (s.main.SetFlag? || s.main.ClearSet?)
    case Snapshot(listing) => s.mutex.Main? && s.main.TakeSnapshot? && Lists(listing, s.tracked)
    case Wait => s.main.Waiting? && s.main.waited < ThreadsCount && s.main.waited < |s.snapshot|
                 && At(s, s.snapshot[s.main.waited], Ended)
    case Waited => s.main == Waiting(ThreadsCount)
    case Release => s.main.ReleaseGroup?
  }

  function Moved(s: State, id: Id, w: Worker): State { s.(workers := s.workers[id := w]) }

  /** What a critical section does besides moving on. */
  function Counted(w: Worker): Counts {
    var c := w.counts;
    match w.point
    case CreateScript => c.(strings := c.strings + 1)
    case Evaluate => c.(evaluated := c.evaluated + 1)
    case MakeObjects => c.(made := c.made + 1)
    case CheckFlag => c.(checked := c.checked + 1)
    case CleanUp => c.(stringsReleased := c.stringsReleased + 1)
    case _ => c
  }

  /** One critical section of a worker. */
  function SectionOf(s: State, id: Id): State
    requires id in s.workers
  {
    var w := s.workers[id];
    match w.point
    case CreateContext => Moved(s, id, w.(point := CreateScript, created := w.created + 1)).(mutex := Free)
    case CreateScript => Moved(s, id, w.(point := Evaluate, counts := Counted(w))).(mutex := Free)
    case Evaluate => Moved(s, id, w.(point := MakeObjects, counts := Counted(w))).(mutex := Free)
    case MakeObjects => Moved(s, id, w.(point := CheckFlag, counts := Counted(w))).(mutex := Free)
    case CheckFlag =>
      Moved(s, id, w.(point := if s.terminate then CleanUp else Decide, counts := Counted(w))).(mutex := Free)
    case Respawn => Moved(s, id, w.(point := AddReplacement, detached := true)).(tracked := s.tracked - {id})
    case CleanUp => Moved(s, id, w.(point := Ended, released := w.released + 1, counts := Counted(w))).(mutex := Free)
    case _ => s
  }

  function Apply(s: State, step: Step): State {
    match step
    case Acquire(id) => s.(mutex := ByWorker(id))
    case Section(id) => if id in s.workers then SectionOf(s, id) else s
    case Choose(id, again) =>
      if id in s.workers then Moved(s, id, s.workers[id].(point := if again then Evaluate else Respawn)) else s
    case Replace(id, replacement) =>
      if id !in s.workers then s
      else
        Moved(Moved(s, id, s.workers[id].(point := LeaveLoop)), replacement, NewWorker)
          .(tracked := s.tracked + {replacement})
    case Leave(id) =>
      if id in s.workers then Moved(s, id, s.workers[id].(point := CleanUp)).(mutex := Free) else s
    case MainAcquire => s.(mutex := Main)
    case Start(newId) =>
      Moved(s, newId, NewWorker)
        .(tracked := s.tracked + {newId}, main := if s.main.Starting? then Starting(s.main.started + 1) else s.main)
    case Started => s.(mutex := Free, main := Running)
    case CallStop => s.(main := SetFlag)
    case MainSection =>
      if s.main.SetFlag? then s.(mutex := Free, terminate := true, main := TakeSnapshot)
      else s.(mutex := Free, tracked := {}, main := ReleaseGroup)
    case Snapshot(listing) => s.(mutex := Free, snapshot := listing, main := Waiting(0))
    case Wait => s.(main := if s.main.Waiting? then Waiting(s.main.waited + 1) else s.main)
    case Waited => s.(main := ClearSet)
    case Release => s.(main := Stopped, groupReleased := true)
  }

  /** `steps` is an interleaving that leads from `s` to `t`. */
  ghost predicate Runs(s: State, steps: seq<Step>, t: State)
    decreases |steps|
  {
    if steps == [] then s == t
    else Enabled(s, steps[0]) && Runs(Apply(s, steps[0]), steps[1..], t)
  }

  ghost predicate Reachable(s: State) { exists steps :: Runs(Init, steps, s) }

  // ----- Invariant -----

  /** Points before the worker has taken itself out of the set. */
  predicate BeforeReplacement(p: WorkerPoint) {
    !p.AddReplacement? && !p.LeaveLoop? && !p.CleanUp? && !p.Ended?
  }

  /** What holds of every worker, whatever the others do. */
  ghost predicate WorkerOk(s: State, id: Id)
    requires id in s.workers
  {
    var w := s.workers[id];
    && (BeforeReplacement(w.point) ==> !w.detached)
    && (w.point.AddReplacement? || w.point.LeaveLoop? ==> w.detached && s.mutex == ByWorker(id))
    && w.created == (if w.point.CreateContext? then 0 else 1)
    && w.released == (if w.point.Ended? then 1 else 0)
  }

  predicate HoldsMutex(p: WorkerPoint) { NeedsMutex(p) || p.AddReplacement? || p.LeaveLoop? }

  ghost predicate MutexOk(s: State) {
    && (s.mutex.ByWorker? ==> s.mutex.id in s.workers && HoldsMutex(s.workers[s.mutex.id].point))
    && (s.mutex.Main? ==> MainNeedsMutex(s.main) || s.main.Starting?)
    && (s.main.Starting? && s.main.started > 0 ==> s.mutex.Main?)
  }

  /** From the first thread started until the set is cleared. */
  predicate SetInUse(s: State) { !s.main.ReleaseGroup? && !s.main.Stopped? }

  /** How many ids the set should have now: one less while a worker is replacing itself. */
  function ExpectedSize(s: State): int {
    if s.main.Starting? then s.main.started
    else if s.mutex.ByWorker? && At(s, s.mutex.id, AddReplacement) then ThreadsCount - 1
    else ThreadsCount
  }

  /** The set holds exactly the workers that have not replaced themselves. */
  ghost predicate SetOk(s: State) {
    SetInUse(s) ==>
      && (forall id :: id in s.tracked <==> id in s.workers && !s.workers[id].detached)
      && |s.tracked| == ExpectedSize(s)
  }

  predicate PastFlag(m: MainPoint) { !m.Starting? && !m.Running? && !m.SetFlag? }

  ghost predicate MainOk(s: State) {
    && (s.main.Starting? ==> s.main.started <= ThreadsCount)
    && (s.main == Starting(0) ==> s.workers == map[])
    && (s.terminate <==> PastFlag(s.main))
    && (s.groupReleased <==> s.main.Stopped?)
  }

  ghost predicate Inv(s: State) {
    && MutexOk(s) && SetOk(s) && MainOk(s)
    && forall id :: id in s.workers ==> WorkerOk(s, id)
  }

  lemma InitInv()
    ensures Inv(Init)
  {
  }

  /** A step moves at most one existing worker; the others stay put and only the mutex matters to them. */
  lemma OtherKept(s: State, t: State, id: Id)
    requires id in s.workers && id in t.workers && t.workers[id] == s.workers[id] && WorkerOk(s, id)
    requires s.mutex == ByWorker(id) ==> t.mutex == s.mutex
    ensures WorkerOk(t, id)
  {
  }

  lemma SectionKeepsActor(s: State, id: Id)
    requires id in s.workers && WorkerOk(s, id) && s.mutex == ByWorker(id) && NeedsMutex(s.workers[id].point)
    ensures id in SectionOf(s, id).workers && WorkerOk(SectionOf(s, id), id)
    ensures forall o :: o in s.workers && o != id ==> o in SectionOf(s, id).workers && SectionOf(s, id).workers[o] == s.workers[o]
    ensures SectionOf(s, id).workers.Keys == s.workers.Keys
  {
  }

  lemma WorkersKept(s: State, step: Step, id: Id)
    requires Inv(s) && Enabled(s, step) && id in Apply(s, step).workers
    ensures WorkerOk(Apply(s, step), id)
  {
    hide SetOk, MainOk, SectionOf, NeedsMutex, BeforeReplacement, Lists;
    if step.Section? {
      SectionKeepsActor(s, step.id);
    }
    if id in s.workers && Apply(s, step).workers[id] == s.workers[id] && (s.mutex == ByWorker(id) ==> Apply(s, step).mutex == s.mutex) {
      OtherKept(s, Apply(s, step), id);
    } else {
      MovedKept(s, step, id);
    }
  }

  lemma MovedKept(s: State, step: Step, id: Id)
    requires Inv(s) && Enabled(s, step) && id in Apply(s, step).workers
    requires id in s.workers ==>
      Apply(s, step).workers[id] != s.workers[id] || (s.mutex == ByWorker(id) && Apply(s, step).mutex != s.mutex)
    ensures WorkerOk(Apply(s, step), id)
  {
    hide SetOk, MainOk, SectionOf, Lists;
    if id in s.workers { assert WorkerOk(s, id); }
    match step
    case Section(o) =>
      assert WorkerOk(s, o);
      SectionKeepsActor(s, o);
    case _ =>
  }

  lemma MutexKept(s: State, step: Step)
    requires Inv(s) && Enabled(s, step)
    ensures MutexOk(Apply(s, step))
  {
    hide SetOk, Lists;
    match step
    case Leave(id) => assert WorkerOk(s, id);
    case Replace(id, _) => assert WorkerOk(s, id);
    case _ =>
  }

  lemma MainKept(s: State, step: Step)
    requires Inv(s) && Enabled(s, step)
    ensures MainOk(Apply(s, step))
  {
    hide SetOk, WorkerOk, Lists, NeedsMutex, HoldsMutex;
  }

  /** The set and the `detached` bits a step leaves alone stay right. */
  lemma SameSet(s: State, t: State)
    requires SetOk(s) && (SetInUse(t) ==> SetInUse(s)) && t.tracked == s.tracked && t.workers.Keys == s.workers.Keys
    requires forall id :: id in s.workers ==> t.workers[id].detached == s.workers[id].detached
    requires SetInUse(t) ==> ExpectedSize(t) == ExpectedSize(s)
    ensures SetOk(t)
  {
  }

  lemma SetKept(s: State, step: Step)
    requires Inv(s) && Enabled(s, step)
    ensures SetOk(Apply(s, step))
  {
    hide Lists, SetOk;
    match step
    case Section(id) => SectionKeepsSet(s, id);
    case Replace(id, replacement) => ReplaceKeepsSet(s, id, replacement);
    case Start(newId) => StartKeepsSet(s, newId);
    case MainSection => MainKeepsSet(s);
    case Leave(id) =>
      assert WorkerOk(s, id);
      SameSet(s, Apply(s, step));
    case Choose(id, _) =>
      assert WorkerOk(s, id);
      SameSet(s, Apply(s, step));
    case _ => SameSet(s, Apply(s, step));
  }

  lemma SectionKeepsSet(s: State, id: Id)
    requires Inv(s) && Enabled(s, Section(id))
    ensures SetOk(Apply(s, Section(id)))
  {
    hide SetOk, SectionOf, ExpectedSize;
    if s.workers[id].point.Respawn? {
      RespawnKeepsSet(s, id);
    } else {
      SectionSameSet(s, id);
      SameSet(s, Apply(s, Section(id)));
    }
  }

  lemma SectionSameSet(s: State, id: Id)
    requires Enabled(s, Section(id)) && !s.workers[id].point.Respawn?
    ensures var t := SectionOf(s, id);
            && t.tracked == s.tracked && t.main == s.main && t.workers.Keys == s.workers.Keys
            && (forall o :: o in s.workers ==> t.workers[o].detached == s.workers[o].detached)
            && ExpectedSize(t) == ExpectedSize(s)
  {
  }

  lemma MainKeepsSet(s: State)
    requires Inv(s) && Enabled(s, MainSection)
    ensures SetOk(Apply(s, MainSection))
  {
  }

  lemma RespawnKeepsSet(s: State, id: Id)
    requires Inv(s) && Enabled(s, Section(id)) && At(s, id, Respawn)
    ensures SetOk(Apply(s, Section(id)))
  {
    assert WorkerOk(s, id);
  }

  lemma ReplaceKeepsSet(s: State, id: Id, replacement: Id)
    requires Inv(s) && Enabled(s, Replace(id, replacement))
    ensures SetOk(Apply(s, Replace(id, replacement)))
  {
    assert WorkerOk(s, id);
    assert !s.main.Starting?;
    assert replacement !in s.tracked || !SetInUse(s);
  }

  lemma StartKeepsSet(s: State, newId: Id)
    requires Inv(s) && Enabled(s, Start(newId))
    ensures SetOk(Apply(s, Start(newId)))
  {
  }

  /** Every step keeps the invariant. */
  lemma {:induction false} StepKeepsInv(s: State, step: Step)
    requires Inv(s) && Enabled(s, step)
    ensures Inv(Apply(s, step))
  {
    hide *;
    MutexKept(s, step);
    MainKept(s, step);
    SetKept(s, step);
    forall id | id in Apply(s, step).workers ensures WorkerOk(Apply(s, step), id) { WorkersKept(s, step, id); }
    InvOf(Apply(s, step));
  }

  lemma InvOf(s: State)
    requires MutexOk(s) && SetOk(s) && MainOk(s) && forall id :: id in s.workers ==> WorkerOk(s, id)
    ensures Inv(s)
  {
  }
}
