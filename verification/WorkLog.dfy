/** What a work queue has to do, without its array: accepted items wait, are taken in order, or are dropped. */
module WorkLog {

  /** Handed to a caller of dequeue, worked off by processWork, or dropped by clear. */
  datatype Fate = Handed | Worked | Dropped

  /** Everything ever accepted, in order; the first `|fates|` items have met their fate, the others wait. */
  datatype Log<T> = Log(accepted: seq<T>, fates: seq<Fate>) {

    ghost predicate Ok() { |fates| <= |accepted| }

    ghost function Waiting(): seq<T> {
      if |fates| <= |accepted| then accepted[|fates|..] else []
    }

    function Accept(x: T): Log<T> { this.(accepted := accepted + [x]) }

    /** The oldest waiting item leaves. */
    function Take(fate: Fate): Log<T> { this.(fates := fates + [fate]) }

    /** All waiting items are dropped. */
    function Drop(): (r: Log<T>)
      requires |fates| <= |accepted|
    {
      this.(fates := fates + seq(|accepted| - |fates|, _ => Dropped))
    }

    /** The items with the given fate among the first `n` accepted, in order. */
    ghost function With(fate: Fate, n: nat): (r: seq<T>)
      requires n <= |fates| <= |accepted|
      decreases n
    {
      if n == 0 then []
      else if fates[n - 1] == fate then With(fate, n - 1) + [accepted[n - 1]]
      else With(fate, n - 1)
    }
  }

  /** The items with a fate depend only on the items and fates they are computed from. */
  lemma {:induction false} WithExtends<T>(a: Log<T>, b: Log<T>, fate: Fate, n: nat)
    requires n <= |a.fates| <= |a.accepted| && n <= |b.fates| <= |b.accepted|
    requires a.fates[..n] == b.fates[..n] && a.accepted[..n] == b.accepted[..n]
    ensures a.With(fate, n) == b.With(fate, n)
    decreases n
  {
    if n > 0 {
      assert a.fates[..n][n - 1] == b.fates[..n][n - 1] && a.accepted[..n][n - 1] == b.accepted[..n][n - 1];
      assert a.fates[..n - 1] == a.fates[..n][..n - 1] && b.fates[..n - 1] == b.fates[..n][..n - 1];
      assert a.accepted[..n - 1] == a.accepted[..n][..n - 1] && b.accepted[..n - 1] == b.accepted[..n][..n - 1];
      WithExtends(a, b, fate, n - 1);
    }
  }

  lemma WithStep<T>(log: Log<T>, fate: Fate, n: nat)
    requires n <= |log.fates| <= |log.accepted|
    ensures if n == 0 then log.With(fate, n) == []
            else
              multiset(log.With(fate, n))
              == multiset(log.With(fate, n - 1)) + if log.fates[n - 1] == fate then multiset{log.accepted[n - 1]} else multiset{}
  {
  }

  /** Nothing is lost and nothing counted twice among the items that have met their fate. */
  lemma {:induction false} Conserved<T>(log: Log<T>, n: nat)
    requires n <= |log.fates| <= |log.accepted|
    ensures multiset(log.accepted[..n])
         == multiset(log.With(Handed, n)) + multiset(log.With(Worked, n)) + multiset(log.With(Dropped, n))
    decreases n
  {
    hide Log.With;
    WithStep(log, Handed, n);
    WithStep(log, Worked, n);
    WithStep(log, Dropped, n);
    if n > 0 {
      Conserved(log, n - 1);
      assert log.accepted[..n] == log.accepted[..n - 1] + [log.accepted[n - 1]];
    }
  }

  // ----- Runs -----

  /** Work is the dequeue of processWork, Invoke the start of the invocation that follows, Delete what ends its turn. */
  datatype Op<T> = Queue(item: T) | Dequeue | Clear | SetFrozen(frozen: bool) | Work | Invoke(item: T) | Delete(item: T)

  /**
   The log and the flag; what `dequeue` has returned to callers, what processWork has taken to invoke, what has been
   invoked, what `queue` has turned away, and everything deleted so far, each in order.
   */
  datatype Run<T> = Run(log: Log<T>, frozen: bool, returned: seq<T>, worked: seq<T>, invoked: seq<T>,
                        rejected: seq<T>, deleted: seq<T>)

  function Begin<T>(): Run<T> { Run(Log([], []), false, [], [], [], [], []) }

  function Apply<T>(r: Run<T>, op: Op<T>): Run<T> {
    if |r.log.fates| > |r.log.accepted| then r
    else
      match op
      case Queue(x) =>
        if r.frozen then r.(rejected := r.rejected + [x], deleted := r.deleted + [x]) else r.(log := r.log.Accept(x))
      case Dequeue =>
        if |r.log.fates| == |r.log.accepted| then r
        else r.(log := r.log.Take(Handed), returned := r.returned + [r.log.accepted[|r.log.fates|]])
      case Work =>
        if |r.log.fates| == |r.log.accepted| then r
        else r.(log := r.log.Take(Worked), worked := r.worked + [r.log.accepted[|r.log.fates|]])
      case Clear => r.(log := r.log.Drop(), deleted := r.deleted + r.log.accepted[|r.log.fates|..])
      case SetFrozen(b) => r.(frozen := b)
      case Invoke(x) => r.(invoked := r.invoked + [x])
      case Delete(x) => r.(deleted := r.deleted + [x])
  }

  function After<T>(ops: seq<Op<T>>): (r: Run<T>) {
    if ops == [] then Begin() else Apply(After(ops[..|ops| - 1]), ops[|ops| - 1])
  }

  lemma AfterStep<T>(ops: seq<Op<T>>, op: Op<T>)
    ensures After(ops + [op]) == Apply(After(ops), op)
  {
    assert (ops + [op])[..|ops|] == ops;
  }

  lemma Queueing<T>(r: Run<T>, x: T)
    requires r.log.Ok()
    ensures var next := Apply(r, Queue(x));
            && next.frozen == r.frozen && next.worked == r.worked && next.invoked == r.invoked
            && next.log == (if r.frozen then r.log else r.log.Accept(x))
            && next.deleted == (if r.frozen then r.deleted + [x] else r.deleted)
            && next.log.Waiting() == if r.frozen then r.log.Waiting() else r.log.Waiting() + [x]
  {
  }

  lemma Taking<T>(r: Run<T>, op: Op<T>)
    requires r.log.Ok() && (op.Dequeue? || op.Work?)
    ensures var w, next := r.log.Waiting(), Apply(r, op);
            && next.frozen == r.frozen && next.deleted == r.deleted && next.invoked == r.invoked
            && (w == [] ==> next == r)
            && (w != [] ==>
                  && next.log == r.log.Take(if op.Work? then Worked else Handed) && next.log.Waiting() == w[1..]
                  && next.worked == r.worked + if op.Work? then [w[0]] else [])
  {
  }

  lemma Clearing<T>(r: Run<T>)
    requires r.log.Ok()
    ensures var next := Apply(r, Clear);
            && next.frozen == r.frozen && next.worked == r.worked && next.invoked == r.invoked
            && next.deleted == r.deleted + r.log.Waiting()
            && next.log == r.log.Drop() && next.log.Waiting() == []
  {
  }

  lemma Invoking<T>(r: Run<T>, x: T)
    requires r.log.Ok()
    ensures Apply(r, Invoke(x)) == r.(invoked := r.invoked + [x])
  {
  }

  lemma Deleting<T>(r: Run<T>, x: T)
    requires r.log.Ok()
    ensures Apply(r, Delete(x)) == r.(deleted := r.deleted + [x])
  {
  }

  lemma Freezing<T>(r: Run<T>, b: bool)
    requires r.log.Ok()
    ensures Apply(r, SetFrozen(b)) == r.(frozen := b)
  {
  }

  // ----- Every run: order and conservation -----

  ghost predicate RunOk<T>(r: Run<T>) {
    && r.log.Ok()
    && r.returned == r.log.With(Handed, |r.log.fates|)
    && r.worked == r.log.With(Worked, |r.log.fates|)
  }

  lemma ApplyKeepsOk<T>(r: Run<T>, op: Op<T>)
    requires RunOk(r)
    ensures RunOk(Apply(r, op))
  {
    var log, next := r.log, Apply(r, op).log;
    var n := |log.fates|;
    WithExtends(log, next, Handed, n);
    WithExtends(log, next, Worked, n);
    if op.Clear? { DroppedTail(next, n); }
  }

  lemma {:induction false} DroppedTail<T>(log: Log<T>, n: nat)
    requires n <= |log.fates| <= |log.accepted| && forall i :: n <= i < |log.fates| ==> log.fates[i] == Dropped
    ensures log.With(Handed, |log.fates|) == log.With(Handed, n) && log.With(Worked, |log.fates|) == log.With(Worked, n)
    decreases |log.fates| - n
  {
    if n < |log.fates| { DroppedTail(log, n + 1); }
  }

  lemma {:induction false} AfterOk<T>(ops: seq<Op<T>>)
    ensures RunOk(After(ops))
  {
    hide RunOk, Apply;
    if ops == [] {
      BeginOk<T>();
    } else {
      AfterOk(ops[..|ops| - 1]);
      ApplyKeepsOk(After(ops[..|ops| - 1]), ops[|ops| - 1]);
    }
  }

  lemma BeginOk<T>()
    ensures RunOk<T>(Begin())
  {
  }

  /** The items passed to `queue`, in order. */
  function Queued<T>(ops: seq<Op<T>>): (items: seq<T>) {
    if ops == [] then [] else Queued(ops[..|ops| - 1]) + QueuedBy(ops[|ops| - 1])
  }

  function QueuedBy<T>(op: Op<T>): (items: seq<T>) { if op.Queue? then [op.item] else [] }

  /** An item passed to `queue` is either accepted or, if the queue is frozen at that moment, rejected. */
  lemma {:induction false} AcceptedOrRejected<T>(ops: seq<Op<T>>)
    ensures multiset(Queued(ops)) == multiset(After(ops).log.accepted) + multiset(After(ops).rejected)
  {
    hide Apply, RunOk;
    if ops != [] {
      var init, op := ops[..|ops| - 1], ops[|ops| - 1];
      AcceptedOrRejected(init);
      AfterOk(init);
      OkLog(After(init));
      ApplyQueued(After(init), op);
    }
  }

  lemma OkLog<T>(r: Run<T>)
    requires RunOk(r)
    ensures r.log.Ok()
  {
  }

  lemma ApplyQueued<T>(r: Run<T>, op: Op<T>)
    requires r.log.Ok()
    ensures multiset(Apply(r, op).log.accepted) + multiset(Apply(r, op).rejected)
         == multiset(r.log.accepted) + multiset(r.rejected) + multiset(QueuedBy(op))
  {
  }

  /**
   Over every sequence of operations: what was returned to callers and what was worked off are, in order, exactly the
   accepted items with that fate; together with those dropped by clear and those still waiting they are all accepted
   items, each once.
   */
  lemma {:induction false} EveryItemOnce<T>(ops: seq<Op<T>>)
    ensures var r := After(ops);
            && r.log.Ok()
            && r.returned == r.log.With(Handed, |r.log.fates|) && r.worked == r.log.With(Worked, |r.log.fates|)
            && multiset(r.log.accepted)
               == multiset(r.returned) + multiset(r.worked) + multiset(r.log.With(Dropped, |r.log.fates|))
                  + multiset(r.log.Waiting())
  {
    hide After;
    AfterOk(ops);
    var r := After(ops);
    var n := |r.log.fates|;
    Conserved(r.log, n);
    assert r.log.accepted == r.log.accepted[..n] + r.log.Waiting();
  }

  // ----- Runs of code that owns its items -----

  /**
   What the operations ask of their callers: only items that are neither deleted, waiting nor taken for work are
   queued, only items taken for work are invoked, once, and only invoked items are deleted, once.
   */
  ghost predicate Allowed<T>(r: Run<T>, op: Op<T>) {
    match op
    case Queue(x) => x !in r.deleted && x !in r.log.Waiting() && x !in r.worked
    case Invoke(x) => x in r.worked && x !in r.invoked && x !in r.deleted
    case Delete(x) => x in r.invoked && x !in r.deleted
    case _ => true
  }

  ghost predicate Lawful<T>(ops: seq<Op<T>>) {
    forall i :: 0 <= i < |ops| ==> Allowed(After(ops[..i]), ops[i])
  }

  ghost predicate Distinct<T>(s: seq<T>) {
    forall i, j :: 0 <= i < j < |s| ==> s[i] != s[j]
  }

  ghost predicate Apart<T>(a: seq<T>, b: seq<T>) {
    forall i, j :: 0 <= i < |a| && 0 <= j < |b| ==> a[i] != b[j]
  }

  /** Nothing is deleted, worked off, invoked or waiting twice, and what waits is neither deleted nor taken. */
  ghost predicate Clean<T>(r: Run<T>) {
    && r.log.Ok()
    && Distinct(r.deleted) && Distinct(r.worked) && Distinct(r.invoked) && Distinct(r.log.Waiting())
    && (forall x :: x in r.invoked ==> x in r.worked)
    && Apart(r.log.Waiting(), r.deleted) && Apart(r.log.Waiting(), r.worked)
  }

  lemma WaitingAfter<T>(r: Run<T>, op: Op<T>)
    requires r.log.Ok()
    ensures var w, next := r.log.Waiting(), Apply(r, op).log;
            && next.Ok()
            && (next.Waiting() == w
                || (op.Queue? && !r.frozen && next.Waiting() == w + [op.item])
                || (w != [] && (op.Dequeue? || op.Work?) && next.Waiting() == w[1..])
                || (op.Clear? && next.Waiting() == []))
  {
  }

  lemma ApplyKeepsClean<T>(r: Run<T>, op: Op<T>)
    requires Clean(r) && Allowed(r, op)
    ensures Clean(Apply(r, op))
  {
    WaitingAfter(r, op);
  }

  lemma LawfulInit<T>(ops: seq<Op<T>>, p: nat)
    requires Lawful(ops) && p <= |ops|
    ensures Lawful(ops[..p])
  {
    forall i | 0 <= i < p ensures Allowed(After(ops[..p][..i]), ops[..p][i]) {
      assert ops[..p][..i] == ops[..i];
      assert Allowed(After(ops[..i]), ops[i]);
    }
  }

  lemma LawfulStep<T>(ops: seq<Op<T>>, op: Op<T>)
    requires Lawful(ops) && Allowed(After(ops), op)
    ensures Lawful(ops + [op])
  {
    var all := ops + [op];
    forall i | 0 <= i < |all| ensures Allowed(After(all[..i]), all[i]) {
      assert all[..i] == ops[..i];
      assert ops[..|ops|] == ops;
      assert i < |ops| ==> Allowed(After(ops[..i]), ops[i]);
    }
  }

  lemma {:induction false} LawfulIsClean<T>(ops: seq<Op<T>>)
    requires Lawful(ops)
    ensures Clean(After(ops))
  {
    hide Clean, Apply, Allowed;
    if ops == [] {
      BeginClean<T>();
    } else {
      var n := |ops| - 1;
      LawfulInit(ops, n);
      LawfulIsClean(ops[..n]);
      ApplyKeepsClean(After(ops[..n]), ops[n]);
    }
  }

  lemma BeginClean<T>()
    ensures Clean<T>(Begin())
  {
  }

  /** `x` is deleted in the run and has not been accepted, taken, invoked or returned since the run was `before`. */
  ghost predicate GoneSince<T>(x: T, before: Run<T>, r: Run<T>) {
    && x in before.deleted && x in r.deleted
    && |before.log.accepted| <= |r.log.accepted| && x !in r.log.accepted[|before.log.accepted|..]
    && |before.worked| <= |r.worked| && x !in r.worked[|before.worked|..]
    && |before.invoked| <= |r.invoked| && x !in r.invoked[|before.invoked|..]
    && |before.returned| <= |r.returned| && x !in r.returned[|before.returned|..]
  }

  lemma GoneStays<T>(x: T, before: Run<T>, r: Run<T>, op: Op<T>)
    requires Clean(r) && Allowed(r, op) && GoneSince(x, before, r)
    ensures GoneSince(x, before, Apply(r, op))
  {
    if r.log.Waiting() != [] {
      assert r.log.Waiting()[0] == r.log.accepted[|r.log.fates|];
      assert x != r.log.Waiting()[0];
    }
  }

  /**
   Once an item is deleted, be it rejected by a frozen queue, dropped by clear or worked off, no continuation of the
   run accepts, invokes or returns it.
   */
  lemma {:induction false} DeletedIsGone<T>(ops: seq<Op<T>>, p: nat, x: T)
    requires Lawful(ops) && p <= |ops| && x in After(ops[..p]).deleted
    ensures GoneSince(x, After(ops[..p]), After(ops))
    decreases |ops|
  {
    hide Clean, Apply, Allowed, Lawful;
    var n := |ops| - 1;
    if p == |ops| {
      assert ops[..p] == ops;
      assert GoneSince(x, After(ops), After(ops));
    } else {
      LawfulInit(ops, n);
      assert ops[..n][..p] == ops[..p];
      DeletedIsGone(ops[..n], p, x);
      LawfulIsClean(ops[..n]);
      LawfulLast(ops);
      GoneStays(x, After(ops[..p]), After(ops[..n]), ops[n]);
    }
  }

  lemma LawfulLast<T>(ops: seq<Op<T>>)
    requires Lawful(ops) && ops != []
    ensures Allowed(After(ops[..|ops| - 1]), ops[|ops| - 1])
  {
  }

  /** An item that a frozen queue turns away is deleted. */
  lemma {:induction false} RejectedIsDeleted<T>(ops: seq<Op<T>>, x: T)
    requires x in After(ops).rejected
    ensures x in After(ops).deleted
  {
    if ops != [] && x in After(ops[..|ops| - 1]).rejected { RejectedIsDeleted(ops[..|ops| - 1], x); }
  }

  /** All of this about one lawful run. */
  lemma RunAccounted<T>(ops: seq<Op<T>>)
    requires Lawful(ops)
    ensures var r := After(ops);
            && r.log.Ok()
            && r.returned == r.log.With(Handed, |r.log.fates|) && r.worked == r.log.With(Worked, |r.log.fates|)
            && multiset(Queued(ops))
               == multiset(r.rejected) + multiset(r.returned) + multiset(r.worked)
                  + multiset(r.log.With(Dropped, |r.log.fates|)) + multiset(r.log.Waiting())
    ensures Distinct(After(ops).deleted) && Distinct(After(ops).worked) && Distinct(After(ops).invoked)
    ensures forall x :: x in After(ops).invoked ==> x in After(ops).worked
    ensures forall x :: x in After(ops).rejected ==> x in After(ops).deleted
  {
    hide After, Lawful, Queued, Log.With, Log.Waiting;
    EveryItemOnce(ops);
    AcceptedOrRejected(ops);
    LawfulIsClean(ops);
    forall x | x in After(ops).rejected ensures x in After(ops).deleted { RejectedIsDeleted(ops, x); }
  }
}
