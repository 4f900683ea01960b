/** WorkQueue.cpp: a fixed array used as a queue, and a loop that invokes items which may use the queue themselves. */
module WorkQueueModel {
  import opened WorkLog

  const QueueLength := 1024

  /** A queue owns the items it holds; `deleted` marks the one moment an item may be deleted. */
  class WorkQueueItem {
    const startsLoad: bool  // what invoke() returns
    ghost var deleted: bool

    constructor (startsLoad: bool)
      ensures !deleted && this.startsLoad == startsLoad
    {
      this.startsLoad := startsLoad;
      deleted := false;
    }

    method Delete()
      requires !deleted
      modifies this
      ensures deleted
    {
      deleted := true;
    }
  }

  type Event = Op<WorkQueueItem>

  class WorkQueue {
    const theQueue: array<WorkQueueItem?>
    var startOfQueue: nat
    var endOfQueue: nat
    var frozen: bool

    ghost var trace: seq<Event>         // everything done to this queue
    ghost var run: Run<WorkQueueItem>   // what that amounts to
    ghost var owned: set<WorkQueueItem> // the waiting items

    /** The history of the queue is lawful, and its deleted items are deleted. */
    ghost predicate HistoryValid()
      reads this`trace, this`run, run.deleted
    {
      && run == After(trace) && Lawful(trace)
      && forall i :: 0 <= i < |run.deleted| ==> run.deleted[i].deleted
    }

    /** The array holds what the history leaves waiting. */
    ghost predicate ArrayValid()
      reads this, theQueue, owned
    {
      && theQueue.Length == QueueLength && startOfQueue <= endOfQueue <= QueueLength && frozen == run.frozen
      && Clean(run) && |run.log.Waiting()| == endOfQueue - startOfQueue
      && (forall i :: 0 <= i < |run.log.Waiting()| ==> theQueue[startOfQueue + i] == run.log.Waiting()[i])
      && (forall i :: 0 <= i < |run.log.Waiting()| ==> run.log.Waiting()[i] in owned)
      && (forall item :: item in owned ==> item in run.log.Waiting() && !item.deleted)
    }

    ghost predicate Valid()
      reads this, theQueue, owned, run.deleted
    {
      HistoryValid() && ArrayValid()
    }

    constructor ()
      ensures Valid() && trace == [] && !frozen && startOfQueue == endOfQueue == 0 && owned == {}
      ensures fresh(theQueue) && theQueue.Length == 1024
    {
      theQueue := new WorkQueueItem?[QueueLength](_ => null);
      startOfQueue, endOfQueue, frozen := 0, 0, false;
      trace, run, owned := [], Begin(), {};
    }

    /** Adds an event to the history. */
    ghost method Note(op: Event)
      requires run == After(trace) && Lawful(trace) && Clean(run) && Allowed(run, op)
      modifies this`trace, this`run
      ensures trace == old(trace) + [op] && run == Apply(old(run), op) && Clean(run)
      ensures run == After(trace) && Lawful(trace)
    {
      hide *;
      AfterStep(trace, op);
      LawfulStep(trace, op);
      ApplyKeepsClean(run, op);
      trace, run := trace + [op], Apply(run, op);
    }

    /** queue: takes over the item; a frozen queue deletes it at once. */
    method Queue(item: WorkQueueItem)
      requires Valid() && endOfQueue < QueueLength
      requires !item.deleted && item !in owned && item !in run.worked
      modifies this, theQueue, item
      ensures Valid() && startOfQueue == old(startOfQueue) && frozen == old(frozen)
      ensures trace == old(trace) + [Op.Queue(item)] && run == Apply(old(run), Op.Queue(item))
      ensures run.log == if frozen then old(run.log) else old(run.log).Accept(item)
      ensures item.deleted == frozen && owned == if frozen then old(owned) else old(owned) + {item}
      ensures endOfQueue == old(endOfQueue) + if frozen then 0 else 1
    {
      hide Valid, After, Lawful, Clean, Apply, Log.Waiting, Allowed;
      MayQueue(item);
      FlagIs();
      if frozen {
        Reject(item);
        return;
      }
      Accept(item);
    }

    lemma FlagIs()
      requires Valid()
      ensures frozen == run.frozen && run.log.Ok()
    {
      hide After, Lawful;
    }

    method Reject(item: WorkQueueItem)
      requires Valid() && frozen && !item.deleted && item !in owned && Allowed(run, Op.Queue(item))
      modifies this`trace, this`run, item
      ensures Valid() && trace == old(trace) + [Op.Queue(item)] && run == Apply(old(run), Op.Queue(item))
      ensures item.deleted && run.log == old(run.log)
    {
      hide After, Lawful, Clean, Apply, Log.Waiting, Allowed;
      CleanLog();
      Queueing(run, item);
      Note(Op.Queue(item));
      item.Delete();
    }

    method Accept(item: WorkQueueItem)
      requires Valid() && !frozen && endOfQueue < QueueLength && !item.deleted && Allowed(run, Op.Queue(item))
      modifies this`trace, this`run, this`owned, this`endOfQueue, theQueue
      ensures Valid() && trace == old(trace) + [Op.Queue(item)] && run == Apply(old(run), Op.Queue(item))
      ensures run.log == old(run.log).Accept(item) && owned == old(owned) + {item} && endOfQueue == old(endOfQueue) + 1
    {
      hide After, Lawful, Clean, Apply, Log.Waiting, Allowed;
      CleanLog();
      Queueing(run, item);
      Note(Op.Queue(item));
      theQueue[endOfQueue] := item;
      endOfQueue := endOfQueue + 1;
      owned := owned + {item};
    }

    lemma MayQueue(item: WorkQueueItem)
      requires Valid() && !item.deleted && item !in owned && item !in run.worked
      ensures Allowed(run, Op.Queue(item))
    {
      hide Lawful, After, Clean;
    }

    lemma MayAlways(op: Event)
      requires !op.Queue? && !op.Invoke? && !op.Delete?
      ensures Allowed(run, op)
    {
    }

    lemma CleanLog()
      requires Clean(run)
      ensures run.log.Ok() && Distinct(run.log.Waiting())
      ensures forall i :: 0 <= i < |run.log.Waiting()| ==> run.log.Waiting()[i] !in run.worked
    {
    }

    /** dequeue: hands over the oldest waiting item, or null; `forWork` tells the history who is asking. */
    method Dequeue(ghost forWork: bool) returns (item: WorkQueueItem?)
      requires Valid()
      modifies this
      ensures Valid() && frozen == old(frozen) && endOfQueue == old(endOfQueue)
      ensures var op: Event := if forWork then Op.Work else Op.Dequeue; trace == old(trace) + [op] && run == Apply(old(run), op)
      ensures old(run.log).Waiting() == [] ==>
                item == null && run == old(run) && startOfQueue == old(startOfQueue) && owned == old(owned)
      ensures old(run.log).Waiting() != [] ==>
                && item == old(run.log).Waiting()[0] && run.log == old(run.log).Take(if forWork then Worked else Handed)
                && startOfQueue == old(startOfQueue) + 1
                && item !in owned && owned == old(owned) - {item} && !item.deleted && item !in old(run.worked)
    {
      hide After, Lawful, Clean, Apply, Log.Waiting, Allowed;
      CleanLog();
      ghost var op: Event := if forWork then Op.Work else Op.Dequeue;
      MayAlways(op);
      Taking(run, op);
      Note(op);
      if startOfQueue == endOfQueue {
        return null;
      }
      item := theQueue[startOfQueue];
      startOfQueue := startOfQueue + 1;
      owned := owned - {item};
    }

    method Count() returns (n: nat)
      requires Valid()
      ensures n == |run.log.Waiting()|
    {
      n := endOfQueue - startOfQueue;
    }

    method SetFrozen(b: bool)
      requires Valid()
      modifies this`frozen, this`trace, this`run
      ensures Valid() && frozen == b && trace == old(trace) + [Op.SetFrozen(b)]
      ensures run == old(run).(frozen := b)
    {
      hide After, Lawful, Clean, Apply, Log.Waiting, Allowed;
      CleanLog();
      MayAlways(Op.SetFrozen(b));
      Freezing(run, b);
      Note(Op.SetFrozen(b));
      frozen := b;
    }

    lemma SlotsWait()
      requires Valid()
      ensures forall j :: startOfQueue <= j < endOfQueue ==> theQueue[j] == run.log.Waiting()[j - startOfQueue]
    {
      hide After, Lawful, Clean;
    }

    /** The loop of clear. */
    method DeleteAll(ghost waiting: seq<WorkQueueItem>)
      requires startOfQueue <= endOfQueue <= theQueue.Length && |waiting| == endOfQueue - startOfQueue
      requires forall j :: startOfQueue <= j < endOfQueue ==> theQueue[j] == waiting[j - startOfQueue]
      requires Distinct(waiting) && forall i :: 0 <= i < |waiting| ==> !waiting[i].deleted
      modifies theQueue, waiting
      ensures forall i :: 0 <= i < |waiting| ==> waiting[i].deleted
      ensures forall j :: startOfQueue <= j < endOfQueue ==> theQueue[j] == null
      ensures forall j :: 0 <= j < startOfQueue || endOfQueue <= j < theQueue.Length ==> theQueue[j] == old(theQueue[j])
    {
      var i := startOfQueue;
      while i < endOfQueue
        invariant startOfQueue <= i <= endOfQueue
        invariant forall j :: startOfQueue <= j < i ==> theQueue[j] == null
        invariant forall j :: 0 <= j < startOfQueue || i <= j < theQueue.Length ==> theQueue[j] == old(theQueue[j])
        invariant forall j :: 0 <= j < |waiting| ==> waiting[j].deleted == (j < i - startOfQueue)
      {
        DeleteSlot(i, waiting);
        i := i + 1;
      }
    }

    /** One turn of that loop. */
    method DeleteSlot(i: nat, ghost waiting: seq<WorkQueueItem>)
      requires startOfQueue <= i < theQueue.Length && i - startOfQueue < |waiting| && Distinct(waiting)
      requires theQueue[i] == waiting[i - startOfQueue] && !waiting[i - startOfQueue].deleted
      modifies theQueue, waiting[i - startOfQueue]
      ensures waiting[i - startOfQueue].deleted && theQueue[i] == null
      ensures forall j :: 0 <= j < theQueue.Length && j != i ==> theQueue[j] == old(theQueue[j])
      ensures forall j :: 0 <= j < |waiting| && j != i - startOfQueue ==> waiting[j].deleted == old(waiting[j].deleted)
    {
      theQueue[i].Delete();
      theQueue[i] := null;
    }

    /** clear: deletes every waiting item once and starts over. */
    method Clear()
      requires Valid()
      modifies this, theQueue, owned
      ensures Valid() && frozen == old(frozen) && startOfQueue == endOfQueue == 0
      ensures trace == old(trace) + [Op.Clear] && run == Apply(old(run), Op.Clear)
      ensures run.log == old(run.log).Drop() && owned == {}
      ensures forall item :: item in old(owned) ==> item.deleted
      ensures forall j :: old(startOfQueue) <= j < old(endOfQueue) ==> theQueue[j] == null
    {
      hide After, Lawful, Clean, Apply, Log.Waiting, Allowed;
      CleanLog();
      SlotsWait();
      DeleteAll(run.log.Waiting());
      MayAlways(Op.Clear);
      Clearing(run);
      Note(Op.Clear);
      startOfQueue, endOfQueue, owned := 0, 0, {};
    }

    // ----- processWork -----

    /**
     item->invoke(): unknown code that may use the queue in any way: it may queue new items, freeze or unfreeze the
     queue, take items out and keep, delete or queue them again, clear the queue, and call processWork, which may go
     on for any number of turns and be nested to any depth `nesting`. `plain` invocations only queue items and
     change the flag.
     */
    method Invoke(item: WorkQueueItem, plain: bool, nesting: nat) returns (startedLoad: bool)
      requires Valid() && !item.deleted && item !in owned && item in run.worked && item !in run.invoked
      modifies this, theQueue, owned
      ensures startedLoad == item.startsLoad
      ensures Valid() && !item.deleted && item !in owned && item in run.invoked
      ensures old(trace) + [Op.Invoke(item)] <= trace && Grows(old(run), run) && fresh(owned - old(owned))
      ensures plain ==> startOfQueue == old(startOfQueue) && OnlyAccepted(old(run.log), run.log)
      decreases nesting, 0
    {
      hide Valid, Apply, After;
      NoteInvoke(item);
      var calls: nat := *;
      while calls > 0
        invariant Valid() && !item.deleted && item !in owned && item in run.invoked
        invariant old(trace) + [Op.Invoke(item)] <= trace && Grows(old(run), run) && fresh(owned - old(owned))
        invariant plain ==> startOfQueue == old(startOfQueue) && OnlyAccepted(old(run.log), run.log)
      {
        var choice: int := *;
        if plain || choice == 0 {
          UseQueue(item);
        } else if nesting > 0 && choice == 1 {
          var turns: nat := *;
          var done, cut, invoked, at := ProcessWork(false, turns, nesting - 1);
        } else {
          TakeOut(item);
        }
        calls := calls - 1;
      }
      startedLoad := item.startsLoad;
    }

    ghost method NoteInvoke(item: WorkQueueItem)
      requires Valid() && !item.deleted && item in run.worked && item !in run.invoked
      modifies this`trace, this`run
      ensures Valid() && trace == old(trace) + [Op.Invoke(item)] && run == old(run).(invoked := old(run.invoked) + [item])
    {
      hide After, Lawful, Clean, Apply, Log.Waiting;
      CleanLog();
      Invoking(run, item);
      Note(Op.Invoke(item));
    }

    /** What has been worked off or deleted stays so. */
    static ghost predicate Grows(before: Run<WorkQueueItem>, r: Run<WorkQueueItem>) {
      before.worked <= r.worked && before.invoked <= r.invoked && before.deleted <= r.deleted
    }

    /** The log only got more accepted items. */
    static ghost predicate OnlyAccepted(before: Log<WorkQueueItem>, log: Log<WorkQueueItem>) {
      log.fates == before.fates && before.accepted <= log.accepted
    }

    /** One use of the queue by `item`: a new item is queued or the flag is set. */
    method UseQueue(ghost item: WorkQueueItem)
      requires Valid() && item !in owned
      modifies this, theQueue
      ensures Valid() && item !in owned && startOfQueue == old(startOfQueue) && OnlyAccepted(old(run.log), run.log)
      ensures old(trace) <= trace && Grows(old(run), run) && fresh(owned - old(owned))
    {
      hide Valid, Apply;
      ValidSizes();
      var queues: bool := *;
      if queues && endOfQueue < QueueLength {
        var startsLoad: bool := *;
        var next := new WorkQueueItem(startsLoad);
        Queueing(run, next);
        Queue(next);
      } else {
        var freeze: bool := *;
        SetFrozen(freeze);
      }
    }

    /** Another use by `item`: the queue is cleared, or an item is taken out and kept, deleted or queued again. */
    method TakeOut(ghost item: WorkQueueItem)
      requires Valid() && item !in owned
      modifies this, theQueue, owned
      ensures Valid() && item !in owned && old(trace) <= trace && Grows(old(run), run)
      ensures fresh(owned - old(owned))
    {
      hide *;
      ValidSizes();
      if * {
        Clearing(run);
        Clear();
        GrowsBy(old(run), run);
      } else {
        Taking(run, Op.Dequeue);
        var taken := Dequeue(false);
        GrowsBy(old(run), run);
        var choice: int := *;
        if taken != null && choice == 0 {
          TakenDelete(taken);
        } else if taken != null && choice == 1 && endOfQueue < QueueLength {
          ghost var between := run;
          ValidSizes();
          Queueing(run, taken);
          Queue(taken);
          GrowsBy(between, run);
          GrowsOn(old(run), between, run);
        }
      }
    }

    static lemma GrowsBy(before: Run<WorkQueueItem>, r: Run<WorkQueueItem>)
      requires before.worked <= r.worked && before.invoked <= r.invoked && before.deleted <= r.deleted
      ensures Grows(before, r)
    {
    }

    static lemma GrowsOn(before: Run<WorkQueueItem>, between: Run<WorkQueueItem>, r: Run<WorkQueueItem>)
      requires Grows(before, between) && Grows(between, r)
      ensures Grows(before, r)
    {
    }

    /** Deleting an item that was taken out does not concern the queue. */
    method TakenDelete(taken: WorkQueueItem)
      requires Valid() && !taken.deleted && taken !in owned
      modifies taken
      ensures Valid() && taken.deleted
    {
      hide After, Lawful, Clean, Log.Waiting;
      taken.Delete();
    }

    lemma ValidSizes()
      requires Valid()
      ensures startOfQueue <= endOfQueue <= QueueLength && run.log.Ok() && |run.log.Waiting()| == endOfQueue - startOfQueue
      ensures run.log.Waiting() != [] ==> run.log.Waiting()[0] in owned
      ensures run == After(trace) && Lawful(trace)
    {
      hide After, Lawful;
    }

    lemma Slots()
      requires Valid()
      ensures |run.log.Waiting()| == endOfQueue - startOfQueue <= theQueue.Length - startOfQueue
      ensures forall i :: 0 <= i < endOfQueue - startOfQueue ==> theQueue[startOfQueue + i] == run.log.Waiting()[i]
    {
      hide After, Lawful, Clean;
    }

    lemma DeletedFlags()
      requires Valid()
      ensures forall x :: x in run.deleted ==> x.deleted
    {
      hide After, Lawful, Clean;
    }

    lemma WaitingNotInvoked()
      requires Valid()
      ensures run.log.Waiting() != [] ==> run.log.Waiting()[0] !in run.invoked
    {
      hide After, Lawful;
    }

    /** The deletion at the end of a turn. */
    method DeleteWorked(item: WorkQueueItem)
      requires Valid() && !item.deleted && item !in owned && item in run.invoked
      modifies this`trace, this`run, item
      ensures Valid() && trace == old(trace) + [Op.Delete(item)] && run == old(run).(deleted := old(run.deleted) + [item])
      ensures item.deleted
    {
      hide After, Lawful, Clean, Apply, Log.Waiting;
      CleanLog();
      Deleting(run, item);
      Note(Op.Delete(item));
      item.Delete();
    }

    /** One turn of the loop in processWork. */
    method ProcessOne(plain: bool, nesting: nat) returns (item: WorkQueueItem, startedLoad: bool)
      requires Valid() && startOfQueue < endOfQueue
      modifies this, theQueue, owned
      ensures Valid() && old(run.log).Waiting() != [] && item == old(run.log).Waiting()[0]
      ensures old(trace) + [Op.Work, Op.Invoke(item)] <= trace && fresh(owned - old(owned))
      ensures startedLoad == item.startsLoad
      ensures item.deleted && item in run.deleted && item in old(owned) && item !in owned
      ensures item in run.invoked && Grows(old(run), run)
      ensures plain ==> startOfQueue == old(startOfQueue) + 1 && OnlyAccepted(old(run.log).Take(Worked), run.log)
      decreases nesting, 1
    {
      hide Valid, Apply, After;
      ValidSizes();
      Taking(run, Op.Work);
      WaitingNotInvoked();
      var next := Dequeue(true);
      item := next;
      assert old(trace) + [Op.Work] + [Op.Invoke(item)] == old(trace) + [Op.Work, Op.Invoke(item)];
      startedLoad := Invoke(item, plain, nesting);
      DeleteWorked(item);
    }

    /** The items were taken by processWork at these points of the history, each the oldest waiting then, and invoked. */
    static ghost predicate TakenAt(invoked: seq<WorkQueueItem>, at: seq<nat>, from: nat, trace: seq<Event>) {
      && |at| == |invoked|
      && (forall i :: 0 <= i < |at| ==> from <= at[i] && OldestAt(invoked[i], at[i], trace))
      && (forall i, j :: 0 <= i < j < |at| ==> at[i] < at[j])
    }

    static ghost predicate OldestAt(item: WorkQueueItem, n: nat, trace: seq<Event>) {
      n + 1 < |trace| && trace[n] == Op.Work && trace[n + 1] == Op.Invoke(item) && var w := After(trace[..n]).log.Waiting(); w != [] && w[0] == item
    }

    static lemma OldestStays(item: WorkQueueItem, n: nat, before: seq<Event>, trace: seq<Event>)
      requires OldestAt(item, n, before) && before <= trace
      ensures OldestAt(item, n, trace) && n < |before|
    {
      hide After;
      assert trace[..n] == before[..n] && trace[n] == before[n] && trace[n + 1] == before[n + 1];
    }

    static lemma OldestNow(item: WorkQueueItem, before: seq<Event>, trace: seq<Event>)
      requires before + [Op.Work, Op.Invoke(item)] <= trace
      requires var w := After(before).log.Waiting(); w != [] && w[0] == item
      ensures OldestAt(item, |before|, trace)
    {
      hide After;
      var now := before + [Op.Work, Op.Invoke(item)];
      assert trace[..|before|] == before && trace[|before|] == now[|before|] && trace[|before| + 1] == now[|before| + 1];
    }

    static lemma TakenNext(invoked: seq<WorkQueueItem>, at: seq<nat>, from: nat, before: seq<Event>, trace: seq<Event>, item: WorkQueueItem)
      requires TakenAt(invoked, at, from, before) && from <= |before| && before + [Op.Work, Op.Invoke(item)] <= trace
      requires var w := After(before).log.Waiting(); w != [] && w[0] == item
      ensures TakenAt(invoked + [item], at + [|before|], from, trace)
    {
      hide OldestAt, After, Log.Waiting;
      OldestNow(item, before, trace);
      forall i | 0 <= i < |at| ensures at[i] < |before| && OldestAt(invoked[i], at[i], trace) {
        OldestStays(invoked[i], at[i], before, trace);
      }
      var items, points := invoked + [item], at + [|before|];
      forall i | 0 <= i < |points| ensures from <= points[i] && OldestAt(items[i], points[i], trace) {
        if i < |at| { assert points[i] == at[i] && items[i] == invoked[i]; }
      }
    }

    /**
     processWork, watched for at most `turns` turns: invokes waiting items, including those queued meanwhile, oldest
     first, until none is left or one starts a load; every invoked item is deleted afterwards. `done` means that all
     work is done; `cut` that the watch ended first, which does not happen with plain invocations and enough turns.
     */
    method ProcessWork(plain: bool, turns: nat, nesting: nat)
      returns (done: bool, cut: bool, ghost invoked: seq<WorkQueueItem>, ghost at: seq<nat>)
      requires Valid()
      modifies this, theQueue, owned
      ensures Valid() && |invoked| <= turns
      ensures old(trace) <= trace && Grows(old(run), run) && fresh(owned - old(owned))
      ensures TakenAt(invoked, at, |old(trace)|, trace)
      ensures forall i :: 0 <= i < |invoked| ==> invoked[i].deleted && invoked[i] in run.deleted && invoked[i] in run.invoked
      ensures done <==> !(invoked != [] && invoked[|invoked| - 1].startsLoad)
      ensures forall i :: 0 <= i < |invoked| - 1 ==> !invoked[i].startsLoad
      ensures cut <==> done && run.log.Waiting() != []
      ensures cut ==> |invoked| == turns
      ensures plain ==> PlainWork(old(run.log), run.log, invoked)
      ensures plain && turns >= QueueLength - old(startOfQueue) ==> !cut
      decreases nesting, 2
    {
      hide Valid, Apply, After, TakenAt, PlainWork, OnlyAccepted, Log.Waiting;
      ValidSizes();
      var startedLoad := false;
      var turn := 0;
      invoked, at := [], [];
      WorkStart();
      while !startedLoad && startOfQueue < endOfQueue && turn < turns
        invariant Valid() && |invoked| == turn <= turns
        invariant startOfQueue <= endOfQueue <= QueueLength && |run.log.Waiting()| == endOfQueue - startOfQueue
        invariant old(trace) <= trace && Grows(old(run), run) && fresh(owned - old(owned))
        invariant TakenAt(invoked, at, |old(trace)|, trace)
        invariant forall i :: 0 <= i < |invoked| ==> invoked[i] in run.deleted && invoked[i] in run.invoked
        invariant startedLoad <==> invoked != [] && invoked[|invoked| - 1].startsLoad
        invariant forall i :: 0 <= i < |invoked| - 1 ==> !invoked[i].startsLoad
        invariant plain ==> PlainWork(old(run.log), run.log, invoked) && startOfQueue == old(startOfQueue) + turn
        decreases turns - turn
      {
        ghost var before, log := trace, run.log;
        ValidSizes();
        var item;
        item, startedLoad := ProcessOne(plain, nesting);
        ValidSizes();
        TakenNext(invoked, at, |old(trace)|, before, trace, item);
        if plain { PlainNext(old(run.log), log, run.log, invoked, item); }
        invoked, at := invoked + [item], at + [|before|];
        turn := turn + 1;
      }
      done := !startedLoad;
      cut := done && startOfQueue < endOfQueue;
      DeletedFlags();
    }

    /** With plain invocations the items worked off are the next accepted ones, in order. */
    static ghost predicate PlainWork(before: Log<WorkQueueItem>, log: Log<WorkQueueItem>, invoked: seq<WorkQueueItem>) {
      && log.Ok() && before.accepted <= log.accepted && log.fates == before.fates + seq(|invoked|, _ => Worked)
      && invoked == log.accepted[|before.fates|..|log.fates|]
    }

    static lemma PlainNext(before: Log<WorkQueueItem>, log: Log<WorkQueueItem>, next: Log<WorkQueueItem>,
                           invoked: seq<WorkQueueItem>, item: WorkQueueItem)
      requires PlainWork(before, log, invoked) && log.Waiting() != [] && item == log.Waiting()[0]
      requires OnlyAccepted(log.Take(Worked), next)
      ensures PlainWork(before, next, invoked + [item])
    {
    }

    lemma WorkStart()
      requires Valid()
      ensures PlainWork(run.log, run.log, []) && TakenAt([], [], |trace|, trace)
    {
      hide After, Lawful;
    }

    // ----- Every queue -----

    /**
     What holds of every queue, whatever has been done to it: every item ever passed to queue was rejected, returned,
     worked off, dropped or is in the array, each once and in the order of acceptance; nothing was deleted or worked
     off twice; and what was deleted at any time, rejected items among it, was not accepted, invoked or returned since.
     */
    lemma {:induction false} Accounted()
      requires Valid()
      ensures |run.log.Waiting()| == endOfQueue - startOfQueue
      ensures forall i :: 0 <= i < endOfQueue - startOfQueue ==> theQueue[startOfQueue + i] == run.log.Waiting()[i]
      ensures run.returned == run.log.With(Handed, |run.log.fates|) && run.worked == run.log.With(Worked, |run.log.fates|)
      ensures multiset(Queued(trace))
           == multiset(run.rejected) + multiset(run.returned) + multiset(run.worked)
              + multiset(run.log.With(Dropped, |run.log.fates|)) + multiset(run.log.Waiting())
      ensures Distinct(run.deleted) && Distinct(run.worked) && Distinct(run.invoked)
      ensures forall x :: x in run.invoked ==> x in run.worked
      ensures forall x :: x in run.rejected ==> x in run.deleted
      ensures forall x :: x in run.deleted ==> x.deleted
      ensures forall p, x :: 0 <= p <= |trace| && x in After(trace[..p]).deleted ==> GoneSince(x, After(trace[..p]), run)
    {
      hide *;
      ValidSizes();
      Slots();
      DeletedFlags();
      RunAccounted(trace);
      forall p, x | 0 <= p <= |trace| && x in After(trace[..p]).deleted ensures GoneSince(x, After(trace[..p]), run) {
        DeletedIsGone(trace, p, x);
      }
    }
  }
}
