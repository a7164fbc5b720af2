/**
 Background jobs: what each operation of the memory adapter does to the list of jobs, which events
 it publishes, and what a subscriber's reducer makes of them.
 */
module Jobs {

  import opened Options

  datatype Status = Queued | Running | Paused | Completed | Failed | Canceled

  datatype ErrorField = Absent | NoError | Message(text: string)

  datatype Job = Job(id: string, title: string, kind: string, createdAt: int, updatedAt: int, status: Status,
                     progress: Option<int>, error: ErrorField, payload: string, meta: string)

  /** The fields a patch sets. */
  datatype Patch = Patch(status: Option<Status>, progress: Option<int>, error: Option<ErrorField>)

  datatype Event = Snapshot(items: seq<Job>) | Patched(id: string, patch: Patch)

  datatype Op =
    | Enqueue(id: string, title: string, kind: string, payload: string, meta: string, at: int)
    | Start(id: string, at: int)
    | Pause(id: string, at: int)
    | Cancel(id: string, at: int)
    | Remove(id: string)
    | Tick(steps: seq<nat>, at: int)

  /** The random step a tick draws for a job lies between 0 and 7. */
  predicate Drawn(op: Op) {
    op.Tick? ==> forall i :: 0 <= i < |op.steps| ==> op.steps[i] <= 7
  }

  // ---------- The adapter's operations ----------

  /** The position of the first job with this id, |jobs| if there is none. */
  function IndexOf(jobs: seq<Job>, id: string): (i: nat)
    ensures i <= |jobs|
    ensures i < |jobs| ==> jobs[i].id == id
    ensures forall j :: 0 <= j < i ==> jobs[j].id != id
  {
    if jobs == [] || jobs[0].id == id then 0 else 1 + IndexOf(jobs[1..], id)
  }

  function NewJob(id: string, title: string, kind: string, payload: string, meta: string, at: int): Job {
    Job(id, title, kind, at, at, Queued, Some(0), NoError, payload, meta)
  }

  function Level(job: Job): int {
    if job.progress == None then 0 else job.progress.value
  }

  function Min(a: int, b: int): int {
    if a < b then a else b
  }

  function Next(job: Job, step: nat): int {
    Min(100, Level(job) + step)
  }

  /** A tick moves a running job on; a job whose progress does not change is left alone. */
  function Ticked(job: Job, step: nat, at: int): Job {
    var next := Next(job, step);
    if job.status != Running || Some(next) == job.progress then job
    else job.(progress := Some(next), updatedAt := at, status := if next >= 100 then Completed else Running)
  }

  function TickEvents(job: Job, step: nat): seq<Event> {
    var next := Next(job, step);
    if job.status != Running || Some(next) == job.progress then []
    else
      [Patched(job.id, Patch(None, Some(next), None))]
      + if next >= 100 then [Patched(job.id, Patch(Some(Completed), None, None))] else []
  }

  function StepOf(steps: seq<nat>, i: nat): nat {
    if i < |steps| then steps[i] else 0
  }

  function TickedFrom(jobs: seq<Job>, steps: seq<nat>, at: int): (r: seq<Job>)
    ensures |r| == |jobs|
    ensures forall i :: 0 <= i < |r| ==> r[i] == Ticked(jobs[i], StepOf(steps, i), at)
  {
    seq(|jobs|, i requires 0 <= i < |jobs| => Ticked(jobs[i], StepOf(steps, i), at))
  }

  /** The events of a tick for the first n jobs. */
  function TickEventsTo(jobs: seq<Job>, steps: seq<nat>, n: nat): seq<Event>
    requires n <= |jobs|
  {
    if n == 0 then [] else TickEventsTo(jobs, steps, n - 1) + TickEvents(jobs[n - 1], StepOf(steps, n - 1))
  }

  function SetStatus(job: Job, op: Op): Job
    requires op.Start? || op.Pause? || op.Cancel?
  {
    match op
    case Start(_, at) => job.(status := Running, error := NoError, updatedAt := at)
    case Pause(_, at) => job.(status := Paused, updatedAt := at)
    case Cancel(_, at) => job.(status := Canceled, updatedAt := at)
  }

  function StatusPatch(op: Op): Patch
    requires op.Start? || op.Pause? || op.Cancel?
  {
    match op
    case Start(_, _) => Patch(Some(Running), None, Some(NoError))
    case Pause(_, _) => Patch(Some(Paused), None, None)
    case Cancel(_, _) => Patch(Some(Canceled), None, None)
  }

  function After(jobs: seq<Job>, op: Op): seq<Job> {
    match op
    case Enqueue(id, title, kind, payload, meta, at) => [NewJob(id, title, kind, payload, meta, at)] + jobs
    case Remove(id) => var i := IndexOf(jobs, id); if i == |jobs| then jobs else jobs[..i] + jobs[i + 1..]
    case Tick(steps, at) => TickedFrom(jobs, steps, at)
    case _ => var i := IndexOf(jobs, op.id); if i == |jobs| then jobs else jobs[i := SetStatus(jobs[i], op)]
  }

  function Events(jobs: seq<Job>, op: Op): seq<Event> {
    match op
    case Enqueue(_, _, _, _, _, _) => [Snapshot(After(jobs, op))]
    case Remove(id) => if IndexOf(jobs, id) == |jobs| then [] else [Snapshot(After(jobs, op))]
    case Tick(steps, _) => TickEventsTo(jobs, steps, |jobs|)
    case _ => if IndexOf(jobs, op.id) == |jobs| then [] else [Patched(op.id, StatusPatch(op))]
  }

  // ---------- The subscriber ----------

  function ApplyPatch(job: Job, p: Patch): Job {
    job.(status := if p.status == None then job.status else p.status.value,
         progress := if p.progress == None then job.progress else p.progress,
         error := if p.error == None then job.error else p.error.value)
  }

  /** The reducer: a snapshot replaces the items, a patch goes to every item with its id. */
  function Reduce(items: seq<Job>, e: Event): (r: seq<Job>) {
    match e
    case Snapshot(jobs) => jobs
    case Patched(id, p) =>
      seq(|items|, i requires 0 <= i < |items| => if items[i].id == id then ApplyPatch(items[i], p) else items[i])
  }

  function ReduceAll(items: seq<Job>, es: seq<Event>): seq<Job>
    decreases |es|
  {
    if es == [] then items else ReduceAll(Reduce(items, es[0]), es[1..])
  }

  // ---------- The replica follows the list ----------

  predicate UniqueIds(jobs: seq<Job>) {
    forall i, j :: 0 <= i < j < |jobs| ==> jobs[i].id != jobs[j].id
  }

  /** Equal in every field but updatedAt. */
  predicate SameJob(a: Job, b: Job) {
    a == b.(updatedAt := a.updatedAt)
  }

  predicate Same(items: seq<Job>, jobs: seq<Job>) {
    |items| == |jobs| && forall i :: 0 <= i < |jobs| ==> SameJob(items[i], jobs[i])
  }

  /** A new job's id is not in the list. */
  predicate Enabled(jobs: seq<Job>, op: Op) {
    Drawn(op) && (op.Enqueue? ==> IndexOf(jobs, op.id) == |jobs|)
  }

  lemma StaysUnique(jobs: seq<Job>, op: Op)
    requires UniqueIds(jobs) && Enabled(jobs, op)
    ensures UniqueIds(After(jobs, op))
  {
  }

  lemma {:induction false} ReduceAppend(items: seq<Job>, es: seq<Event>, fs: seq<Event>)
    ensures ReduceAll(items, es + fs) == ReduceAll(ReduceAll(items, es), fs)
    decreases |es|
  {
    if es == [] {
      assert es + fs == fs;
    } else {
      assert (es + fs)[0] == es[0] && (es + fs)[1..] == es[1..] + fs;
      ReduceAppend(Reduce(items, es[0]), es[1..], fs);
    }
  }

  /** The events of one job's tick change exactly that job in the replica. */
  lemma TickOne(items: seq<Job>, jobs: seq<Job>, k: nat, step: nat, at: int)
    requires UniqueIds(items) && k < |items| && |items| == |jobs| && SameJob(items[k], jobs[k])
    ensures
      var r := ReduceAll(items, TickEvents(jobs[k], step));
      |r| == |items| && SameJob(r[k], Ticked(jobs[k], step, at)) && forall i :: 0 <= i < |r| && i != k ==> r[i] == items[i]
  {
    var next := Next(jobs[k], step);
    if jobs[k].status == Running && Some(next) != jobs[k].progress {
      var e := Patched(jobs[k].id, Patch(None, Some(next), None));
      var f := Patched(jobs[k].id, Patch(Some(Completed), None, None));
      var once := Reduce(items, e);
      assert ReduceAll(once, []) == once;
      if next >= 100 {
        assert [e] + [f] == [e, f] && [e, f][1..] == [f] && [f][1..] == [];
        assert ReduceAll(once, [f]) == ReduceAll(Reduce(once, f), []) == Reduce(once, f);
        assert ReduceAll(items, [e, f]) == Reduce(once, f);
      } else {
        assert [e] + [] == [e] && [e][1..] == [];
        assert ReduceAll(items, [e]) == once;
      }
    }
  }

  /** The replica r once the events of the first n jobs have reached the items. */
  predicate TickedUpTo(r: seq<Job>, items: seq<Job>, jobs: seq<Job>, steps: seq<nat>, at: int, n: nat) {
    && |r| == |jobs| == |items|
    && (forall i :: 0 <= i < n && i < |jobs| ==> SameJob(r[i], Ticked(jobs[i], StepOf(steps, i), at)))
    && forall i :: n <= i < |jobs| ==> r[i] == items[i]
  }

  lemma TickedOneMore(before: seq<Job>, r: seq<Job>, items: seq<Job>, jobs: seq<Job>, steps: seq<nat>, at: int, n: nat)
    requires n < |jobs| && TickedUpTo(before, items, jobs, steps, at, n)
    requires |r| == |before| && SameJob(r[n], Ticked(jobs[n], StepOf(steps, n), at))
    requires forall i :: 0 <= i < |r| && i != n ==> r[i] == before[i]
    ensures TickedUpTo(r, items, jobs, steps, at, n + 1)
  {
    hide StepOf, Ticked, SameJob;
  }

  lemma UniqueTicked(jobs: seq<Job>, r: seq<Job>, steps: seq<nat>, at: int, n: nat, items: seq<Job>)
    requires UniqueIds(jobs) && Same(items, jobs) && TickedUpTo(r, items, jobs, steps, at, n)
    ensures UniqueIds(r)
  {
    hide StepOf, Next;
    assert forall i :: 0 <= i < |r| ==> r[i].id == jobs[i].id;
  }

  lemma TickAt(before: seq<Job>, items: seq<Job>, jobs: seq<Job>, steps: seq<nat>, at: int, n: nat)
    requires UniqueIds(jobs) && Same(items, jobs) && n < |jobs| && TickedUpTo(before, items, jobs, steps, at, n)
    ensures TickedUpTo(ReduceAll(before, TickEvents(jobs[n], StepOf(steps, n))), items, jobs, steps, at, n + 1)
  {
    UniqueTicked(jobs, before, steps, at, n, items);
    hide TickEvents, ReduceAll, StepOf, Ticked, SameJob, UniqueIds;
    TickOne(before, jobs, n, StepOf(steps, n), at);
    TickedOneMore(before, ReduceAll(before, TickEvents(jobs[n], StepOf(steps, n))), items, jobs, steps, at, n);
  }

  lemma {:induction false} TickFollowed(items: seq<Job>, jobs: seq<Job>, steps: seq<nat>, at: int, n: nat)
    requires UniqueIds(jobs) && Same(items, jobs) && n <= |jobs|
    ensures TickedUpTo(ReduceAll(items, TickEventsTo(jobs, steps, n)), items, jobs, steps, at, n)
  {
    hide TickEventsTo, TickEvents, StepOf, Ticked, SameJob, UniqueIds, TickedUpTo, Same, ReduceAll;
    if n > 0 {
      TickFollowed(items, jobs, steps, at, n - 1);
      var first, last := TickEventsTo(jobs, steps, n - 1), TickEvents(jobs[n - 1], StepOf(steps, n - 1));
      NextTickEvents(jobs, steps, n);
      ReduceAppend(items, first, last);
      TickAt(ReduceAll(items, first), items, jobs, steps, at, n - 1);
    } else {
      NothingTicked(items, jobs, steps, at);
    }
  }

  lemma NextTickEvents(jobs: seq<Job>, steps: seq<nat>, n: nat)
    requires 0 < n <= |jobs|
    ensures TickEventsTo(jobs, steps, n) == TickEventsTo(jobs, steps, n - 1) + TickEvents(jobs[n - 1], StepOf(steps, n - 1))
  {
  }

  lemma NothingTicked(items: seq<Job>, jobs: seq<Job>, steps: seq<nat>, at: int)
    requires Same(items, jobs)
    ensures TickedUpTo(ReduceAll(items, TickEventsTo(jobs, steps, 0)), items, jobs, steps, at, 0)
  {
  }

  /** One operation: the subscriber's items follow the list in every field but updatedAt. */
  lemma ReplicaFollows(items: seq<Job>, jobs: seq<Job>, op: Op)
    requires UniqueIds(jobs) && Same(items, jobs) && Enabled(jobs, op)
    ensures Same(ReduceAll(items, Events(jobs, op)), After(jobs, op))
  {
    match op
    case Tick(steps, at) => TickFollowed(items, jobs, steps, at, |jobs|);
    case Enqueue(_, _, _, _, _, _) =>
      SnapshotTaken(items, After(jobs, op));
    case Remove(id) =>
      if IndexOf(jobs, id) < |jobs| {
        SnapshotTaken(items, After(jobs, op));
      }
    case _ =>
      if IndexOf(jobs, op.id) < |jobs| {
        PatchTaken(items, Patched(op.id, StatusPatch(op)));
      }
  }

  lemma SnapshotTaken(items: seq<Job>, jobs: seq<Job>)
    ensures ReduceAll(items, [Snapshot(jobs)]) == jobs
  {
    assert [Snapshot(jobs)][1..] == [];
  }

  lemma PatchTaken(items: seq<Job>, e: Event)
    ensures ReduceAll(items, [e]) == Reduce(items, e)
  {
    assert [e][1..] == [];
  }

  // ---------- What an operation leaves alone ----------

  /** The jobs with another id, in order. */
  function Others(jobs: seq<Job>, id: string): seq<Job> {
    if jobs == [] then []
    else if jobs[0].id == id then Others(jobs[1..], id)
    else [jobs[0]] + Others(jobs[1..], id)
  }

  lemma {:induction false} OthersConcat(a: seq<Job>, b: seq<Job>, id: string)
    ensures Others(a + b, id) == Others(a, id) + Others(b, id)
    decreases |a|
  {
    if a == [] {
      assert a + b == b;
    } else {
      assert (a + b)[0] == a[0] && (a + b)[1..] == a[1..] + b;
      OthersConcat(a[1..], b, id);
    }
  }

  lemma OwnIsNoOther(job: Job)
    ensures Others([job], job.id) == []
  {
  }

  lemma OthersAround(jobs: seq<Job>, i: nat, put: seq<Job>, id: string)
    requires i < |jobs| && jobs[i].id == id && forall j :: 0 <= j < |put| ==> put[j].id == id
    requires |put| <= 1
    ensures Others(jobs[..i] + put + jobs[i + 1..], id) == Others(jobs, id)
  {
    assert jobs == jobs[..i] + [jobs[i]] + jobs[i + 1..];
    OthersConcat(jobs[..i], [jobs[i]], id);
    OthersConcat(jobs[..i] + [jobs[i]], jobs[i + 1..], id);
    OthersConcat(jobs[..i], put, id);
    OthersConcat(jobs[..i] + put, jobs[i + 1..], id);
  }

  /** Every operation but a tick concerns the job with its id: all others stay as they are and in order. */
  lemma OthersKept(jobs: seq<Job>, op: Op)
    requires !op.Tick?
    ensures Others(After(jobs, op), op.id) == Others(jobs, op.id)
  {
    hide Others;
    var i := IndexOf(jobs, op.id);
    if op.Enqueue? {
      var job := NewJob(op.id, op.title, op.kind, op.payload, op.meta, op.at);
      OwnIsNoOther(job);
      OthersConcat([job], jobs, op.id);
      assert [] + Others(jobs, op.id) == Others(jobs, op.id);
    } else if i < |jobs| {
      var put := if op.Remove? then [] else [SetStatus(jobs[i], op)];
      OthersAround(jobs, i, put, op.id);
      assert jobs[..i] + put + jobs[i + 1..] == After(jobs, op);
    }
  }

  /**
   The job itself: enqueuing puts it first, as described, queued at 0 and created then; removing takes it
   out; the other operations leave it in its place with its new status and the time of the operation,
   starting also clears its error, and nothing else of it changes.
   */
  lemma OwnJob(jobs: seq<Job>, op: Op)
    requires UniqueIds(jobs) && Enabled(jobs, op) && !op.Tick?
    ensures Listed(After(jobs, op), op.id) <==> op.Enqueue? || (!op.Remove? && Listed(jobs, op.id))
    ensures
      op.Enqueue? ==>
        var job := After(jobs, op)[0];
        && job.id == op.id && job.title == op.title && job.kind == op.kind && job.payload == op.payload && job.meta == op.meta
        && job.createdAt == op.at && job.updatedAt == op.at
        && job.status == Queued && job.progress == Some(0) && job.error == NoError
    ensures
      (op.Start? || op.Pause? || op.Cancel?) && Listed(jobs, op.id) ==>
        var i := IndexOf(jobs, op.id);
        var job := After(jobs, op)[i];
        && IndexOf(After(jobs, op), op.id) == i && job.progress == jobs[i].progress
        && job.status == (if op.Start? then Running else if op.Pause? then Paused else Canceled)
        && job.error == (if op.Start? then NoError else jobs[i].error)
        && job.updatedAt == op.at && job.createdAt == jobs[i].createdAt
        && job.id == jobs[i].id && job.title == jobs[i].title && job.kind == jobs[i].kind
        && job.payload == jobs[i].payload && job.meta == jobs[i].meta
  {
    var i, after := IndexOf(jobs, op.id), After(jobs, op);
    if op.Remove? {
      assert forall j :: 0 <= j < |after| ==> after[j].id != op.id;
    } else if !op.Enqueue? && i < |jobs| {
      assert forall j :: 0 <= j < |after| ==> after[j].id == jobs[j].id;
      assert IndexOf(after, op.id) == i;
    }
  }

  predicate Listed(jobs: seq<Job>, id: string) {
    IndexOf(jobs, id) < |jobs|
  }

  // ---------- Runs ----------

  predicate Runs(jobs: seq<Job>, run: seq<Op>)
    decreases |run|
  {
    run == [] || (Enabled(jobs, run[0]) && Runs(After(jobs, run[0]), run[1..]))
  }

  function End(jobs: seq<Job>, run: seq<Op>): seq<Job>
    decreases |run|
  {
    if run == [] then jobs else End(After(jobs, run[0]), run[1..])
  }

  function AllEvents(jobs: seq<Job>, run: seq<Op>): seq<Event>
    decreases |run|
  {
    if run == [] then [] else Events(jobs, run[0]) + AllEvents(After(jobs, run[0]), run[1..])
  }

  lemma {:induction false} RunFollowed(items: seq<Job>, jobs: seq<Job>, run: seq<Op>)
    requires UniqueIds(jobs) && Same(items, jobs) && Runs(jobs, run)
    ensures Same(ReduceAll(items, AllEvents(jobs, run)), End(jobs, run)) && UniqueIds(End(jobs, run))
    decreases |run|
  {
    if run == [] {
      assert ReduceAll(items, []) == items;
    } else {
      ReplicaFollows(items, jobs, run[0]);
      StaysUnique(jobs, run[0]);
      ReduceAppend(items, Events(jobs, run[0]), AllEvents(After(jobs, run[0]), run[1..]));
      hide Same, UniqueIds, Events, After, Enabled;
      RunFollowed(ReduceAll(items, Events(jobs, run[0])), After(jobs, run[0]), run[1..]);
    }
  }

  /**
   A subscriber that is handed the current list and then every event holds, after any run, the
   adapter's list: the same jobs in the same order, equal in every field but updatedAt.
   */
  lemma SubscriberFollows(jobs: seq<Job>, run: seq<Op>)
    requires UniqueIds(jobs) && Runs(jobs, run)
    ensures Same(ReduceAll([], [Snapshot(jobs)] + AllEvents(jobs, run)), End(jobs, run))
  {
    ReduceAppend([], [Snapshot(jobs)], AllEvents(jobs, run));
    SnapshotTaken([], jobs);
    hide ReduceAll, Runs, End, AllEvents;
    RunFollowed(jobs, jobs, run);
  }

  /**
   Without unique ids it need not: the list changes only the first job with the id, the subscriber
   all of them. Starting a job is followed exactly if every other job with its id is running
   without error already.
   */
  lemma StartFollowedIff(jobs: seq<Job>, id: string, at: int)
    ensures
      Same(ReduceAll(jobs, Events(jobs, Start(id, at))), After(jobs, Start(id, at)))
      <==> forall j :: IndexOf(jobs, id) < j < |jobs| && jobs[j].id == id ==> jobs[j].status == Running && jobs[j].error == NoError
  {
    var i := IndexOf(jobs, id);
    var op := Start(id, at);
    if i < |jobs| {
      var e := Patched(id, StatusPatch(op));
      PatchTaken(jobs, e);
      var r, w := Reduce(jobs, e), After(jobs, op);
      assert SameJob(r[i], w[i]);
      forall j | 0 <= j < |jobs| && j != i
        ensures SameJob(r[j], w[j]) <==> (jobs[j].id == id ==> jobs[j].status == Running && jobs[j].error == NoError)
      {
      }
    }
  }

  // ---------- Progress ----------

  predicate ProgressInRange(jobs: seq<Job>) {
    forall i :: 0 <= i < |jobs| && jobs[i].progress != None ==> 0 <= jobs[i].progress.value <= 100
  }

  /** A job that is in both lists has not lost progress. */
  predicate NoLoss(before: seq<Job>, after: seq<Job>) {
    forall i, j :: 0 <= i < |before| && 0 <= j < |after| && before[i].id == after[j].id ==> Level(before[i]) <= Level(after[j])
  }

  /** What an operation makes of a job that was listed before it. */
  predicate MadeFrom(job: Job, next: Job) {
    next.progress == job.progress || (next.progress != None && Level(job) <= Level(next) <= 100)
  }

  lemma StepMakes(jobs: seq<Job>, op: Op)
    requires UniqueIds(jobs) && ProgressInRange(jobs) && Enabled(jobs, op)
    ensures forall i, j :: 0 <= i < |jobs| && 0 <= j < |After(jobs, op)| && jobs[i].id == After(jobs, op)[j].id ==>
              MadeFrom(jobs[i], After(jobs, op)[j])
  {
    var after := After(jobs, op);
    hide MadeFrom;
    match op
    case Tick(steps, at) =>
      forall i, j | 0 <= i < |jobs| && 0 <= j < |after| && jobs[i].id == after[j].id ensures MadeFrom(jobs[i], after[j]) {
        assert after[j].id == jobs[j].id && i == j;
        TickMakes(jobs[i], StepOf(steps, i), at);
      }
    case _ =>
      forall i, j | 0 <= i < |jobs| && 0 <= j < |after| && jobs[i].id == after[j].id ensures MadeFrom(jobs[i], after[j]) {
        assert after[j].progress == jobs[i].progress;
        SameMakes(jobs[i], after[j]);
      }
  }

  lemma TickMakes(job: Job, step: nat, at: int)
    requires Level(job) <= 100
    ensures MadeFrom(job, Ticked(job, step, at))
  {
  }

  lemma SameMakes(job: Job, next: Job)
    requires next.progress == job.progress
    ensures MadeFrom(job, next)
  {
  }

  /** No operation takes progress out of range or away from a job. */
  lemma StepProgress(jobs: seq<Job>, op: Op)
    requires UniqueIds(jobs) && ProgressInRange(jobs) && Enabled(jobs, op)
    ensures ProgressInRange(After(jobs, op)) && NoLoss(jobs, After(jobs, op))
  {
    StepMakes(jobs, op);
    StepAdds(jobs, op);
    hide After, Enabled, UniqueIds;
  }

  lemma StepAdds(jobs: seq<Job>, op: Op)
    ensures forall j :: 0 <= j < |After(jobs, op)| ==>
              After(jobs, op)[j].progress == Some(0) || exists i :: 0 <= i < |jobs| && jobs[i].id == After(jobs, op)[j].id
  {
    hide Ticked, StepOf;
    var after := After(jobs, op);
    match op
    case Tick(steps, at) =>
      forall j | 0 <= j < |after| ensures jobs[j].id == after[j].id {
        TickKeepsId(jobs[j], StepOf(steps, j), at);
      }
    case _ =>
  }

  lemma TickKeepsId(job: Job, step: nat, at: int)
    ensures Ticked(job, step, at).id == job.id
  {
  }

  /** The job is listed in every state of the run. */
  predicate StaysListed(jobs: seq<Job>, run: seq<Op>, id: string)
    decreases |run|
  {
    Listed(jobs, id) && (run == [] || StaysListed(After(jobs, run[0]), run[1..], id))
  }

  function LevelOf(jobs: seq<Job>, id: string): int
    requires Listed(jobs, id)
  {
    Level(jobs[IndexOf(jobs, id)])
  }

  lemma {:induction false} ProgressOverRun(jobs: seq<Job>, run: seq<Op>, id: string)
    requires UniqueIds(jobs) && ProgressInRange(jobs) && Runs(jobs, run)
    ensures ProgressInRange(End(jobs, run))
    ensures StaysListed(jobs, run, id) ==> Listed(End(jobs, run), id) && LevelOf(jobs, id) <= LevelOf(End(jobs, run), id)
    decreases |run|
  {
    if run != [] {
      StepProgress(jobs, run[0]);
      StaysUnique(jobs, run[0]);
      hide ProgressInRange, UniqueIds, After, Enabled;
      ProgressOverRun(After(jobs, run[0]), run[1..], id);
    }
  }

  // ---------- Completion ----------

  /** What happens to one job: a tick with the step drawn for it, or a switch of its status. */
  datatype Change = Stepped(step: nat, at: int) | Switched(op: Op)

  predicate IsSwitch(op: Op) {
    op.Start? || op.Pause? || op.Cancel?
  }

  function ApplyOne(job: Job, c: Change): Job {
    match c
    case Stepped(step, at) => Ticked(job, step, at)
    case Switched(op) => if IsSwitch(op) then SetStatus(job, op) else job
  }

  function Apply(job: Job, cs: seq<Change>): Job {
    if cs == [] then job else ApplyOne(Apply(job, cs[..|cs| - 1]), cs[|cs| - 1])
  }

  /** The changes a run makes to the job with this id. */
  function Changes(jobs: seq<Job>, run: seq<Op>, id: string): seq<Change>
    decreases |run|
  {
    if run == [] then []
    else
      (if run[0].Tick? then [Stepped(StepOf(run[0].steps, IndexOf(jobs, id)), run[0].at)]
       else if IsSwitch(run[0]) && run[0].id == id then [Switched(run[0])]
       else [])
      + Changes(After(jobs, run[0]), run[1..], id)
  }

  function JobOf(jobs: seq<Job>, id: string): Job
    requires Listed(jobs, id)
  {
    jobs[IndexOf(jobs, id)]
  }

  lemma {:induction false} ApplyConcat(job: Job, a: seq<Change>, b: seq<Change>)
    ensures Apply(job, a + b) == Apply(Apply(job, a), b)
    decreases |b|
  {
    if b == [] {
      assert a + b == a;
    } else {
      assert (a + b)[..|a + b| - 1] == a + b[..|b| - 1] && (a + b)[|a + b| - 1] == b[|b| - 1];
      ApplyConcat(job, a, b[..|b| - 1]);
    }
  }

  lemma OneChange(job: Job, c: Change)
    ensures Apply(job, [c]) == ApplyOne(job, c) && Apply(job, []) == job
  {
    assert [c][..0] == [];
  }

  /** A job is found by its id, wherever it stands. */
  lemma FoundAt(jobs: seq<Job>, i: nat)
    requires UniqueIds(jobs) && i < |jobs|
    ensures IndexOf(jobs, jobs[i].id) == i
  {
  }

  lemma StepTracked(jobs: seq<Job>, op: Op, id: string)
    requires UniqueIds(jobs) && Enabled(jobs, op) && Listed(jobs, id) && Listed(After(jobs, op), id)
    ensures JobOf(After(jobs, op), id) == Apply(JobOf(jobs, id), Changes(jobs, [op], id))
  {
    StaysUnique(jobs, op);
    var i, after := IndexOf(jobs, id), After(jobs, op);
    assert Changes(after, [op][1..], id) == [];
    if op.Tick? {
      TickKeepsId(jobs[i], StepOf(op.steps, i), op.at);
      FoundAt(after, i);
      OneChange(jobs[i], Stepped(StepOf(op.steps, i), op.at));
    } else if IsSwitch(op) && op.id == id {
      FoundAt(after, i);
      OneChange(jobs[i], Switched(op));
    } else {
      OtherTracked(jobs, op, id);
      OneChange(jobs[i], Stepped(0, 0));
    }
  }

  lemma OtherTracked(jobs: seq<Job>, op: Op, id: string)
    requires UniqueIds(jobs) && Enabled(jobs, op) && Listed(jobs, id) && Listed(After(jobs, op), id)
    requires !op.Tick? && !(IsSwitch(op) && op.id == id)
    ensures JobOf(After(jobs, op), id) == JobOf(jobs, id)
  {
    StaysUnique(jobs, op);
    var i, after := IndexOf(jobs, id), After(jobs, op);
    if op.Enqueue? {
      assert after[i + 1] == jobs[i];
      hide UniqueIds, After;
      FoundAt(after, i + 1);
    } else if op.Remove? {
      RemovedTracked(jobs, op, id);
    } else {
      assert after[i] == jobs[i];
      hide UniqueIds, After;
      FoundAt(after, i);
    }
  }

  lemma RemovedTracked(jobs: seq<Job>, op: Op, id: string)
    requires UniqueIds(jobs) && op.Remove? && Listed(jobs, id) && Listed(After(jobs, op), id)
    ensures JobOf(After(jobs, op), id) == JobOf(jobs, id)
  {
    StaysUnique(jobs, op);
    var i, k, after := IndexOf(jobs, id), IndexOf(jobs, op.id), After(jobs, op);
    if k < i {
      assert after[i - 1] == jobs[i];
      hide UniqueIds, After;
      FoundAt(after, i - 1);
    } else if i < k {
      assert after[i] == jobs[i];
      hide UniqueIds, After;
      FoundAt(after, i);
    } else {
      RemovedIsGone(jobs, id);
    }
  }

  lemma RemovedIsGone(jobs: seq<Job>, id: string)
    requires UniqueIds(jobs)
    ensures !Listed(After(jobs, Remove(id)), id)
  {
    var after := After(jobs, Remove(id));
    assert forall j :: 0 <= j < |after| ==> after[j].id != id;
  }

  /** A job that stays listed ends as its changes make it. */
  lemma {:induction false} RunTracked(jobs: seq<Job>, run: seq<Op>, id: string)
    requires UniqueIds(jobs) && Runs(jobs, run) && StaysListed(jobs, run, id)
    ensures Listed(End(jobs, run), id) && JobOf(End(jobs, run), id) == Apply(JobOf(jobs, id), Changes(jobs, run, id))
    decreases |run|
  {
    if run != [] {
      var next := After(jobs, run[0]);
      assert StaysListed(next, run[1..], id);
      StaysUnique(jobs, run[0]);
      StepTracked(jobs, run[0], id);
      RunTracked(next, run[1..], id);
      FirstChange(jobs, run, id);
      hide Changes, Apply, After, UniqueIds, Enabled;
      ApplyConcat(JobOf(jobs, id), Changes(jobs, [run[0]], id), Changes(next, run[1..], id));
    }
  }

  lemma FirstChange(jobs: seq<Job>, run: seq<Op>, id: string)
    requires run != []
    ensures Changes(jobs, run, id) == Changes(jobs, [run[0]], id) + Changes(After(jobs, run[0]), run[1..], id)
  {
    assert [run[0]][1..] == [];
  }

  /** The steps drawn while the job is running. */
  function RunningSteps(job: Job, cs: seq<Change>): nat {
    if cs == [] then 0
    else
      var c := cs[|cs| - 1];
      RunningSteps(job, cs[..|cs| - 1])
      + if c.Stepped? && Apply(job, cs[..|cs| - 1]).status == Running then c.step else 0
  }

  /** A job's progress is what it began with plus the steps drawn while it was running, at most 100. */
  lemma {:induction false} LevelAfter(job: Job, cs: seq<Change>)
    requires 0 <= Level(job) <= 100
    ensures Level(Apply(job, cs)) == Min(100, Level(job) + RunningSteps(job, cs))
    decreases |cs|
  {
    if cs != [] {
      LevelAfter(job, cs[..|cs| - 1]);
    }
  }

  /** The tick takes the running job to 100. */
  predicate Reaches(job: Job, c: Change) {
    c.Stepped? && job.status == Running && Level(job) < 100 <= Level(job) + c.step
  }

  predicate NoSwitchFrom(cs: seq<Change>, k: nat) {
    forall i :: k <= i < |cs| ==> !(cs[i].Switched? && IsSwitch(cs[i].op))
  }

  /** The k-th change takes the job to 100, and no switch follows. */
  predicate CompletesAt(job: Job, cs: seq<Change>, k: int) {
    0 <= k < |cs| && Reaches(Apply(job, cs[..k]), cs[k]) && NoSwitchFrom(cs, k + 1)
  }

  /** The job was taken to 100 by some tick, or was completed already, and has not been switched since. */
  ghost predicate LastCompleted(job: Job, cs: seq<Change>) {
    (job.status == Completed && NoSwitchFrom(cs, 0)) || exists k :: CompletesAt(job, cs, k)
  }

  predicate SwitchesLast(cs: seq<Change>)
    requires cs != []
  {
    cs[|cs| - 1].Switched? && IsSwitch(cs[|cs| - 1].op)
  }

  lemma NoSwitchBefore(cs: seq<Change>, k: nat)
    requires k < |cs|
    ensures NoSwitchFrom(cs, k) <==> NoSwitchFrom(cs[..|cs| - 1], k) && !SwitchesLast(cs)
  {
    var init := cs[..|cs| - 1];
    assert forall i :: 0 <= i < |init| ==> init[i] == cs[i];
  }

  lemma CompletesEarlier(job: Job, cs: seq<Change>, k: int)
    requires cs != []
    ensures k < |cs| - 1 ==> (CompletesAt(job, cs, k) <==> CompletesAt(job, cs[..|cs| - 1], k) && !SwitchesLast(cs))
    ensures CompletesAt(job, cs, |cs| - 1) <==> Reaches(Apply(job, cs[..|cs| - 1]), cs[|cs| - 1])
  {
    hide Apply, Reaches, SwitchesLast;
    if 0 <= k < |cs| - 1 {
      NoSwitchBefore(cs, k + 1);
      assert cs[..|cs| - 1][..k] == cs[..k];
    }
  }

  lemma OneMoreCompleted(job: Job, cs: seq<Change>)
    requires cs != []
    ensures
      var init, last := cs[..|cs| - 1], cs[|cs| - 1];
      LastCompleted(job, cs) <==> Reaches(Apply(job, init), last) || (LastCompleted(job, init) && !SwitchesLast(cs))
  {
    var init := cs[..|cs| - 1];
    NoSwitchBefore(cs, 0);
    CompletesEarlier(job, cs, 0);
    forall k ensures k < |init| ==> (CompletesAt(job, cs, k) <==> CompletesAt(job, init, k) && !SwitchesLast(cs)) {
      CompletesEarlier(job, cs, k);
    }
    CompletesWithin(job, cs);
    CompletesWithin(job, init);
    hide Apply, Reaches, SwitchesLast, CompletesAt, NoSwitchFrom;
    if Reaches(Apply(job, init), cs[|init|]) {
      assert CompletesAt(job, cs, |init|);
    }
    if k :| CompletesAt(job, init, k) && !SwitchesLast(cs) {
      assert CompletesAt(job, cs, k);
    }
    if k :| CompletesAt(job, cs, k) && k < |init| {
      assert CompletesAt(job, init, k);
    }
  }

  lemma CompletesWithin(job: Job, cs: seq<Change>)
    ensures forall k :: CompletesAt(job, cs, k) ==> 0 <= k < |cs|
  {
    hide Apply, Reaches, NoSwitchFrom;
  }

  lemma {:induction false} CompletedAfter(job: Job, cs: seq<Change>)
    requires 0 <= Level(job) <= 100
    ensures Apply(job, cs).status == Completed <==> LastCompleted(job, cs)
    decreases |cs|
  {
    if cs != [] {
      var init := cs[..|cs| - 1];
      CompletedAfter(job, init);
      LevelAfter(job, init);
      OneMoreCompleted(job, cs);
      hide LastCompleted, RunningSteps, NoSwitchFrom;
    }
  }

  /**
   Over every run, pauses, cancellations and restarts included, a job that stays listed is completed
   in the end exactly if some tick took it to 100 while it was running, or it was completed to begin
   with, and it was not started, paused or canceled afterwards; and its progress is what it began
   with plus the steps drawn while it was running, at most 100.
   */
  lemma CompletesIff(jobs: seq<Job>, run: seq<Op>, id: string)
    requires UniqueIds(jobs) && ProgressInRange(jobs) && Runs(jobs, run) && StaysListed(jobs, run, id)
    ensures Listed(End(jobs, run), id)
    ensures
      var cs, job, last := Changes(jobs, run, id), JobOf(jobs, id), JobOf(End(jobs, run), id);
      && (last.status == Completed <==> LastCompleted(job, cs))
      && Level(last) == Min(100, Level(job) + RunningSteps(job, cs))
  {
    RunTracked(jobs, run, id);
    assert Listed(jobs, id);
    LevelInRange(jobs, id);
    hide Runs, End, Changes, Apply, RunningSteps, LastCompleted, StaysListed, UniqueIds, ProgressInRange, Listed, JobOf, Level;
    CompletedAfter(JobOf(jobs, id), Changes(jobs, run, id));
    LevelAfter(JobOf(jobs, id), Changes(jobs, run, id));
  }

  lemma LevelInRange(jobs: seq<Job>, id: string)
    requires ProgressInRange(jobs) && Listed(jobs, id)
    ensures 0 <= Level(JobOf(jobs, id)) <= 100
  {
  }

  /** A job that stands at 100 without being completed, as a completed job does once it is started again, never completes. */
  lemma AtHundredNeverCompletes(jobs: seq<Job>, run: seq<Op>, id: string)
    requires UniqueIds(jobs) && ProgressInRange(jobs) && Runs(jobs, run) && StaysListed(jobs, run, id)
    requires LevelOf(jobs, id) == 100 && JobOf(jobs, id).status != Completed
    ensures Listed(End(jobs, run), id) && JobOf(End(jobs, run), id).status != Completed
  {
    CompletesIff(jobs, run, id);
    var job, cs := JobOf(jobs, id), Changes(jobs, run, id);
    hide Runs, End, Changes, Apply, RunningSteps, StaysListed, UniqueIds, CompletesAt;
    forall k ensures !CompletesAt(job, cs, k) {
      NotFromHundred(job, cs, k);
    }
  }

  lemma NotFromHundred(job: Job, cs: seq<Change>, k: int)
    requires Level(job) == 100
    ensures !CompletesAt(job, cs, k)
  {
    hide Apply, RunningSteps, NoSwitchFrom;
    if 0 <= k < |cs| {
      LevelAfter(job, cs[..k]);
    }
  }

  lemma RestartedNeverCompletes(jobs: seq<Job>, run: seq<Op>, id: string, at: int)
    requires UniqueIds(jobs) && ProgressInRange(jobs) && Listed(jobs, id)
    requires JobOf(jobs, id).status == Completed && LevelOf(jobs, id) == 100
    requires Runs(After(jobs, Start(id, at)), run) && StaysListed(After(jobs, Start(id, at)), run, id)
    ensures
      var end := End(After(jobs, Start(id, at)), run);
      Listed(end, id) && JobOf(end, id).status != Completed
  {
    OwnJob(jobs, Start(id, at));
    StaysUnique(jobs, Start(id, at));
    StepProgress(jobs, Start(id, at));
    AtHundredNeverCompletes(After(jobs, Start(id, at)), run, id);
  }
}
