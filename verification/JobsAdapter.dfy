/**
 The memory adapter itself: a list of job objects, changed in place, and the events it puts on the
 bus. Each method is proved against the operation of module Jobs it carries out.
 */
module JobsAdapter {
  import opened Jobs
  import opened Options

  class JobRecord {
    const id: string
    const title: string
    const kind: string
    const createdAt: int
    const payload: string
    const meta: string
    var updatedAt: int
    var status: Status
    var progress: Option<int>
    var error: ErrorField

    constructor (job: Job)
      ensures Value() == job
    {
      id, title, kind, createdAt, payload, meta := job.id, job.title, job.kind, job.createdAt, job.payload, job.meta;
      updatedAt, status, progress, error := job.updatedAt, job.status, job.progress, job.error;
    }

    function Value(): Job
      reads this
    {
      Job(id, title, kind, createdAt, updatedAt, status, progress, error, payload, meta)
    }
  }

  function Values(records: seq<JobRecord>): (r: seq<Job>)
    reads records
    ensures |r| == |records| && forall i :: 0 <= i < |r| ==> r[i] == records[i].Value()
  {
    if records == [] then [] else [records[0].Value()] + Values(records[1..])
  }

  ghost predicate Separate(records: seq<JobRecord>) {
    forall i, j :: 0 <= i < j < |records| ==> records[i] != records[j]
  }

  lemma SeparateRemoved(records: seq<JobRecord>, i: nat)
    requires Separate(records) && i < |records|
    ensures Separate(records[..i] + records[i + 1..])
  {
  }

  lemma ValuesRemoved(records: seq<JobRecord>, i: nat)
    requires i < |records|
    ensures Values(records[..i] + records[i + 1..]) == Values(records)[..i] + Values(records)[i + 1..]
  {
    hide Values;
    ValuesConcat(records[..i], records[i + 1..]);
    ValuesSplit(records, i);
    ValuesSplit(records, i + 1);
  }

  lemma ValuesSplit(records: seq<JobRecord>, i: nat)
    requires i <= |records|
    ensures Values(records[..i]) == Values(records)[..i] && Values(records[i..]) == Values(records)[i..]
  {
    hide Values;
  }

  lemma ValuesAdded(job: JobRecord, records: seq<JobRecord>)
    ensures Values([job] + records) == [job.Value()] + Values(records)
  {
    hide Values;
  }

  lemma ValuesConcat(a: seq<JobRecord>, b: seq<JobRecord>)
    ensures Values(a + b) == Values(a) + Values(b)
  {
    hide Values;
  }

  /** The list after one of its objects has been changed. */
  lemma ObjectChanged(records: seq<JobRecord>, before: seq<Job>, i: nat)
    requires i < |records| == |before|
    requires forall j :: 0 <= j < |records| && j != i ==> records[j].Value() == before[j]
    ensures Values(records) == before[i := records[i].Value()]
  {
    hide Values;
  }

  /** A tick under way, with n of the objects visited. */
  ghost predicate HalfTicked(records: seq<JobRecord>, before: seq<Job>, steps: seq<nat>, at: int, n: nat)
    reads records
  {
    && |records| == |before|
    && (forall i :: 0 <= i < n && i < |before| ==> records[i].Value() == Ticked(before[i], StepOf(steps, i), at))
    && forall i :: n <= i < |before| ==> records[i].Value() == before[i]
  }

  lemma NoneTicked(records: seq<JobRecord>, steps: seq<nat>, at: int)
    ensures HalfTicked(records, Values(records), steps, at, 0)
  {
  }

  lemma AllTicked(records: seq<JobRecord>, before: seq<Job>, steps: seq<nat>, at: int)
    requires HalfTicked(records, before, steps, at, |before|)
    ensures Values(records) == TickedFrom(before, steps, at)
  {
    hide Ticked, StepOf;
  }

  lemma MiddleValues(records: seq<JobRecord>, middle: seq<Job>, before: seq<Job>, steps: seq<nat>, at: int, n: nat)
    requires HalfTicked(records, before, steps, at, n) && middle == Values(records) && n <= |before|
    ensures |middle| == |before|
    ensures forall i :: 0 <= i < n ==> middle[i] == Ticked(before[i], StepOf(steps, i), at)
    ensures forall i :: n <= i < |before| ==> middle[i] == before[i]
  {
    hide Ticked, StepOf, Values;
  }

  lemma OthersSeparate(records: seq<JobRecord>, k: nat)
    requires Separate(records) && k < |records|
    ensures forall i :: 0 <= i < |records| && i != k ==> records[i] != records[k]
  {
  }

  lemma StillBefore(records: seq<JobRecord>, before: seq<Job>, steps: seq<nat>, at: int, n: nat)
    requires n < |before| && HalfTicked(records, before, steps, at, n)
    ensures n < |records| && records[n].Value() == before[n]
  {
  }

  lemma TickedObject(records: seq<JobRecord>, middle: seq<Job>, before: seq<Job>, steps: seq<nat>, at: int, n: nat)
    requires n < |before| == |records| == |middle|
    requires forall i :: 0 <= i < n ==> middle[i] == Ticked(before[i], StepOf(steps, i), at)
    requires forall i :: n <= i < |before| ==> middle[i] == before[i]
    requires records[n].Value() == Ticked(before[n], StepOf(steps, n), at)
    requires forall i :: 0 <= i < |records| && i != n ==> records[i].Value() == middle[i]
    ensures HalfTicked(records, before, steps, at, n + 1)
  {
    hide Ticked, StepOf;
  }

  class MemoryJobsAdapter {
    var jobs: seq<JobRecord>
    var published: seq<Event>

    ghost predicate Valid()
      reads this
    {
      Separate(jobs)
    }

    ghost function Contents(): seq<Job>
      reads this, jobs
    {
      Values(jobs)
    }

    constructor (seed: seq<JobRecord>)
      requires Separate(seed)
      ensures Valid() && Contents() == Values(seed) && published == []
    {
      jobs, published := seed, [];
    }

    method Find(id: string) returns (i: nat)
      ensures i == IndexOf(Contents(), id)
    {
      i := 0;
      while i < |jobs| && jobs[i].id != id
        invariant i <= |jobs|
        invariant forall j :: 0 <= j < i ==> jobs[j].id != id
      {
        i := i + 1;
      }
    }

    method List() returns (items: seq<Job>)
      ensures items == Contents()
    {
      items := [];
      for i := 0 to |jobs|
        invariant |items| == i && forall j :: 0 <= j < i ==> items[j] == jobs[j].Value()
      {
        items := items + [jobs[i].Value()];
      }
    }

    method EmitFull()
      modifies this`published
      ensures published == old(published) + [Snapshot(Contents())]
    {
      var items := List();
      published := published + [Snapshot(items)];
    }

    method Enqueue(id: string, title: string, kind: string, payload: string, meta: string, at: int) returns (job: JobRecord)
      requires Valid()
      modifies this
      ensures Valid() && fresh(job) && jobs == [job] + old(jobs)
      ensures var op := Op.Enqueue(id, title, kind, payload, meta, at);
        && Contents() == After(old(Contents()), op)
        && published == old(published) + Events(old(Contents()), op)
    {
      job := new JobRecord(NewJob(id, title, kind, payload, meta, at));
      ValuesAdded(job, jobs);
      jobs := [job] + jobs;
      EmitFull();
    }

    method Remove(id: string) returns (removed: bool)
      requires Valid()
      modifies this
      ensures Valid() && removed == Listed(old(Contents()), id)
      ensures Contents() == After(old(Contents()), Op.Remove(id))
      ensures published == old(published) + Events(old(Contents()), Op.Remove(id))
    {
      hide Values, Separate;
      var i := Find(id);
      removed := i < |jobs|;
      if removed {
        RemoveAt(i);
        EmitFull();
      }
    }

    method RemoveAt(i: nat)
      requires Valid() && i < |jobs|
      modifies this`jobs
      ensures Valid() && Contents() == old(Contents())[..i] + old(Contents())[i + 1..]
    {
      SeparateRemoved(jobs, i);
      ValuesRemoved(jobs, i);
      hide Values, Separate;
      jobs := jobs[..i] + jobs[i + 1..];
    }

    /** The object found is returned itself, not a copy. */
    method Start(id: string, at: int) returns (job: JobRecord?)
      requires Valid()
      modifies this`published, jobs
      ensures Valid() && jobs == old(jobs) && (job != null <==> Listed(old(Contents()), id)) && (job != null ==> job in jobs)
      ensures Contents() == After(old(Contents()), Op.Start(id, at))
      ensures published == old(published) + Events(old(Contents()), Op.Start(id, at))
    {
      hide Values;
      ghost var before := Contents();
      var i := Find(id);
      job := null;
      if i < |jobs| {
        var j := jobs[i];
        j.status := Running;
        j.error := NoError;
        j.updatedAt := at;
        published := published + [Patched(id, Patch(Some(Running), None, Some(NoError)))];
        ObjectChanged(jobs, before, i);
        job := j;
      }
    }

    method Pause(id: string, at: int) returns (job: JobRecord?)
      requires Valid()
      modifies this`published, jobs
      ensures Valid() && jobs == old(jobs) && (job != null <==> Listed(old(Contents()), id)) && (job != null ==> job in jobs)
      ensures Contents() == After(old(Contents()), Op.Pause(id, at))
      ensures published == old(published) + Events(old(Contents()), Op.Pause(id, at))
    {
      hide Values;
      ghost var before := Contents();
      var i := Find(id);
      job := null;
      if i < |jobs| {
        var j := jobs[i];
        j.status := Paused;
        j.updatedAt := at;
        published := published + [Patched(id, Patch(Some(Paused), None, None))];
        ObjectChanged(jobs, before, i);
        job := j;
      }
    }

    method Cancel(id: string, at: int) returns (job: JobRecord?)
      requires Valid()
      modifies this`published, jobs
      ensures Valid() && jobs == old(jobs) && (job != null <==> Listed(old(Contents()), id)) && (job != null ==> job in jobs)
      ensures Contents() == After(old(Contents()), Op.Cancel(id, at))
      ensures published == old(published) + Events(old(Contents()), Op.Cancel(id, at))
    {
      hide Values;
      ghost var before := Contents();
      var i := Find(id);
      job := null;
      if i < |jobs| {
        var j := jobs[i];
        j.status := Canceled;
        j.updatedAt := at;
        published := published + [Patched(id, Patch(Some(Canceled), None, None))];
        ObjectChanged(jobs, before, i);
        job := j;
      }
    }

    /** One timer tick; steps are the random numbers drawn for the jobs. */
    method Tick(steps: seq<nat>, at: int)
      requires Valid()
      modifies this`published, jobs
      ensures Valid() && jobs == old(jobs)
      ensures Contents() == After(old(Contents()), Op.Tick(steps, at))
      ensures published == old(published) + Events(old(Contents()), Op.Tick(steps, at))
    {
      ghost var before := Contents();
      ghost var events := published;
      NoneTicked(jobs, steps, at);
      hide Ticked, StepOf, TickEvents, Values, HalfTicked, TickedFrom, Separate;
      for k := 0 to |jobs|
        invariant jobs == old(jobs) && |before| == |jobs|
        invariant HalfTicked(jobs, before, steps, at, k)
        invariant published == events + TickEventsTo(before, steps, k)
      {
        TickNext(k, steps, at, before);
      }
      AllTicked(jobs, before, steps, at);
    }

    method TickNext(k: nat, steps: seq<nat>, at: int, ghost before: seq<Job>)
      requires Valid() && k < |before| && HalfTicked(jobs, before, steps, at, k)
      modifies this`published, jobs
      ensures jobs == old(jobs) && HalfTicked(jobs, before, steps, at, k + 1)
      ensures published == old(published) + TickEvents(before[k], StepOf(steps, k))
    {
      StillBefore(jobs, before, steps, at, k);
      OthersSeparate(jobs, k);
      ghost var middle := Contents();
      MiddleValues(jobs, middle, before, steps, at, k);
      hide Ticked, StepOf, TickEvents, HalfTicked, Separate, Values;
      TickJob(k, StepOf(steps, k), at);
      TickedObject(jobs, middle, before, steps, at, k);
    }

    method TickJob(k: nat, step: nat, at: int)
      requires Valid() && k < |jobs|
      modifies this`published, jobs[k]
      ensures jobs[k].Value() == Ticked(old(jobs[k].Value()), step, at)
      ensures published == old(published) + TickEvents(old(jobs[k].Value()), step)
    {
      var j := jobs[k];
      if j.status == Running {
        var next := Min(100, (if j.progress == None then 0 else j.progress.value) + step);
        if Some(next) != j.progress {
          j.progress := Some(next);
          j.updatedAt := at;
          published := published + [Patched(j.id, Patch(None, Some(next), None))];
          if next >= 100 {
            j.status := Completed;
            j.updatedAt := at;
            published := published + [Patched(j.id, Patch(Some(Completed), None, None))];
          }
        }
      }
    }
  }
}
