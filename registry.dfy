/** The job registry and its activation state: the module-level `jobs` array that
    `CRON` appends to, the separately kept `activeCount`, the tick body and the
    admin calls `Stop`, `Start`, `StopAll` and `StartAll`. */
module Registry {
  import opened Lists
  import opened Schedule
  import opened Clock
  import opened Matcher

  datatype Option<T> = None | Some(value: T)

  /** The class a job's method belongs to, kept as an opaque reference. */
  type ServiceId = string

  /** A registered job; `schedule` is already expanded. */
  datatype Job = Job(name: string, service: ServiceId, methodName: string, schedule: Expanded, active: bool)

  /** `jobs.filter(j => j.active).length` */
  function CountActive(jobs: seq<Job>): (n: nat)
    ensures n <= |jobs|
    ensures n == 0 <==> forall k :: 0 <= k < |jobs| ==> !jobs[k].active
    ensures n == |jobs| <==> forall k :: 0 <= k < |jobs| ==> jobs[k].active
  {
    if jobs == [] then 0
    else (if jobs[0].active then 1 else 0) + CountActive(jobs[1..])
  }

  /** `jobs.find(j => j.name === name)`, as a position: the first job carrying
      `name`, or `None` when no job does. */
  function FindByName(jobs: seq<Job>, name: string): (r: Option<nat>)
    ensures r.Some? ==> r.value < |jobs| && jobs[r.value].name == name
    ensures r.Some? ==> forall k :: 0 <= k < r.value ==> jobs[k].name != name
    ensures r.None? <==> forall k :: 0 <= k < |jobs| ==> jobs[k].name != name
  {
    if jobs == [] then None
    else if jobs[0].name == name then Some(0)
    else match FindByName(jobs[1..], name)
      case None => None
      case Some(i) => Some(i + 1)
  }

  /** The registry after `jobs.forEach(j => j.active = b)`. */
  function SetAllActive(jobs: seq<Job>, b: bool): seq<Job> {
    seq(|jobs|, k requires 0 <= k < |jobs| => jobs[k].(active := b))
  }

  /** The registry after the job at position `i` has its flag set to `b`. */
  function SetActiveAt(jobs: seq<Job>, i: nat, b: bool): seq<Job>
    requires i < |jobs|
  {
    jobs[i := jobs[i].(active := b)]
  }

  /** Whether a tick invokes `job` at `now`: its schedule matches and the
      resolver finds a live instance exposing the method. */
  predicate Due(job: Job, now: Moment, invocable: (ServiceId, string) -> bool) {
    Matches(job.schedule, now) && invocable(job.service, job.methodName)
  }

  /** Setting one flag changes the active count by at most one, in the
      direction of the new flag, and only when the flag actually changed. */
  lemma {:induction false} CountAfterSet(jobs: seq<Job>, i: nat, b: bool)
    requires i < |jobs|
    ensures CountActive(SetActiveAt(jobs, i, b)) ==
      CountActive(jobs) + (if b == jobs[i].active then 0 else if b then 1 else -1)
  {
    if i > 0 {
      CountAfterSet(jobs[1..], i - 1, b);
      assert SetActiveAt(jobs, i, b)[1..] == SetActiveAt(jobs[1..], i - 1, b);
    } else {
      assert SetActiveAt(jobs, i, b)[1..] == jobs[1..];
    }
  }

  /** Setting every flag leaves the names, services, methods and schedules as
      they were, and the active count becomes all or nothing. */
  lemma SetAllActiveEffect(jobs: seq<Job>, b: bool)
    ensures |SetAllActive(jobs, b)| == |jobs|
    ensures forall k :: 0 <= k < |jobs| ==>
      SetAllActive(jobs, b)[k].active == b && SetAllActive(jobs, b)[k].(active := jobs[k].active) == jobs[k]
    ensures CountActive(SetAllActive(jobs, b)) == if b then |jobs| else 0
  {
  }

  class Scheduler {
    /** Registered jobs, in registration order. */
    var jobs: seq<Job>
    /** The cached number of active jobs the tick consults. */
    var activeCount: nat

    /** Module load: no jobs, `activeCount = 0`. */
    constructor ()
      ensures jobs == [] && activeCount == 0
    {
      jobs := [];
      activeCount := 0;
    }

    /** `CRON(schedule, active = true)` applied to a method: appends one job
        with the expanded schedule; no duplicate check, the cache untouched. */
    method Register(name: string, service: ServiceId, methodName: string, schedule: RawSchedule, active: bool := true)
      requires StepsTerminate(schedule)
      modifies this`jobs
      ensures jobs == old(jobs) + [Job(name, service, methodName, ExpandSchedule(schedule), active)]
    {
      var expanded := ParseSchedule(schedule);
      jobs := jobs + [Job(name, service, methodName, expanded, active)];
    }

    /** The cache refresh done by `init`. */
    method Init()
      modifies this`activeCount
      ensures jobs == old(jobs) && activeCount == CountActive(jobs)
    {
      activeCount := CountActive(jobs);
    }

    /** `checkJob`: decomposes the clock reading with `parseDate` and invokes
        the job when its schedule matches that moment and the resolver yields a
        live instance exposing the method. */
    method CheckJob(job: Job, clock: RawClock, invocable: (ServiceId, string) -> bool) returns (invoked: bool)
      ensures invoked <==> Matches(job.schedule, ParseDate(clock)) && invocable(job.service, job.methodName)
    {
      var date := ParseDate(clock);
      var matched := CheckFields(job.schedule, date);
      if !matched {
        return false;
      }
      invoked := invocable(job.service, job.methodName);
    }

    /** One timer tick. `checked` lists the positions of the jobs evaluated and
        `fired` those invoked, both in registration order. With a zero cache
        nothing is evaluated; otherwise exactly the active jobs are, whatever
        the cache holds. `clock` is the reading every evaluated job decomposes. */
    method Tick(clock: RawClock, invocable: (ServiceId, string) -> bool) returns (checked: seq<nat>, fired: seq<nat>)
      ensures activeCount == 0 ==> checked == [] && fired == []
      ensures activeCount != 0 ==> forall i :: i in checked <==> 0 <= i < |jobs| && jobs[i].active
      ensures activeCount != 0 ==> forall i :: i in fired <==> 0 <= i < |jobs| && jobs[i].active && Due(jobs[i], ParseDate(clock), invocable)
      ensures StrictlyIncreasing(checked) && StrictlyIncreasing(fired)
    {
      checked, fired := [], [];
      if activeCount == 0 {
        return;
      }
      var k := 0;
      while k < |jobs|
        invariant 0 <= k <= |jobs|
        invariant forall i :: i in checked <==> 0 <= i < k && jobs[i].active
        invariant forall i :: i in fired <==> 0 <= i < k && jobs[i].active && Due(jobs[i], ParseDate(clock), invocable)
        invariant StrictlyIncreasing(checked) && StrictlyIncreasing(fired)
      {
        var job := jobs[k];
        assert forall j :: 0 <= j < |checked| ==> checked[j] in checked;
        assert forall j :: 0 <= j < |fired| ==> fired[j] in fired;
        if job.active {
          checked := checked + [k];
          var invoked := CheckJob(job, clock, invocable);
          if invoked {
            fired := fired + [k];
          }
        }
        k := k + 1;
      }
    }

    /** The `forEach` shared by `StopAll` and `StartAll`. */
    method SetEveryFlag(b: bool)
      modifies this`jobs
      ensures jobs == SetAllActive(old(jobs), b)
    {
      var k := 0;
      while k < |jobs|
        invariant 0 <= k <= |jobs| == |old(jobs)|
        invariant forall i :: 0 <= i < k ==> jobs[i] == old(jobs)[i].(active := b)
        invariant forall i :: k <= i < |jobs| ==> jobs[i] == old(jobs)[i]
      {
        jobs := jobs[k := jobs[k].(active := b)];
        k := k + 1;
      }
    }

    /** `StopAll`: every flag false; `activeCount` is NOT refreshed. */
    method StopAll()
      modifies this`jobs
      ensures jobs == SetAllActive(old(jobs), false)
      ensures activeCount == old(activeCount)
    {
      SetEveryFlag(false);
    }

    /** `StartAll`: every flag true; `activeCount` is NOT refreshed. */
    method StartAll()
      modifies this`jobs
      ensures jobs == SetAllActive(old(jobs), true)
      ensures activeCount == old(activeCount)
    {
      SetEveryFlag(true);
    }

    /** The body shared by `Stop` and `Start`: the first job named `name` gets
        flag `b` and the cache is recounted. An unknown name dereferences the
        `undefined` that `find` returns: `found` is false and nothing changes. */
    method SetFlag(name: string, b: bool) returns (found: bool)
      modifies this
      ensures found <==> exists k :: 0 <= k < |old(jobs)| && old(jobs)[k].name == name
      ensures found ==> jobs == SetActiveAt(old(jobs), FindByName(old(jobs), name).value, b)
      ensures found ==> activeCount == CountActive(jobs)
      ensures !found ==> jobs == old(jobs) && activeCount == old(activeCount)
    {
      var job := FindByName(jobs, name);
      if job.None? {
        return false;
      }
      jobs := SetActiveAt(jobs, job.value, b);
      activeCount := CountActive(jobs);
      found := true;
    }

    /** `Stop(name)` */
    method Stop(name: string) returns (found: bool)
      modifies this
      ensures found <==> exists k :: 0 <= k < |old(jobs)| && old(jobs)[k].name == name
      ensures found ==> jobs == SetActiveAt(old(jobs), FindByName(old(jobs), name).value, false)
      ensures found ==> activeCount == CountActive(jobs)
      ensures !found ==> jobs == old(jobs) && activeCount == old(activeCount)
    {
      found := SetFlag(name, false);
    }

    /** `Start(name)` */
    method Start(name: string) returns (found: bool)
      modifies this
      ensures found <==> exists k :: 0 <= k < |old(jobs)| && old(jobs)[k].name == name
      ensures found ==> jobs == SetActiveAt(old(jobs), FindByName(old(jobs), name).value, true)
      ensures found ==> activeCount == CountActive(jobs)
      ensures !found ==> jobs == old(jobs) && activeCount == old(activeCount)
    {
      found := SetFlag(name, true);
    }
  }

  /** The stale cache reached through the admin calls: a job that matches every
      minute is registered and counted, `StopAll` clears its flag but not the
      cache, `Stop` recounts the cache to 0, and `StartAll` sets the flag again
      without recounting. One job is then active, yet the tick evaluates nothing. */
  method SilentAfterStartAll(clock: RawClock) returns (activeJobs: nat, cached: nat, checked: seq<nat>, fired: seq<nat>)
    ensures activeJobs == 1 && cached == 0
    ensures checked == [] && fired == []
  {
    var scheduler := new Scheduler();
    scheduler.Register("report/run", "Report", "run", map[]);
    scheduler.Init();
    scheduler.StopAll();
    var found := scheduler.Stop("report/run");
    scheduler.StartAll();
    activeJobs, cached := CountActive(scheduler.jobs), scheduler.activeCount;
    checked, fired := scheduler.Tick(clock, (service, methodName) => true);
  }

  /** `StopAll` directly followed by `StartAll` does not silence the ticker:
      `init` counted the one job, neither bulk call touches the cache, so the
      tick still evaluates the job, and fires it since it matches every minute. */
  method TickingAfterStopAllStartAll(clock: RawClock) returns (cached: nat, checked: seq<nat>, fired: seq<nat>)
    ensures cached == 1
    ensures checked == [0] && fired == [0]
  {
    var scheduler := new Scheduler();
    scheduler.Register("report/run", "Report", "run", map[]);
    scheduler.Init();
    scheduler.StopAll();
    scheduler.StartAll();
    cached := scheduler.activeCount;
    checked, fired := scheduler.Tick(clock, (service, methodName) => true);
    assert forall i :: i in checked <==> i == 0;
    assert forall i :: i in fired <==> i == 0;
    OnlyZero(checked);
    OnlyZero(fired);
  }

  /** A strictly increasing list whose only member is 0 is `[0]`. */
  lemma OnlyZero(s: seq<nat>)
    requires StrictlyIncreasing(s)
    requires forall i :: i in s <==> i == 0
    ensures s == [0]
  {
    assert 0 in s;
    forall k | 0 <= k < |s|
      ensures s[k] == 0
    {
      assert s[k] in s;
    }
    if |s| >= 2 {
      FirstBelowSecond(s);
      assert false;
    }
  }

  lemma FirstBelowSecond(s: seq<nat>)
    requires StrictlyIncreasing(s) && |s| >= 2
    ensures s[0] < s[1]
  {
  }
}
