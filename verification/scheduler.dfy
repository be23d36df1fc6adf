/** The cron scheduler: loading jobs, and firing those that are due at each tick. */
module Scheduler {
  import opened Wrappers
  import opened Text
  import opened Schedule
  import opened Firing
  import opened Pipeline
  import opened Orchestrator

  datatype JobConfig = JobConfig(id: string, schedule: string, session: string, prompt: string)

  datatype Job = Job(id: string, schedule: string, session: string, prompt: string, next: int)

  /** A row of the cron_jobs table. */
  datatype JobRow = JobRow(schedule: string, session: string, prompt: string, enabled: bool)

  predicate IsDue(job: Job, now: int) {
    job.next != 0 && job.next <= now
  }

  /** What a tick at reading now does to a job; a schedule that does not parse leaves the job due. */
  function TickJob(job: Job, now: int): Job {
    if !IsDue(job, now) then job
    else
      match ParseSchedule(job.schedule)
      case None => job
      case Some(s) => job.(next := NextTime(s, now))
  }

  function TickAll(jobs: map<string, Job>, now: int): map<string, Job> {
    map id | id in jobs :: TickJob(jobs[id], now)
  }

  /** The jobs part-way through a tick: all but those of todo have been seen to. */
  function TickedBut(jobs: map<string, Job>, todo: set<string>, now: int): map<string, Job> {
    map id | id in jobs :: if id in todo then jobs[id] else TickJob(jobs[id], now)
  }

  function Due(jobs: map<string, Job>, now: int): set<string> {
    set id | id in jobs && IsDue(jobs[id], now)
  }

  function JobTask(job: Job): Task {
    Task(job.session, TrimSpace(job.prompt), Cron)
  }

  /** What running a job does: nothing for a blank prompt, else its conversation. */
  ghost predicate JobEffect(job: Job, before: Moment, after: Moment) {
    if TrimSpace(job.prompt) == "" then after == before
    else exists end, reply :: Conversation(JobTask(job), before, after, end, reply)
  }

  /** order lists each member of ids once. */
  ghost predicate Each(order: seq<string>, ids: set<string>) {
    (forall id :: id in order <==> id in ids) && |order| == |ids|
  }

  /** trail is what one sees while the jobs of order run one after the other. */
  ghost predicate RanInOrder(jobs: map<string, Job>, order: seq<string>, trail: seq<Moment>) {
    && |trail| == |order| + 1
    && forall i | 0 <= i < |order| :: order[i] in jobs && JobEffect(jobs[order[i]], trail[i], trail[i + 1])
  }

  /* ---------- Loading ---------- */

  /** job is the configured job, loaded at reading now: it waits for the first slot after that. */
  ghost predicate IsLoaded(job: Job, cfg: JobConfig, now: int)
    requires ParseSchedule(cfg.schedule).Some?
  {
    && job.id == cfg.id
    && job.schedule == cfg.schedule
    && job.session == cfg.session
    && job.prompt == cfg.prompt
    && job.next == NextTime(ParseSchedule(cfg.schedule).value, now)
  }

  /** row holds the configured job, enabled. */
  predicate IsStored(row: JobRow, cfg: JobConfig) {
    row.schedule == cfg.schedule && row.session == cfg.session && row.prompt == cfg.prompt && row.enabled
  }

  /** The schedule can be parsed, and the table takes the id. */
  predicate CanLoad(cfg: JobConfig) {
    ParseSchedule(cfg.schedule).Some? && !Blank(cfg.id)
  }

  /** i is where id is configured last. */
  ghost predicate LastAt(cfgs: seq<JobConfig>, id: string, i: nat) {
    i < |cfgs| && cfgs[i].id == id && forall k | i < k < |cfgs| :: cfgs[k].id != id
  }

  /** The jobs and the rows that the configured jobs leave behind, given the clock's reading for each. */
  ghost predicate LoadedFrom(cfgs: seq<JobConfig>, readings: seq<int>, jobs: map<string, Job>,
                             before: map<string, JobRow>, rows: map<string, JobRow>) {
    && |readings| == |cfgs|
    && (forall i | 0 <= i < |cfgs| :: cfgs[i].id in jobs)
    && (forall id | id in jobs :: exists i: nat :: LastAt(cfgs, id, i))
    && (forall id, i: nat | LastAt(cfgs, id, i) ::
          && ParseSchedule(cfgs[i].schedule).Some?
          && id in jobs && IsLoaded(jobs[id], cfgs[i], readings[i])
          && id in rows && IsStored(rows[id], cfgs[i]))
    && rows.Keys == before.Keys + jobs.Keys
    && (forall id | id in before && id !in jobs :: rows[id] == before[id])
  }

  /** Every schedule can be parsed. */
  predicate AllParse(jobs: map<string, Job>) {
    forall id | id in jobs :: ParseSchedule(jobs[id].schedule).Some?
  }

  class Scheduler {
    const cfgs: seq<JobConfig>
    const recorder: Recorder
    var jobs: map<string, Job>
    /** The cron_jobs table. */
    var rows: map<string, JobRow>
    /** How many statements on that table have failed. */
    ghost var faults: nat

    constructor (cfgs: seq<JobConfig>, recorder: Recorder, rows: map<string, JobRow>)
      ensures this.cfgs == cfgs && this.recorder == recorder && jobs == map[] && this.rows == rows && faults == 0
    {
      this.cfgs := cfgs;
      this.recorder := recorder;
      this.jobs := map[];
      this.rows := rows;
      faults := 0;
    }

    method UpsertCronJob(cfg: JobConfig) returns (ok: bool)
      modifies this`rows, this`faults
      ensures ok ==> cfg.id in rows && IsStored(rows[cfg.id], cfg) && rows == old(rows)[cfg.id := rows[cfg.id]]
      ensures !ok ==> rows == old(rows)
      ensures faults >= old(faults) && (ok <==> !Blank(cfg.id) && faults == old(faults))
    {
      if Blank(cfg.id) { return false; }
      if * {
        faults := faults + 1;
        return false;
      }
      rows := rows[cfg.id := JobRow(cfg.schedule, cfg.session, cfg.prompt, true)];
      return true;
    }

    method LoadJobs() returns (ok: bool, ghost readings: seq<int>)
      requires jobs == map[]
      modifies this
      ensures ok ==> LoadedFrom(cfgs, readings, jobs, old(rows), rows)
      ensures ok ==> AllParse(jobs)
      ensures ok <==> faults == old(faults) && forall cfg | cfg in cfgs :: CanLoad(cfg)
    {
      hide ParseSchedule, NextTime, Blank;
      readings := [];
      for i := 0 to |cfgs|
        invariant LoadedFrom(cfgs[..i], readings, jobs, old(rows), rows)
        invariant faults == old(faults) && forall k | 0 <= k < i :: CanLoad(cfgs[k])
      {
        var cfg := cfgs[i];
        assert cfgs[..i + 1] == cfgs[..i] + [cfg] && cfg in cfgs;
        var parsed := ParseSchedule(cfg.schedule);
        if parsed.None? { return false, readings; }
        var now: int := *;
        ghost var jobs0, rows0 := jobs, rows;
        jobs := jobs[cfg.id := Job(cfg.id, cfg.schedule, cfg.session, cfg.prompt, NextTime(parsed.value, now))];
        var upserted := UpsertCronJob(cfg);
        if !upserted { return false, readings; }
        LoadOneMore(cfgs[..i], readings, jobs0, old(rows), rows0, cfg, now, jobs[cfg.id], rows[cfg.id]);
        readings := readings + [now];
      }
      assert cfgs[..|cfgs|] == cfgs;
      LoadedJobsParse(cfgs, readings, jobs, old(rows), rows);
      return true, readings;
    }

    method RunJob(job: Job)
      modifies recorder.sessions, recorder.db, recorder.llm
      ensures JobEffect(job, old(recorder.Now()), recorder.Now())
    {
      hide Written, FiledLines, TrimSpace, Blank;
      var prompt := TrimSpace(job.prompt);
      if prompt == "" { return; }
      var end, reply := recorder.Converse(JobTask(job));
      assert Conversation(JobTask(job), old(recorder.Now()), recorder.Now(), end, reply);
    }

    /** One tick's treatment of one job. */
    method TickOne(id: string, now: int) returns (fired: bool)
      requires id in jobs
      modifies this`jobs, recorder.sessions, recorder.db, recorder.llm
      ensures jobs == old(jobs)[id := TickJob(old(jobs)[id], now)]
      ensures fired == IsDue(old(jobs)[id], now)
      ensures if fired then JobEffect(old(jobs)[id], old(recorder.Now()), recorder.Now()) else recorder.Now() == old(recorder.Now())
    {
      hide ParseSchedule, NextTime, JobEffect, FiledLines;
      var job := jobs[id];
      if job.next == 0 || job.next > now { return false; }
      RunJob(job);
      var parsed := ParseSchedule(job.schedule);
      if parsed.None? { return true; }
      jobs := jobs[id := job.(next := NextTime(parsed.value, now))];
      return true;
    }

    /** One tick. The map is walked in any order; the reading is taken once, before any job runs. */
    method Tick(now: int) returns (ghost order: seq<string>, ghost trail: seq<Moment>)
      modifies this`jobs, recorder.sessions, recorder.db, recorder.llm
      ensures jobs == TickAll(old(jobs), now)
      ensures Each(order, Due(old(jobs), now))
      ensures RanInOrder(old(jobs), order, trail)
      ensures |trail| == |order| + 1 && trail[0] == old(recorder.Now()) && trail[|order|] == recorder.Now()
    {
      hide TickJob, TickAll, TickedBut, IsDue, JobEffect, FiledLines, Each, RanInOrder, Due;
      ghost var was := jobs;
      order, trail := [], [recorder.Now()];
      NothingRanYet(jobs, now, recorder.Now());
      var todo := jobs.Keys;
      while todo != {}
        invariant todo <= was.Keys && jobs == TickedBut(was, todo, now)
        invariant Each(order, Due(was, now) - todo) && RanInOrder(was, order, trail)
        invariant |trail| == |order| + 1 && trail[0] == old(recorder.Now()) && trail[|order|] == recorder.Now()
        decreases todo
      {
        var id :| id in todo;
        StillToDo(was, now, todo, id);
        var fired := TickOne(id, now);
        OneLessToDo(was, now, order, todo, id);
        if fired {
          OneMoreRan(was, order, trail, id, recorder.Now());
          order, trail := order + [id], trail + [recorder.Now()];
        }
        todo := todo - {id};
      }
      NothingLeftToDo(was, now);
    }
  }

  lemma NothingRanYet(jobs: map<string, Job>, now: int, start: Moment)
    ensures Each([], Due(jobs, now) - jobs.Keys) && RanInOrder(jobs, [], [start])
    ensures TickedBut(jobs, jobs.Keys, now) == jobs
  {
    assert Due(jobs, now) - jobs.Keys == {};
  }

  lemma NothingLeftToDo(jobs: map<string, Job>, now: int)
    ensures Due(jobs, now) - {} == Due(jobs, now) && TickedBut(jobs, {}, now) == TickAll(jobs, now)
  {
  }

  lemma StillToDo(jobs: map<string, Job>, now: int, todo: set<string>, id: string)
    requires id in todo && todo <= jobs.Keys
    ensures id in TickedBut(jobs, todo, now) && TickedBut(jobs, todo, now)[id] == jobs[id]
  {
  }

  lemma OneLessToDo(jobs: map<string, Job>, now: int, order: seq<string>, todo: set<string>, id: string)
    requires id in todo && todo <= jobs.Keys && Each(order, Due(jobs, now) - todo)
    ensures Each(if IsDue(jobs[id], now) then order + [id] else order, Due(jobs, now) - (todo - {id}))
    ensures TickedBut(jobs, todo, now)[id := TickJob(jobs[id], now)] == TickedBut(jobs, todo - {id}, now)
  {
    hide TickJob, IsDue;
    var due := Due(jobs, now);
    assert due - (todo - {id}) == if id in due then (due - todo) + {id} else due - todo;
  }

  lemma OneMoreRan(jobs: map<string, Job>, order: seq<string>, trail: seq<Moment>, id: string, after: Moment)
    requires RanInOrder(jobs, order, trail) && id in jobs && JobEffect(jobs[id], trail[|order|], after)
    ensures RanInOrder(jobs, order + [id], trail + [after])
  {
    hide JobEffect;
  }

  lemma LoadOneMore(cfgs: seq<JobConfig>, readings: seq<int>, jobs: map<string, Job>,
                    before: map<string, JobRow>, rows: map<string, JobRow>, cfg: JobConfig, now: int, job: Job, row: JobRow)
    requires LoadedFrom(cfgs, readings, jobs, before, rows)
    requires ParseSchedule(cfg.schedule).Some? && IsLoaded(job, cfg, now) && IsStored(row, cfg)
    ensures LoadedFrom(cfgs + [cfg], readings + [now], jobs[cfg.id := job], before, rows[cfg.id := row])
  {
    hide ParseSchedule, NextTime;
    var more := cfgs + [cfg];
    assert LastAt(more, cfg.id, |cfgs|);
    forall id, i: nat | id != cfg.id ensures LastAt(more, id, i) <==> LastAt(cfgs, id, i) {
      if LastAt(more, id, i) { assert forall k | i < k < |cfgs| :: more[k] == cfgs[k]; }
      if LastAt(cfgs, id, i) { assert forall k | i < k < |cfgs| :: more[k] == cfgs[k]; }
    }
  }

  lemma LoadedJobsParse(cfgs: seq<JobConfig>, readings: seq<int>, jobs: map<string, Job>,
                        before: map<string, JobRow>, rows: map<string, JobRow>)
    requires LoadedFrom(cfgs, readings, jobs, before, rows)
    ensures AllParse(jobs)
  {
    hide ParseSchedule, NextTime;
    forall id | id in jobs ensures ParseSchedule(jobs[id].schedule).Some? {
      var i: nat :| LastAt(cfgs, id, i);
    }
  }

  /* ---------- Whole runs ---------- */

  /** The jobs after a sequence of ticks. */
  function TickRun(jobs: map<string, Job>, ticks: seq<int>): map<string, Job> {
    if ticks == [] then jobs
    else TickAll(TickRun(jobs, ticks[..|ticks| - 1]), ticks[|ticks| - 1])
  }

  /** Over any sequence of ticks, a job whose schedule parses moves as its schedule says, and nothing else of it changes. */
  lemma {:induction false} JobFollowsItsSchedule(jobs: map<string, Job>, ticks: seq<int>, id: string, s: Schedule)
    requires id in jobs && ParseSchedule(jobs[id].schedule) == Some(s)
    ensures id in TickRun(jobs, ticks)
    ensures TickRun(jobs, ticks)[id] == jobs[id].(next := NextAfter(s, jobs[id].next, ticks))
  {
    hide ParseSchedule, NextTime;
    if ticks != [] {
      JobFollowsItsSchedule(jobs, ticks[..|ticks| - 1], id, s);
    }
  }

  /**
   After a successful load, over any sequence of ticks, every schedule still parses, so no tick takes the branch for one
   that does not; and tick i fires the jobs whose schedules fire then, whatever order it walks them in.
   */
  lemma TicksFireOnSchedule(jobs: map<string, Job>, ticks: seq<int>, i: nat, id: string)
    requires AllParse(jobs) && id in jobs && i < |ticks|
    ensures id in TickRun(jobs, ticks[..i]) && ParseSchedule(TickRun(jobs, ticks[..i])[id].schedule).Some?
    ensures id in Due(TickRun(jobs, ticks[..i]), ticks[i]) <==>
            FiresAt(ParseSchedule(jobs[id].schedule).value, jobs[id].next, ticks, i)
  {
    hide ParseSchedule, NextTime;
    JobFollowsItsSchedule(jobs, ticks[..i], id, ParseSchedule(jobs[id].schedule).value);
  }

  /** A job loaded at reading t0, from year 1 on, fires at a tick exactly when one of its slots has just passed. */
  lemma LoadedJobFiresWhenASlotHasPassed(jobs: map<string, Job>, cfg: JobConfig, t0: int, ticks: seq<int>, i: nat)
    requires ParseSchedule(cfg.schedule).Some? && cfg.id in jobs && IsLoaded(jobs[cfg.id], cfg, t0) && AllParse(jobs)
    requires 0 <= t0 && NonDecreasing(t0, ticks) && i < |ticks|
    ensures cfg.id in Due(TickRun(jobs, ticks[..i]), ticks[i]) <==>
            exists t :: Before(t0, ticks, i) < t <= ticks[i] && IsSlot(ParseSchedule(cfg.schedule).value, t)
  {
    TicksFireOnSchedule(jobs, ticks, i, cfg.id);
    ParsedScheduleIsValid(cfg.schedule);
    FiresExactlyWhenASlotHasPassed(ParseSchedule(cfg.schedule).value, t0, ticks, i);
  }
}
