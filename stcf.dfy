/**
 * STCF policy (policy_STCF): preemptive shortest-time-to-completion-first,
 * simulated one clock unit at a time. Each unit the job with the least
 * remaining time among the ready ones runs; the scan keeps the first job
 * it meets on ties. Only `remaining` and `finishTime` are written back.
 */
module Stcf {
  import opened Jobs

  /** The three trace lines policy_STCF prints. */
  datatype Event =
    | Starts(time: int, id: int, arrival: int, length: int)
    | SwitchTo(time: int, id: int)
    | Finished(time: int, id: int)

  /** What the STCF scan can pick: a ready job whose remaining time is below its starting bound INT_MAX. */
  predicate Candidate(j: Job, clock: int) {
    Ready(j, clock) && j.remaining < INT_MAX
  }

  /**
   * Among the candidates in `js[lo..hi]`, job `k` has the least remaining
   * time, and every candidate before it has strictly more.
   */
  predicate ShortestIn(js: seq<Job>, clock: int, lo: int, hi: int, k: int)
    requires 0 <= lo <= hi <= |js|
  {
    lo <= k < hi && Candidate(js[k], clock) &&
    (forall j :: lo <= j < hi && Candidate(js[j], clock) ==> js[k].remaining <= js[j].remaining) &&
    (forall j :: lo <= j < k && Candidate(js[j], clock) ==> js[k].remaining < js[j].remaining)
  }

  predicate NoCandidate(js: seq<Job>, clock: int, lo: int, hi: int)
    requires 0 <= lo <= hi <= |js|
  {
    forall j :: lo <= j < hi ==> !Candidate(js[j], clock)
  }

  /** Reference selection over `js[i..]`, built from the right and preferring the lower index on ties; -1 when nothing is ready. */
  function ShortestFrom(js: seq<Job>, clock: int, i: int): (r: int)
    requires 0 <= i <= |js|
    ensures r == -1 || i <= r < |js|
    decreases |js| - i
  {
    if i == |js| then -1
    else
      var r := ShortestFrom(js, clock, i + 1);
      if !Candidate(js[i], clock) then r
      else if r == -1 || js[i].remaining <= js[r].remaining then i
      else r
  }

  function Shortest(js: seq<Job>, clock: int): (r: int)
    ensures r == -1 || 0 <= r < |js|
  {
    ShortestFrom(js, clock, 0)
  }

  /** The reference selection finds the first least-remaining candidate, and -1 exactly when there is none. */
  lemma {:induction false} ShortestFromSpec(js: seq<Job>, clock: int, i: int)
    requires 0 <= i <= |js|
    ensures var r := ShortestFrom(js, clock, i);
      (r == -1 <==> NoCandidate(js, clock, i, |js|)) &&
      (r != -1 ==> ShortestIn(js, clock, i, |js|, r))
    decreases |js| - i
  {
    if i < |js| {
      ShortestFromSpec(js, clock, i + 1);
    }
  }

  lemma ShortestSpec(js: seq<Job>, clock: int)
    ensures var r := Shortest(js, clock);
      (r == -1 <==> NoCandidate(js, clock, 0, |js|)) &&
      (r != -1 ==> ShortestIn(js, clock, 0, |js|, r))
  {
    ShortestFromSpec(js, clock, 0);
  }

  /** At most one job satisfies the selection rule. */
  lemma ShortestUnique(js: seq<Job>, clock: int, lo: int, hi: int, k1: int, k2: int)
    requires 0 <= lo <= hi <= |js|
    requires ShortestIn(js, clock, lo, hi, k1) && ShortestIn(js, clock, lo, hi, k2)
    ensures k1 == k2
  {
  }

  /**
   * The selection loop of policy_STCF: scan the jobs in order and keep the
   * first one whose remaining time is strictly below the best so far.
   */
  method ShortestReady(js: seq<Job>, clock: int) returns (idx: int)
    ensures idx == Shortest(js, clock)
    ensures idx == -1 <==> NoCandidate(js, clock, 0, |js|)
    ensures idx != -1 ==> ShortestIn(js, clock, 0, |js|, idx)
  {
    idx := -1;
    var best := INT_MAX;
    for j := 0 to |js|
      invariant idx == -1 ==> best == INT_MAX && NoCandidate(js, clock, 0, j)
      invariant idx != -1 ==> ShortestIn(js, clock, 0, j, idx) && best == js[idx].remaining
    {
      if js[j].remaining > 0 && js[j].arrival <= clock {
        if js[j].remaining < best {
          best := js[j].remaining;
          idx := j;
        }
      }
    }
    ShortestSpec(js, clock);
    if idx != -1 {
      ShortestUnique(js, clock, 0, |js|, idx, Shortest(js, clock));
    }
  }

  /** The variables of policy_STCF: the jobs, `current_time`, `num_completed`, the index of `current_job` (-1 for none) and the trace printed so far. */
  datatype State = State(jobs: seq<Job>, clock: int, completed: int, current: int, trace: seq<Event>)

  function Initial(js: seq<Job>): State {
    State(js, 0, 0, -1, [])
  }

  /** One unit of job `k`: announce it, take one unit off, and finish it when nothing is left. */
  function RunUnit(s: State, k: int): State
    requires 0 <= k < |s.jobs|
  {
    var j := s.jobs[k];
    var announce :=
      if j.remaining == j.length then [Starts(s.clock, j.id, j.arrival, j.length)]
      else if s.current != k then [SwitchTo(s.clock, j.id)]
      else [];
    var t := s.clock + 1;
    if j.remaining - 1 == 0 then
      State(s.jobs[k := j.(remaining := 0, finishTime := t)], t, s.completed + 1, k,
            s.trace + announce + [Finished(t, j.id)])
    else
      State(s.jobs[k := j.(remaining := j.remaining - 1)], t, s.completed, k, s.trace + announce)
  }

  /** One pass of the outer loop: idle for a unit, or run the selected job for a unit. */
  function Step(s: State): State {
    var k := Shortest(s.jobs, s.clock);
    if k == -1 then s.(clock := s.clock + 1) else RunUnit(s, k)
  }

  /** The loop's bookkeeping: remaining times in range and `completed` counting the finished jobs. */
  predicate Runnable(s: State) {
    (forall k :: 0 <= k < |s.jobs| ==> 0 <= s.jobs[k].remaining < INT_MAX) &&
    s.completed == CountDone(s.jobs)
  }

  /** A pass keeps the bookkeeping and makes progress: either one unit of work is done, or the clock moves towards the last arrival. */
  lemma StepProgress(s: State)
    requires Runnable(s) && s.completed < |s.jobs|
    ensures Runnable(Step(s)) && SameJobs(s.jobs, Step(s).jobs)
    ensures TotalRemaining(s.jobs) > 0
    ensures var s' := Step(s);
      (TotalRemaining(s'.jobs) == TotalRemaining(s.jobs) - 1) ||
      (s'.jobs == s.jobs && s'.clock == s.clock + 1 && s.clock < MaxArrival(s.jobs))
  {
    var k := Shortest(s.jobs, s.clock);
    ShortestSpec(s.jobs, s.clock);
    var u := SomeUnfinished(s.jobs);
    TotalRemainingNonNegative(s.jobs);
    UpdateOne(s.jobs, u, s.jobs[u].(remaining := 0));
    TotalRemainingNonNegative(s.jobs[u := s.jobs[u].(remaining := 0)]);
    if k == -1 {
      assert !Candidate(s.jobs[u], s.clock);
      MaxArrivalBound(s.jobs, u);
    } else {
      UnitProgress(s, k);
    }
  }

  /** Running a candidate for one unit keeps the bookkeeping and does one unit of work. */
  lemma UnitProgress(s: State, k: int)
    requires Runnable(s) && 0 <= k < |s.jobs| && Candidate(s.jobs[k], s.clock)
    ensures var s' := RunUnit(s, k);
      Runnable(s') && SameJobs(s.jobs, s'.jobs) && TotalRemaining(s'.jobs) == TotalRemaining(s.jobs) - 1
  {
    var s' := RunUnit(s, k);
    UpdateOne(s.jobs, k, s'.jobs[k]);
    assert s'.jobs == s.jobs[k := s'.jobs[k]];
  }

  /** policy_STCF's loop run to the end: passes repeat until every job has completed. */
  ghost function Run(s: State): State
    requires Runnable(s)
    decreases TotalRemaining(s.jobs), MaxArrival(s.jobs) - s.clock
  {
    if s.completed >= |s.jobs| then s
    else
      StepProgress(s);
      Run(Step(s))
  }

  /** Number of passes of the run that execute a job (the others only advance the clock). */
  ghost function BusySteps(s: State): int
    requires Runnable(s)
    decreases TotalRemaining(s.jobs), MaxArrival(s.jobs) - s.clock
  {
    if s.completed >= |s.jobs| then 0
    else
      StepProgress(s);
      (if Shortest(s.jobs, s.clock) == -1 then 0 else 1) + BusySteps(Step(s))
  }

  /**
   * What one pass does. With nothing ready only the clock moves. Otherwise
   * the job chosen is ready, has the least remaining time and beats every
   * earlier ready job strictly; it alone loses exactly one unit; it is
   * announced as starting when this is its first unit, as a switch when it
   * was not the job run last, and as finished, with `finishTime` set, exactly
   * when it reaches zero.
   */
  lemma StepSpec(s: State)
    ensures var k := Shortest(s.jobs, s.clock);
      (k == -1 <==> NoCandidate(s.jobs, s.clock, 0, |s.jobs|)) &&
      (k == -1 ==> Step(s) == s.(clock := s.clock + 1)) &&
      (k != -1 ==>
        var j := s.jobs[k];
        var s' := Step(s);
        ShortestIn(s.jobs, s.clock, 0, |s.jobs|, k) &&
        s'.clock == s.clock + 1 && s'.current == k &&
        |s'.jobs| == |s.jobs| &&
        (forall i :: 0 <= i < |s.jobs| && i != k ==> s'.jobs[i] == s.jobs[i]) &&
        s'.jobs[k].remaining == j.remaining - 1 &&
        (s'.jobs[k].remaining == 0 ==> s'.jobs[k] == j.(remaining := 0, finishTime := s.clock + 1)) &&
        (s'.jobs[k].remaining != 0 ==> s'.jobs[k] == j.(remaining := j.remaining - 1)) &&
        (s'.completed == s.completed + (if s'.jobs[k].remaining == 0 then 1 else 0)) &&
        var starts := if j.remaining == j.length then [Starts(s.clock, j.id, j.arrival, j.length)] else [];
        var switch := if j.remaining != j.length && s.current != k then [SwitchTo(s.clock, j.id)] else [];
        var finish := if j.remaining == 1 then [Finished(s.clock + 1, j.id)] else [];
        s'.trace == s.trace + starts + switch + finish)
  {
    ShortestSpec(s.jobs, s.clock);
  }

  // Counting trace events per job.

  function CountStarts(tr: seq<Event>, id: int): nat {
    if tr == [] then 0
    else CountStarts(tr[..|tr| - 1], id) + (if tr[|tr| - 1].Starts? && tr[|tr| - 1].id == id then 1 else 0)
  }

  function CountFinished(tr: seq<Event>, id: int): nat {
    if tr == [] then 0
    else CountFinished(tr[..|tr| - 1], id) + (if tr[|tr| - 1].Finished? && tr[|tr| - 1].id == id then 1 else 0)
  }

  lemma {:induction false} CountAppend(a: seq<Event>, b: seq<Event>, id: int)
    ensures CountStarts(a + b, id) == CountStarts(a, id) + CountStarts(b, id)
    ensures CountFinished(a + b, id) == CountFinished(a, id) + CountFinished(b, id)
    decreases |b|
  {
    if b == [] {
      assert a + b == a;
    } else {
      assert (a + b)[..|a + b| - 1] == a + b[..|b| - 1];
      assert (a + b)[|a + b| - 1] == b[|b| - 1];
      CountAppend(a, b[..|b| - 1], id);
    }
  }

  /**
   * What holds throughout the run: remaining times stay in [0, length];
   * a job that has run r units has been present for at least r units;
   * `finishTime` is set exactly for finished jobs, no earlier than
   * `arrival + length`; `startTime` and `waitTime` are never touched;
   * and the trace holds one "starts" line for each job that has run and
   * one "finished" line for each job that has completed.
   */
  predicate Progress(s: State, js: seq<Job>) {
    SameJobs(js, s.jobs) && IdsAreIndices(s.jobs) && RemainingInBounds(s.jobs) &&
    -1 <= s.current < |s.jobs| &&
    forall k :: 0 <= k < |s.jobs| ==> JobProgress(s, js, k)
  }

  predicate JobProgress(s: State, js: seq<Job>, k: int)
    requires 0 <= k < |s.jobs| && |js| == |s.jobs|
  {
    var j := s.jobs[k];
    j.startTime == js[k].startTime && j.waitTime == js[k].waitTime &&
    (j.remaining < j.length ==> s.clock >= j.arrival + j.length - j.remaining) &&
    (j.remaining == 0 ==> j.arrival + j.length <= j.finishTime <= s.clock) &&
    (j.remaining > 0 ==> j.finishTime == -1) &&
    CountStarts(s.trace, k) == (if j.remaining < j.length then 1 else 0) &&
    CountFinished(s.trace, k) == (if j.remaining == 0 then 1 else 0)
  }

  /** How a pass that runs job `k` changes the event counts of job `i`. */
  lemma StepCounts(s: State, k: int, i: int)
    requires 0 <= k < |s.jobs| && s.jobs[k].id == k
    ensures var j := s.jobs[k];
      var s' := RunUnit(s, k);
      CountStarts(s'.trace, i) == CountStarts(s.trace, i) + (if i == k && j.remaining == j.length then 1 else 0) &&
      CountFinished(s'.trace, i) == CountFinished(s.trace, i) + (if i == k && j.remaining == 1 then 1 else 0)
  {
    var j := s.jobs[k];
    var announce :=
      if j.remaining == j.length then [Starts(s.clock, j.id, j.arrival, j.length)]
      else if s.current != k then [SwitchTo(s.clock, j.id)]
      else [];
    var finish := if j.remaining == 1 then [Finished(s.clock + 1, j.id)] else [];
    assert RunUnit(s, k).trace == s.trace + announce + finish;
    CountAppend(s.trace + announce, finish, i);
    CountAppend(s.trace, announce, i);
    CountAtMostOne(announce, i);
    CountAtMostOne(finish, i);
  }

  /** The counts of a trace of at most one event. */
  lemma CountAtMostOne(tr: seq<Event>, id: int)
    requires |tr| <= 1
    ensures CountStarts(tr, id) == (if tr != [] && tr[0].Starts? && tr[0].id == id then 1 else 0)
    ensures CountFinished(tr, id) == (if tr != [] && tr[0].Finished? && tr[0].id == id then 1 else 0)
  {
    if tr != [] {
      assert tr[..0] == [];
    }
  }

  lemma StepKeepsProgress(s: State, js: seq<Job>)
    requires Runnable(s) && s.completed < |s.jobs| && Progress(s, js)
    ensures Progress(Step(s), js)
  {
    StepSpec(s);
    var k := Shortest(s.jobs, s.clock);
    if k != -1 {
      var s' := Step(s);
      forall i | 0 <= i < |s.jobs| ensures JobProgress(s', js, i) {
        assert JobProgress(s, js, i);
        StepCounts(s, k, i);
      }
    } else {
      forall i | 0 <= i < |s.jobs| ensures JobProgress(Step(s), js, i) {
        assert JobProgress(s, js, i);
      }
    }
  }

  /** Everything Progress promises holds at the end of the run too. */
  lemma RunKeepsProgress(s: State, js: seq<Job>)
    requires Runnable(s) && Progress(s, js)
    ensures Progress(Run(s), js) && Run(s).completed >= |Run(s).jobs| && Runnable(Run(s))
    ensures BusySteps(s) == TotalRemaining(s.jobs)
    decreases TotalRemaining(s.jobs), MaxArrival(s.jobs) - s.clock
  {
    if s.completed < |s.jobs| {
      StepProgress(s);
      StepKeepsProgress(s, js);
      StepSpec(s);
      if Shortest(s.jobs, s.clock) != -1 {
        var k := Shortest(s.jobs, s.clock);
        UpdateOne(s.jobs, k, Step(s).jobs[k]);
        assert Step(s).jobs == s.jobs[k := Step(s).jobs[k]];
      }
      RunKeepsProgress(Step(s), js);
    } else {
      AllDone(s.jobs);
      NoneRemaining(s.jobs);
    }
  }

  /**
   * policy_STCF on a freshly loaded workload ends with every job completed,
   * after exactly as many busy units as the jobs' total length. Each job
   * has `finishTime` between `arrival + length` and the final clock, keeps
   * `startTime` and `waitTime` as loaded, and appears in exactly one
   * "starts" and one "finished" line.
   */
  lemma StcfComplete(js: seq<Job>)
    requires Unstarted(js) && IdsAreIndices(js)
    requires forall k :: 0 <= k < |js| ==> js[k].length < INT_MAX
    ensures Runnable(Initial(js))
    ensures var r := Run(Initial(js));
      SameJobs(js, r.jobs) &&
      BusySteps(Initial(js)) == TotalLength(js) &&
      forall k :: 0 <= k < |js| ==>
        r.jobs[k].remaining == 0 &&
        js[k].arrival + js[k].length <= r.jobs[k].finishTime <= r.clock &&
        r.jobs[k].startTime == js[k].startTime && r.jobs[k].waitTime == js[k].waitTime &&
        CountStarts(r.trace, k) == 1 && CountFinished(r.trace, k) == 1
  {
    UnstartedTotals(js);
    assert Progress(Initial(js), js) by {
      forall k | 0 <= k < |js| ensures JobProgress(Initial(js), js, k) {
      }
    }
    RunKeepsProgress(Initial(js), js);
    var r := Run(Initial(js));
    AllDone(r.jobs);
    forall k | 0 <= k < |js|
      ensures r.jobs[k].remaining == 0
      ensures js[k].arrival + js[k].length <= r.jobs[k].finishTime <= r.clock
      ensures r.jobs[k].startTime == js[k].startTime && r.jobs[k].waitTime == js[k].waitTime
      ensures CountStarts(r.trace, k) == 1 && CountFinished(r.trace, k) == 1
    {
      assert JobProgress(r, js, k);
    }
  }

  /**
   * The three-job workload (0,5), (1,3), (2,8) under STCF: at t=1 job 1 has less remaining than job 0 and takes over.
   * Because its remaining time still equals its length, the line printed
   * at t=1 is "Job 1 starts", not "Switch to Job 1".
   */
  lemma StcfScenario()
    ensures var s := Step(Step(Initial([NewJob(0, 0, 5, 100), NewJob(1, 1, 3, 200), NewJob(2, 2, 8, 300)])));
      s.clock == 2 && s.current == 1 &&
      s.trace == [Starts(0, 0, 0, 5), Starts(1, 1, 1, 3)]
  {
    var js := [NewJob(0, 0, 5, 100), NewJob(1, 1, 3, 200), NewJob(2, 2, 8, 300)];
    var s0 := Initial(js);
    ShortestSpec(js, 0);
    assert Shortest(js, 0) == 0 by {
      assert Candidate(js[0], 0) && !Candidate(js[1], 0) && !Candidate(js[2], 0);
    }
    var s1 := Step(s0);
    assert s1.jobs == [js[0].(remaining := 4), js[1], js[2]];
    ShortestSpec(s1.jobs, 1);
    assert Shortest(s1.jobs, 1) == 1 by {
      assert Candidate(s1.jobs[1], 1) && !Candidate(s1.jobs[2], 1);
      assert s1.jobs[1].remaining < s1.jobs[0].remaining;
    }
  }
}
