/**
 * The workload of the scheduling simulator (the global job list `head` and
 * the counter `numofjobs`), its loader, the three working policies run in
 * place on it, and the dispatch of `main`.
 */
module Scheduler {
  import opened Jobs
  import opened Wrappers
  import Fifo
  import Stcf
  import Lottery
  import Metrics

  /** The records `read_job_config` appends for already-split lines `(arrival, length)`, ids counted from `base`. */
  function LoadJobs(entries: seq<(int, int)>, base: int): (r: seq<Job>)
    ensures |r| == |entries|
  {
    seq(|entries|, k requires 0 <= k < |entries| =>
      NewJob(base + k, entries[k].0, entries[k].1, 100 * (k + 1)))
  }

  /**
   * A workload read into an empty list numbers its jobs by line, gives the
   * k-th line `100 * (k + 1)` tickets and `remaining = length`, and leaves
   * start, finish and wait unset, so every policy may run on it.
   */
  lemma LoadedJobs(entries: seq<(int, int)>)
    ensures var js := LoadJobs(entries, 0);
      IdsAreIndices(js) && Lottery.PositiveTickets(js) &&
      (forall k :: 0 <= k < |js| ==>
        js[k] == Job(k, entries[k].0, entries[k].1, 100 * (k + 1), -1, -1, entries[k].1, 0)) &&
      ((forall k :: 0 <= k < |entries| ==> 0 < entries[k].1) ==> Unstarted(js))
  {
  }

  datatype ConfigError = EmptyWorkload

  class Workload {
    var jobs: seq<Job>
    var numOfJobs: int

    ghost predicate Valid()
      reads this
    {
      numOfJobs == |jobs|
    }

    constructor ()
      ensures Valid() && jobs == []
    {
      jobs := [];
      numOfJobs := 0;
    }

    /** append_to: the new record takes the next id and goes to the tail. */
    method Append(arrival: int, length: int, tickets: int)
      requires Valid()
      modifies this
      ensures Valid()
      ensures jobs == old(jobs) + [NewJob(old(numOfJobs), arrival, length, tickets)]
    {
      var job := NewJob(numOfJobs, arrival, length, tickets);
      numOfJobs := numOfJobs + 1;
      jobs := jobs + [job];
    }

    /**
     * read_job_config over the lines of the workload file: an empty file is
     * refused; otherwise each line is appended in order with 100 more
     * tickets than the line before.
     */
    method ReadJobConfig(entries: seq<(int, int)>) returns (result: Result<(), ConfigError>)
      requires Valid()
      modifies this
      ensures Valid()
      ensures result.Failure? <==> entries == []
      ensures result.Failure? ==> jobs == old(jobs)
      ensures result.Success? ==> jobs == old(jobs) + LoadJobs(entries, old(|jobs|))
    {
      if entries == [] {
        return Failure(EmptyWorkload);
      }
      var tickets := 0;
      var i := 0;
      while i < |entries|
        invariant Valid() && 0 <= i <= |entries|
        invariant tickets == 100 * i
        invariant jobs == old(jobs) + LoadJobs(entries, old(|jobs|))[..i]
      {
        tickets := tickets + 100;
        Append(entries[i].0, entries[i].1, tickets);
        assert LoadJobs(entries, old(|jobs|))[..i + 1] == LoadJobs(entries, old(|jobs|))[..i] + [LoadJobs(entries, old(|jobs|))[i]];
        i := i + 1;
      }
      assert LoadJobs(entries, old(|jobs|))[..i] == LoadJobs(entries, old(|jobs|));
      result := Success(());
    }

    /** policy_FIFO: the jobs become Fifo.Fifo of the old jobs, one dispatch line per job at its start. */
    method RunFIFO() returns (trace: seq<Dispatch>)
      requires Valid()
      modifies this
      ensures Valid() && numOfJobs == old(numOfJobs)
       && jobs == Fifo.Fifo(old(jobs))
      ensures |trace| == |jobs|
      ensures forall k :: 0 <= k < |jobs| ==>
        trace[k] == Dispatch(jobs[k].startTime, jobs[k].id, jobs[k].arrival, jobs[k].length)
    {
      var currentTime := 0;
      var i := 0;
      trace := [];
      while i < |jobs|
        invariant Valid() && 0 <= i <= |jobs| == |old(jobs)|
        invariant jobs[i..] == old(jobs)[i..]
        invariant jobs[..i] + Fifo.FifoFrom(old(jobs)[i..], currentTime) == Fifo.Fifo(old(jobs))
        invariant |trace| == i
        invariant forall k :: 0 <= k < i ==>
          trace[k] == Dispatch(jobs[k].startTime, jobs[k].id, jobs[k].arrival, jobs[k].length)
      {
        ghost var before := currentTime;
        var cur := jobs[i];
        if currentTime < cur.arrival {
          currentTime := cur.arrival;
        }
        cur := cur.(startTime := currentTime);
        trace := trace + [Dispatch(currentTime, cur.id, cur.arrival, cur.length)];
        currentTime := currentTime + cur.length;
        cur := cur.(finishTime := currentTime, waitTime := cur.startTime - cur.arrival);
        assert cur == Fifo.Schedule(old(jobs)[i], before);
        assert old(jobs)[i..][0] == old(jobs)[i] && old(jobs)[i..][1..] == old(jobs)[i + 1..];
        jobs := jobs[i := cur];
        assert jobs[..i + 1] == jobs[..i] + [cur];
        i := i + 1;
      }
      assert jobs[..i] == jobs && old(jobs)[i..] == [];
    }

    /**
     * policy_STCF: the jobs and the trace become those of Stcf.Run from the
     * loaded jobs. Every job must need a positive number of units (a job of
     * length 0 is never counted as completed, and the loop would not end)
     * below the starting bound INT_MAX of the minimum search.
     */
    method RunSTCF() returns (trace: seq<Stcf.Event>)
      requires Valid()
      requires forall k :: 0 <= k < |jobs| ==> 0 < jobs[k].remaining < INT_MAX
      modifies this
      ensures Valid() && numOfJobs == old(numOfJobs)
      ensures Stcf.Runnable(Stcf.Initial(old(jobs)))
      ensures jobs == Stcf.Run(Stcf.Initial(old(jobs))).jobs
      ensures trace == Stcf.Run(Stcf.Initial(old(jobs))).trace
    {
      var currentTime := 0;
      var numCompleted := 0;
      var current := -1;
      trace := [];
      UnstartedCount(jobs);
      while numCompleted < numOfJobs
        invariant Valid() && numOfJobs == old(numOfJobs)
        invariant Stcf.Runnable(Stcf.State(jobs, currentTime, numCompleted, current, trace))
        invariant Stcf.Run(Stcf.State(jobs, currentTime, numCompleted, current, trace)) == Stcf.Run(Stcf.Initial(old(jobs)))
        decreases TotalRemaining(jobs), MaxArrival(jobs) - currentTime
      {
        ghost var s := Stcf.State(jobs, currentTime, numCompleted, current, trace);
        Stcf.StepProgress(s);
        currentTime, numCompleted, current, trace := StcfPass(currentTime, numCompleted, current, trace);
      }
    }

    /**
     * One pass of policy_STCF's loop: select the ready job with the least
     * remaining time; with none let a unit pass, otherwise print its start
     * or a switch to it, run it for one unit and complete it at zero.
     */
    method StcfPass(currentTime: int, numCompleted: int, currentJob: int, trace: seq<Stcf.Event>)
      returns (time: int, completed: int, current: int, lines: seq<Stcf.Event>)
      requires Valid()
      modifies this
      ensures Valid() && numOfJobs == old(numOfJobs)
      ensures Stcf.State(jobs, time, completed, current, lines)
        == Stcf.Step(Stcf.State(old(jobs), currentTime, numCompleted, currentJob, trace))
    {
      ghost var s := Stcf.State(jobs, currentTime, numCompleted, currentJob, trace);
      time, completed, current, lines := currentTime, numCompleted, currentJob, trace;
      var shortest := Stcf.ShortestReady(jobs, time);
      if shortest == -1 {
        time := time + 1;
        return;
      }
      var job := jobs[shortest];
      if job.remaining == job.length {
        lines := lines + [Stcf.Starts(time, job.id, job.arrival, job.length)];
      } else if current != shortest {
        lines := lines + [Stcf.SwitchTo(time, job.id)];
      }
      current := shortest;
      job := job.(remaining := job.remaining - 1);
      time := time + 1;
      if job.remaining == 0 {
        job := job.(finishTime := time);
        completed := completed + 1;
        lines := lines + [Stcf.Finished(time, job.id)];
      }
      jobs := jobs[shortest := job];
      assert Stcf.Step(s) == Stcf.State(jobs, time, completed, current, lines);
    }

    /**
     * policy_LT with the `rand()` sequence `rand`: the jobs and the trace
     * become those of Lottery.Run from the loaded jobs. The slice must be
     * positive (otherwise a round runs the winner for no time or for
     * negative time) and every job must need a positive number of units.
     */
    method RunLT(slice: int, rand: nat -> nat) returns (trace: seq<Dispatch>)
      requires Valid() && slice > 0
      requires forall k :: 0 <= k < |jobs| ==> jobs[k].remaining > 0 && jobs[k].tickets > 0
      modifies this
      ensures Valid() && numOfJobs == old(numOfJobs)
      ensures Lottery.Runnable(Lottery.Initial(old(jobs)))
      ensures jobs == Lottery.Run(Lottery.Initial(old(jobs)), slice, rand).jobs
      ensures trace == Lottery.Run(Lottery.Initial(old(jobs)), slice, rand).trace
    {
      var currentTime := 0;
      var finishedJobs := 0;
      var drawCount: nat := 0;
      trace := [];
      UnstartedCount(jobs);
      while finishedJobs < numOfJobs
        invariant Valid() && numOfJobs == old(numOfJobs)
        invariant Lottery.Runnable(Lottery.State(jobs, currentTime, finishedJobs, drawCount, trace))
        invariant Lottery.Run(Lottery.State(jobs, currentTime, finishedJobs, drawCount, trace), slice, rand)
          == Lottery.Run(Lottery.Initial(old(jobs)), slice, rand)
        decreases TotalRemaining(jobs), MaxArrival(jobs) - currentTime
      {
        ghost var s := Lottery.State(jobs, currentTime, finishedJobs, drawCount, trace);
        Lottery.StepProgress(s, slice, rand);
        currentTime, finishedJobs, drawCount, trace := LotteryRound(slice, rand, currentTime, finishedJobs, drawCount, trace);
      }
    }

    /**
     * One pass of policy_LT's loop: sum the ready jobs' tickets; with none
     * in play let a unit pass, otherwise draw, walk to the winner and run it.
     */
    method LotteryRound(slice: int, rand: nat -> nat, currentTime: int, finishedJobs: int, drawCount: nat, trace: seq<Dispatch>)
      returns (time: int, finished: int, draws: nat, lines: seq<Dispatch>)
      requires Valid() && Lottery.Runnable(Lottery.State(jobs, currentTime, finishedJobs, drawCount, trace))
      modifies this
      ensures Valid() && numOfJobs == old(numOfJobs)
      ensures Lottery.State(jobs, time, finished, draws, lines)
        == Lottery.Step(Lottery.State(old(jobs), currentTime, finishedJobs, drawCount, trace), slice, rand)
    {
      ghost var s := Lottery.State(jobs, currentTime, finishedJobs, drawCount, trace);
      time, finished, draws, lines := currentTime, finishedJobs, drawCount, trace;
      var totalTickets := Lottery.SumReadyTickets(jobs, time);
      if totalTickets == 0 {
        time := time + 1;
        return;
      }
      Lottery.TotalZeroIffNoneReady(jobs, time);
      var winningTicket := rand(draws) % totalTickets;
      var k := Lottery.DrawWinner(jobs, time, winningTicket);
      ghost var next := Lottery.RunSlice(s, k, slice);
      assert Lottery.Step(s, slice, rand) == next by {
        assert k == Lottery.Winner(jobs, time, winningTicket);
      }
      var selected := jobs[k];
      if selected.startTime == -1 {
        selected := selected.(startTime := time);
      }
      var runTime := Min(slice, selected.remaining);
      lines := lines + [Dispatch(time, selected.id, selected.arrival, runTime)];
      selected := selected.(remaining := selected.remaining - runTime);
      time := time + runTime;
      if selected.remaining == 0 {
        selected := selected.(finishTime := time,
                              waitTime := time - selected.arrival - selected.length);
        finished := finished + 1;
      }
      assert selected == next.jobs[k] && time == next.clock && lines == next.trace;
      jobs := jobs[k := selected];
      draws := draws + 1;
    }
  }

  /** Jobs that all still need time have none completed. */
  lemma {:induction false} UnstartedCount(js: seq<Job>)
    requires forall k :: 0 <= k < |js| ==> js[k].remaining > 0
    ensures CountDone(js) == 0
  {
    if js != [] {
      UnstartedCount(js[1..]);
    }
  }

  /** What `main` prints after the trace: the analysis lines and, for a non-empty workload, the averages' totals. */
  datatype Output = Output(trace: seq<Dispatch>, report: seq<Metrics.Report>, average: Option<Metrics.Totals>)

  /**
   * The analysis of the scheduled jobs `r`: one line per job with its
   * response, turnaround and wait, and the totals behind the averages.
   */
  predicate Analysed(report: seq<Metrics.Report>, average: Option<Metrics.Totals>, r: seq<Job>) {
    |report| == |r| &&
    (forall k :: 0 <= k < |r| ==>
      report[k] == Metrics.Report(r[k].id, Metrics.Response(r[k]), Metrics.Turnaround(r[k]), r[k].waitTime)) &&
    average == Some(Metrics.Totals(Metrics.SumResponse(r), Metrics.SumTurnaround(r), Metrics.SumWait(r), |r|))
  }

  /** The analysis main runs after a policy, on a workload that is not empty. */
  method AnalyzeJobs(js: seq<Job>) returns (report: seq<Metrics.Report>, average: Option<Metrics.Totals>)
    requires js != []
    ensures Analysed(report, average, js)
  {
    report, average := Metrics.Analyze(js);
  }

  /**
   * `main` for `analysis policy slice trace`: load the workload, then run
   * FIFO or LT and, when `analysis` is 1, analyse the result. The names
   * SJF, STCF and RR, and any other name, run nothing. An empty workload
   * ends the program before any scheduling.
   */
  method Simulate(analysis: int, policy: string, slice: int, entries: seq<(int, int)>, rand: nat -> nat)
    returns (result: Result<Output, ConfigError>)
    requires policy == "LT" ==> slice > 0 && forall k :: 0 <= k < |entries| ==> entries[k].1 > 0
    ensures result.Failure? <==> entries == []
    ensures result.Success? && policy == "FIFO" ==>
      var r := Fifo.Fifo(LoadJobs(entries, 0));
      result.value.trace == seq(|r|, k requires 0 <= k < |r| => Dispatch(r[k].startTime, r[k].id, r[k].arrival, r[k].length))
    ensures result.Success? && policy == "LT" ==>
      Lottery.Runnable(Lottery.Initial(LoadJobs(entries, 0))) &&
      result.value.trace == Lottery.Run(Lottery.Initial(LoadJobs(entries, 0)), slice, rand).trace
    ensures result.Success? && policy != "FIFO" && policy != "LT" ==>
      result.value == Output([], [], None)
    ensures result.Success? && (analysis != 1 || (policy != "FIFO" && policy != "LT")) ==>
      result.value.report == [] && result.value.average == None
    ensures result.Success? && analysis == 1 && (policy == "FIFO" || policy == "LT") ==>
      |result.value.report| == |entries| && result.value.average.Some?
    ensures result.Success? && analysis == 1 && policy == "FIFO" ==>
      Analysed(result.value.report, result.value.average, Fifo.Fifo(LoadJobs(entries, 0)))
    ensures result.Success? && analysis == 1 && policy == "LT" ==>
      Lottery.Runnable(Lottery.Initial(LoadJobs(entries, 0))) &&
      Analysed(result.value.report, result.value.average, Lottery.Run(Lottery.Initial(LoadJobs(entries, 0)), slice, rand).jobs)
  {
    var w := new Workload();
    var loaded := w.ReadJobConfig(entries);
    if loaded.Failure? {
      return Failure(loaded.error);
    }
    assert w.jobs == LoadJobs(entries, 0);
    var trace: seq<Dispatch> := [];
    var report: seq<Metrics.Report> := [];
    var average: Option<Metrics.Totals> := None;
    if policy == "FIFO" {
      trace := w.RunFIFO();
      if analysis == 1 {
        report, average := AnalyzeJobs(w.jobs);
      }
    } else if policy == "LT" {
      trace := w.RunLT(slice, rand);
      if analysis == 1 {
        report, average := AnalyzeJobs(w.jobs);
      }
    }
    result := Success(Output(trace, report, average));
  }
}
