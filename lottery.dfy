/**
 * LT policy (policy_LT): lottery scheduling. Each round the ready jobs'
 * tickets are summed, a draw `rand() % total` picks a winner by walking the
 * jobs in order with a running ticket sum, and the winner runs for at most
 * `slice` units. The generator behind `rand()` after `srand(42)` is a
 * parameter: `rand(n)` is the value of the n-th call.
 */
module Lottery {
  import opened Jobs

  /** Tickets held by the jobs of `js[..k]` that are ready at `clock`. */
  function TicketsBefore(js: seq<Job>, clock: int, k: int): int
    requires 0 <= k <= |js|
  {
    if k == 0 then 0
    else TicketsBefore(js, clock, k - 1) + (if Ready(js[k - 1], clock) then js[k - 1].tickets else 0)
  }

  /** `total_tickets` of a round. */
  function ReadyTickets(js: seq<Job>, clock: int): int {
    TicketsBefore(js, clock, |js|)
  }

  predicate PositiveTickets(js: seq<Job>) {
    forall k :: 0 <= k < |js| ==> js[k].tickets > 0
  }

  /**
   * Job `k` wins draw `w` under policy_LT's walk: it is ready, the running
   * sum through it exceeds `w`, and through every earlier ready job it did not.
   */
  predicate Wins(js: seq<Job>, clock: int, w: int, k: int) {
    0 <= k < |js| && Ready(js[k], clock) && TicketsBefore(js, clock, k + 1) > w &&
    forall j :: 0 <= j < k && Ready(js[j], clock) ==> TicketsBefore(js, clock, j + 1) <= w
  }

  /**
   * Reference winner: the ready job whose own ticket interval
   * [TicketsBefore(k), TicketsBefore(k) + tickets) contains `w`, searched
   * from the right among `js[..n]`; -1 when there is none.
   */
  function WinnerBelow(js: seq<Job>, clock: int, w: int, n: int): (r: int)
    requires 0 <= n <= |js|
    ensures r == -1 || 0 <= r < n
  {
    if n == 0 then -1
    else if Ready(js[n - 1], clock) && TicketsBefore(js, clock, n - 1) <= w < TicketsBefore(js, clock, n) then n - 1
    else WinnerBelow(js, clock, w, n - 1)
  }

  function Winner(js: seq<Job>, clock: int, w: int): (r: int)
    ensures r == -1 || 0 <= r < |js|
  {
    WinnerBelow(js, clock, w, |js|)
  }

  lemma {:induction false} TicketsMonotone(js: seq<Job>, clock: int, i: int, j: int)
    requires PositiveTickets(js) && 0 <= i <= j <= |js|
    ensures TicketsBefore(js, clock, i) <= TicketsBefore(js, clock, j)
    decreases j - i
  {
    if i < j {
      TicketsMonotone(js, clock, i, j - 1);
    }
  }

  /** With positive tickets the round's total is zero exactly when no job is ready, and positive otherwise. */
  lemma {:induction false} TotalZeroIffNoneReady(js: seq<Job>, clock: int)
    requires PositiveTickets(js)
    ensures ReadyTickets(js, clock) >= 0
    ensures ReadyTickets(js, clock) == 0 <==> forall k :: 0 <= k < |js| ==> !Ready(js[k], clock)
  {
    TicketsMonotone(js, clock, 0, |js|);
    forall k | 0 <= k < |js| && Ready(js[k], clock) ensures ReadyTickets(js, clock) > 0 {
      TicketsMonotone(js, clock, k + 1, |js|);
      TicketsMonotone(js, clock, 0, k);
    }
    if forall k :: 0 <= k < |js| ==> !Ready(js[k], clock) {
      NoneReadyNoTickets(js, clock, |js|);
    }
  }

  lemma {:induction false} NoneReadyNoTickets(js: seq<Job>, clock: int, n: int)
    requires 0 <= n <= |js|
    requires forall k :: 0 <= k < n ==> !Ready(js[k], clock)
    ensures TicketsBefore(js, clock, n) == 0
  {
    if n > 0 {
      NoneReadyNoTickets(js, clock, n - 1);
    }
  }

  /** If the walk has not passed `w` through any ready job before `k`, the sum before `k` is at most `w`. */
  lemma {:induction false} NotPassedBefore(js: seq<Job>, clock: int, w: int, k: int)
    requires 0 <= k <= |js| && w >= 0
    requires forall j :: 0 <= j < k && Ready(js[j], clock) ==> TicketsBefore(js, clock, j + 1) <= w
    ensures TicketsBefore(js, clock, k) <= w
  {
    if k > 0 {
      NotPassedBefore(js, clock, w, k - 1);
    }
  }

  /**
   * With positive tickets `k` wins draw `w` exactly when `w` lies in `k`'s
   * own ticket interval: each ready job owns `tickets` consecutive draws.
   */
  lemma WinsIffInInterval(js: seq<Job>, clock: int, w: int, k: int)
    requires PositiveTickets(js) && w >= 0 && 0 <= k < |js|
    ensures Wins(js, clock, w, k) <==>
      Ready(js[k], clock) && TicketsBefore(js, clock, k) <= w < TicketsBefore(js, clock, k) + js[k].tickets
  {
    if Wins(js, clock, w, k) {
      NotPassedBefore(js, clock, w, k);
    }
    if Ready(js[k], clock) && TicketsBefore(js, clock, k) <= w < TicketsBefore(js, clock, k) + js[k].tickets {
      InIntervalWins(js, clock, w, k);
    }
  }

  lemma InIntervalWins(js: seq<Job>, clock: int, w: int, k: int)
    requires PositiveTickets(js) && 0 <= k < |js| && Ready(js[k], clock)
    requires TicketsBefore(js, clock, k) <= w < TicketsBefore(js, clock, k) + js[k].tickets
    ensures Wins(js, clock, w, k)
  {
    forall j | 0 <= j < k && Ready(js[j], clock) ensures TicketsBefore(js, clock, j + 1) <= w {
      TicketsMonotone(js, clock, j + 1, k);
    }
  }

  /** At most one job wins a draw. */
  lemma WinsUnique(js: seq<Job>, clock: int, w: int, k1: int, k2: int)
    requires Wins(js, clock, w, k1) && Wins(js, clock, w, k2)
    ensures k1 == k2
  {
  }

  /** The reference search returns a job whose interval contains `w`, or -1 when no interval below `n` does. */
  lemma {:induction false} WinnerBelowSpec(js: seq<Job>, clock: int, w: int, n: int)
    requires 0 <= n <= |js|
    ensures var r := WinnerBelow(js, clock, w, n);
      (r != -1 ==> Ready(js[r], clock) && TicketsBefore(js, clock, r) <= w < TicketsBefore(js, clock, r + 1)) &&
      (r == -1 ==> forall k :: 0 <= k < n && Ready(js[k], clock) ==>
         !(TicketsBefore(js, clock, k) <= w < TicketsBefore(js, clock, k + 1)))
  {
    if n > 0 {
      WinnerBelowSpec(js, clock, w, n - 1);
    }
  }

  /** Every draw below a non-zero total has its winner in the walk, and the reference search finds the same job. */
  lemma WinnerSpec(js: seq<Job>, clock: int, w: int)
    requires PositiveTickets(js) && 0 <= w < ReadyTickets(js, clock)
    ensures Winner(js, clock, w) != -1 && Wins(js, clock, w, Winner(js, clock, w))
  {
    var k := InIntervalSomewhere(js, clock, w, |js|);
    WinsIffInInterval(js, clock, w, k);
    WinnerBelowSpec(js, clock, w, |js|);
    var r := Winner(js, clock, w);
    WinsIffInInterval(js, clock, w, r);
  }

  /** A draw below the sum of `js[..n]` lies in the interval of some ready job before `n`. */
  lemma {:induction false} InIntervalSomewhere(js: seq<Job>, clock: int, w: int, n: int) returns (k: int)
    requires 0 <= n <= |js| && 0 <= w < TicketsBefore(js, clock, n)
    ensures 0 <= k < n && Ready(js[k], clock)
    ensures TicketsBefore(js, clock, k) <= w < TicketsBefore(js, clock, k + 1)
  {
    if w < TicketsBefore(js, clock, n - 1) {
      k := InIntervalSomewhere(js, clock, w, n - 1);
    } else {
      k := n - 1;
    }
  }

  /**
   * The largest draw, `total - 1`, goes to the last ready job in list order.
   */
  lemma LastTicketWins(js: seq<Job>, clock: int, last: int)
    requires PositiveTickets(js) && 0 <= last < |js| && Ready(js[last], clock)
    requires forall k :: last < k < |js| ==> !Ready(js[k], clock)
    ensures Wins(js, clock, ReadyTickets(js, clock) - 1, last)
  {
    NoReadyAfter(js, clock, last + 1, |js|);
    TicketsMonotone(js, clock, 0, last);
    WinsIffInInterval(js, clock, ReadyTickets(js, clock) - 1, last);
  }

  lemma {:induction false} NoReadyAfter(js: seq<Job>, clock: int, i: int, n: int)
    requires 0 <= i <= n <= |js|
    requires forall k :: i <= k < n ==> !Ready(js[k], clock)
    ensures TicketsBefore(js, clock, n) == TicketsBefore(js, clock, i)
    decreases n - i
  {
    if i < n {
      NoReadyAfter(js, clock, i, n - 1);
    }
  }

  /** The ticket-summing loop of policy_LT. */
  method SumReadyTickets(js: seq<Job>, clock: int) returns (total: int)
    ensures total == ReadyTickets(js, clock)
  {
    total := 0;
    for k := 0 to |js|
      invariant total == TicketsBefore(js, clock, k)
    {
      if js[k].arrival <= clock && js[k].remaining > 0 {
        total := total + js[k].tickets;
      }
    }
  }

  /**
   * The winner walk of policy_LT: add up the tickets of ready jobs in order
   * and stop at the first whose running sum is strictly greater than `w`.
   */
  method DrawWinner(js: seq<Job>, clock: int, w: int) returns (k: int)
    requires 0 <= w < ReadyTickets(js, clock)
    ensures Wins(js, clock, w, k)
    ensures PositiveTickets(js) ==> k == Winner(js, clock, w)
  {
    var cumulative := 0;
    var i := 0;
    k := -1;
    while i < |js|
      invariant 0 <= i <= |js|
      invariant cumulative == TicketsBefore(js, clock, i) && cumulative <= w
      invariant forall j :: 0 <= j < i && Ready(js[j], clock) ==> TicketsBefore(js, clock, j + 1) <= w
    {
      if js[i].arrival <= clock && js[i].remaining > 0 {
        cumulative := cumulative + js[i].tickets;
        if cumulative > w {
          k := i;
          break;
        }
      }
      i := i + 1;
    }
    if PositiveTickets(js) {
      WinnerSpec(js, clock, w);
      WinsUnique(js, clock, w, k, Winner(js, clock, w));
    }
  }

  /** The variables of policy_LT: the jobs, `current_time`, `finished_jobs`, the number of `rand()` calls made and the trace. */
  datatype State = State(jobs: seq<Job>, clock: int, finished: int, draws: nat, trace: seq<Dispatch>)

  function Initial(js: seq<Job>): State {
    State(js, 0, 0, 0, [])
  }

  /** The winner `k` runs for `min(slice, remaining)` units; its start is stamped on its first win, its finish and wait when it completes. */
  function RunSlice(s: State, k: int, slice: int): State
    requires 0 <= k < |s.jobs|
  {
    var j := s.jobs[k];
    var j1 := if j.startTime == -1 then j.(startTime := s.clock) else j;
    var run := Min(slice, j.remaining);
    var t := s.clock + run;
    var left := j.remaining - run;
    var j2 := if left == 0 then j1.(remaining := 0, finishTime := t, waitTime := t - j.arrival - j.length)
              else j1.(remaining := left);
    State(s.jobs[k := j2], t, s.finished + (if left == 0 then 1 else 0), s.draws + 1,
          s.trace + [Dispatch(s.clock, j.id, j.arrival, run)])
  }

  /** The loop's bookkeeping: remaining times never negative, tickets positive, `finished` counting completed jobs. */
  predicate Runnable(s: State) {
    (forall k :: 0 <= k < |s.jobs| ==> s.jobs[k].remaining >= 0) &&
    PositiveTickets(s.jobs) && s.finished == CountDone(s.jobs)
  }

  /** One round: idle a unit when no tickets are in play, otherwise draw and run the winner. */
  function Step(s: State, slice: int, rand: nat -> nat): State
    requires Runnable(s)
  {
    var total := ReadyTickets(s.jobs, s.clock);
    if total == 0 then s.(clock := s.clock + 1)
    else
      TotalZeroIffNoneReady(s.jobs, s.clock);
      var w := rand(s.draws) % total;
      WinnerSpec(s.jobs, s.clock, w);
      RunSlice(s, Winner(s.jobs, s.clock, w), slice)
  }

  /** A round keeps the bookkeeping and makes progress: either the jobs lose running time, or the clock moves towards the last arrival. */
  lemma StepProgress(s: State, slice: int, rand: nat -> nat)
    requires Runnable(s) && s.finished < |s.jobs| && slice > 0
    ensures Runnable(Step(s, slice, rand)) && SameJobs(s.jobs, Step(s, slice, rand).jobs)
    ensures TotalRemaining(s.jobs) > 0
    ensures var s' := Step(s, slice, rand);
      (TotalRemaining(s'.jobs) < TotalRemaining(s.jobs)) ||
      (s'.jobs == s.jobs && s'.clock == s.clock + 1 && s.clock < MaxArrival(s.jobs))
  {
    var u := SomeUnfinished(s.jobs);
    TotalRemainingNonNegative(s.jobs);
    UpdateOne(s.jobs, u, s.jobs[u].(remaining := 0));
    TotalRemainingNonNegative(s.jobs[u := s.jobs[u].(remaining := 0)]);
    TotalZeroIffNoneReady(s.jobs, s.clock);
    var total := ReadyTickets(s.jobs, s.clock);
    if total == 0 {
      assert !Ready(s.jobs[u], s.clock);
      MaxArrivalBound(s.jobs, u);
    } else {
      var w := rand(s.draws) % total;
      WinnerSpec(s.jobs, s.clock, w);
      SliceProgress(s, Winner(s.jobs, s.clock, w), slice);
    }
  }

  /** Running a ready winner for a positive slice keeps the bookkeeping and takes running time off the jobs. */
  lemma SliceProgress(s: State, k: int, slice: int)
    requires Runnable(s) && 0 <= k < |s.jobs| && Ready(s.jobs[k], s.clock) && slice > 0
    ensures var s' := RunSlice(s, k, slice);
      Runnable(s') && SameJobs(s.jobs, s'.jobs) && TotalRemaining(s'.jobs) < TotalRemaining(s.jobs)
  {
    var s' := RunSlice(s, k, slice);
    UpdateOne(s.jobs, k, s'.jobs[k]);
    assert s'.jobs == s.jobs[k := s'.jobs[k]];
  }

  /** policy_LT's loop run until every job has finished. */
  ghost function Run(s: State, slice: int, rand: nat -> nat): State
    requires Runnable(s) && slice > 0
    decreases TotalRemaining(s.jobs), MaxArrival(s.jobs) - s.clock
  {
    if s.finished >= |s.jobs| then s
    else
      StepProgress(s, slice, rand);
      Run(Step(s, slice, rand), slice, rand)
  }

  /**
   * What one round does. With no ticket in play only the clock moves.
   * Otherwise the draw `rand(draws) % total` is below the total, its
   * winner is ready and is the first job whose running ticket sum passes
   * the draw; only that job changes: `startTime` is stamped if it was -1,
   * it runs `min(slice, remaining)` units, and on reaching zero its finish
   * is the new clock and its wait `finish - arrival - length`; one dispatch
   * line is printed and one draw consumed.
   */
  lemma StepSpec(s: State, slice: int, rand: nat -> nat)
    requires Runnable(s)
    ensures var total := ReadyTickets(s.jobs, s.clock);
      (total == 0 <==> forall k :: 0 <= k < |s.jobs| ==> !Ready(s.jobs[k], s.clock)) &&
      (total == 0 ==> Step(s, slice, rand) == s.(clock := s.clock + 1)) &&
      (total != 0 ==>
        var w := rand(s.draws) % total;
        var k := Winner(s.jobs, s.clock, w);
        0 <= w < total && Wins(s.jobs, s.clock, w, k) &&
        var j := s.jobs[k];
        var run := Min(slice, j.remaining);
        var s' := Step(s, slice, rand);
        s'.clock == s.clock + run && s'.draws == s.draws + 1 &&
        s'.trace == s.trace + [Dispatch(s.clock, j.id, j.arrival, run)] &&
        |s'.jobs| == |s.jobs| &&
        (forall i :: 0 <= i < |s.jobs| && i != k ==> s'.jobs[i] == s.jobs[i]) &&
        s'.jobs[k].remaining == j.remaining - run &&
        s'.jobs[k].startTime == (if j.startTime == -1 then s.clock else j.startTime) &&
        (s'.jobs[k].remaining == 0 ==>
          s'.jobs[k].finishTime == s'.clock &&
          s'.jobs[k].waitTime == s'.clock - j.arrival - j.length) &&
        (s'.jobs[k].remaining != 0 ==>
          s'.jobs[k].finishTime == j.finishTime && s'.jobs[k].waitTime == j.waitTime))
  {
    TotalZeroIffNoneReady(s.jobs, s.clock);
    var total := ReadyTickets(s.jobs, s.clock);
    if total != 0 {
      WinnerSpec(s.jobs, s.clock, rand(s.draws) % total);
    }
  }

  /** Units handed out to job `id` in a trace. */
  function RanFor(tr: seq<Dispatch>, id: int): int {
    if tr == [] then 0
    else RanFor(tr[..|tr| - 1], id) + (if tr[|tr| - 1].id == id then tr[|tr| - 1].ran else 0)
  }

  /** Units handed out in a trace. */
  function TotalRan(tr: seq<Dispatch>): int {
    if tr == [] then 0 else TotalRan(tr[..|tr| - 1]) + tr[|tr| - 1].ran
  }

  /**
   * What holds throughout the run: the clock is never negative and
   * remaining times stay in [0, length]; a
   * job has a start time exactly when it has run; it started no earlier
   * than its arrival and the units it has run fit between its start and
   * the clock; finished jobs carry `finishTime` and the wait formula; the
   * trace hands each job the units it has run, and the units handed out
   * plus the units still to run add up to the total length.
   */
  predicate Progress(s: State, js: seq<Job>) {
    SameJobs(js, s.jobs) && IdsAreIndices(s.jobs) && RemainingInBounds(s.jobs) && s.clock >= 0 &&
    TotalRan(s.trace) + TotalRemaining(s.jobs) == TotalLength(js) &&
    forall k :: 0 <= k < |s.jobs| ==> JobProgress(s, k)
  }

  predicate JobProgress(s: State, k: int)
    requires 0 <= k < |s.jobs|
  {
    var j := s.jobs[k];
    (j.startTime == -1 <==> j.remaining == j.length) &&
    (j.startTime != -1 ==>
      j.arrival <= j.startTime && j.startTime + (j.length - j.remaining) <= s.clock) &&
    (j.remaining == 0 ==>
      j.startTime + j.length <= j.finishTime <= s.clock &&
      j.waitTime == j.finishTime - j.arrival - j.length) &&
    (j.remaining > 0 ==> j.finishTime == -1) &&
    RanFor(s.trace, k) == j.length - j.remaining
  }

  lemma StepKeepsProgress(s: State, js: seq<Job>, slice: int, rand: nat -> nat)
    requires Runnable(s) && s.finished < |s.jobs| && slice > 0 && Progress(s, js)
    ensures Progress(Step(s, slice, rand), js)
  {
    TotalZeroIffNoneReady(s.jobs, s.clock);
    var total := ReadyTickets(s.jobs, s.clock);
    if total != 0 {
      var w := rand(s.draws) % total;
      WinnerSpec(s.jobs, s.clock, w);
      SliceKeepsProgress(s, js, Winner(s.jobs, s.clock, w), slice);
    } else {
      var s' := Step(s, slice, rand);
      forall i | 0 <= i < |s.jobs| ensures JobProgress(s', i) {
        assert JobProgress(s, i);
      }
    }
  }

  /** Running a ready winner for a positive slice keeps every fact of Progress. */
  lemma SliceKeepsProgress(s: State, js: seq<Job>, k: int, slice: int)
    requires Runnable(s) && 0 <= k < |s.jobs| && Ready(s.jobs[k], s.clock) && slice > 0 && Progress(s, js)
    ensures Progress(RunSlice(s, k, slice), js)
  {
    var s' := RunSlice(s, k, slice);
    var j := s.jobs[k];
    var run := Min(slice, j.remaining);
    assert s'.jobs == s.jobs[k := s'.jobs[k]];
    UpdateOne(s.jobs, k, s'.jobs[k]);
    assert s'.trace[..|s'.trace| - 1] == s.trace;
    assert TotalRan(s'.trace) == TotalRan(s.trace) + run;
    forall i | 0 <= i < |s.jobs| ensures JobProgress(s', i) {
      SliceKeepsJob(s, k, slice, i);
    }
  }

  /** Job `i` keeps its part of Progress when the ready winner `k` runs. */
  lemma SliceKeepsJob(s: State, k: int, slice: int, i: int)
    requires 0 <= k < |s.jobs| && Ready(s.jobs[k], s.clock) && slice > 0
    requires 0 <= i < |s.jobs| && IdsAreIndices(s.jobs) && RemainingInBounds(s.jobs) && s.clock >= 0
    requires JobProgress(s, i)
    ensures JobProgress(RunSlice(s, k, slice), i)
  {
    var s' := RunSlice(s, k, slice);
    var run := Min(slice, s.jobs[k].remaining);
    assert s'.trace[..|s'.trace| - 1] == s.trace;
    assert RanFor(s'.trace, i) == RanFor(s.trace, i) + (if i == k then run else 0);
  }

  lemma RunKeepsProgress(s: State, js: seq<Job>, slice: int, rand: nat -> nat)
    requires Runnable(s) && slice > 0 && Progress(s, js)
    ensures var r := Run(s, slice, rand);
      Progress(r, js) && Runnable(r) && r.finished >= |r.jobs|
    decreases TotalRemaining(s.jobs), MaxArrival(s.jobs) - s.clock
  {
    if s.finished < |s.jobs| {
      StepProgress(s, slice, rand);
      StepKeepsProgress(s, js, slice, rand);
      RunKeepsProgress(Step(s, slice, rand), js, slice, rand);
    }
  }

  /**
   * policy_LT on a freshly loaded workload with a positive slice ends with
   * every job finished; the dispatch lines hand out exactly the jobs' total
   * length, each job exactly its own length. Each job started no earlier
   * than it arrived, finished no earlier than `start + length`, and its
   * wait is `finish - arrival - length`, hence never negative.
   */
  lemma LotteryComplete(js: seq<Job>, slice: int, rand: nat -> nat)
    requires Unstarted(js) && IdsAreIndices(js) && PositiveTickets(js) && slice > 0
    ensures Runnable(Initial(js))
    ensures var r := Run(Initial(js), slice, rand);
      SameJobs(js, r.jobs) && TotalRan(r.trace) == TotalLength(js) &&
      forall k :: 0 <= k < |js| ==>
        r.jobs[k].remaining == 0 &&
        RanFor(r.trace, k) == js[k].length &&
        js[k].arrival <= r.jobs[k].startTime &&
        r.jobs[k].startTime + js[k].length <= r.jobs[k].finishTime <= r.clock &&
        r.jobs[k].waitTime == r.jobs[k].finishTime - js[k].arrival - js[k].length >= 0
  {
    UnstartedTotals(js);
    assert Progress(Initial(js), js) by {
      forall k | 0 <= k < |js| ensures JobProgress(Initial(js), k) {
      }
    }
    RunKeepsProgress(Initial(js), js, slice, rand);
    var r := Run(Initial(js), slice, rand);
    AllDone(r.jobs);
    NoneRemaining(r.jobs);
    forall k | 0 <= k < |js|
      ensures r.jobs[k].remaining == 0 && RanFor(r.trace, k) == js[k].length
      ensures js[k].arrival <= r.jobs[k].startTime
      ensures r.jobs[k].startTime + js[k].length <= r.jobs[k].finishTime <= r.clock
      ensures r.jobs[k].waitTime == r.jobs[k].finishTime - js[k].arrival - js[k].length >= 0
    {
      assert JobProgress(r, k);
    }
  }
}
