/**
 * FIFO policy (policy_FIFO): jobs run to completion in list order; the
 * clock jumps forward to a job's arrival when the CPU would otherwise idle.
 */
module Fifo {
  import opened Jobs

  /** Job `j` run to completion by a CPU that is free from `clock` on: it starts at its arrival if that is later. */
  function Schedule(j: Job, clock: int): (d: Job)
    ensures d.startTime == Max(clock, j.arrival) && d.finishTime == d.startTime + j.length
    ensures d == j.(startTime := d.startTime, finishTime := d.finishTime, waitTime := d.startTime - j.arrival)
  {
    var start := Max(clock, j.arrival);
    j.(startTime := start, finishTime := start + j.length, waitTime := start - j.arrival)
  }

  /** The job records after FIFO has run `js` from clock value `clock`. */
  function FifoFrom(js: seq<Job>, clock: int): seq<Job>
    decreases |js|
  {
    if js == [] then []
    else
      var done := Schedule(js[0], clock);
      [done] + FifoFrom(js[1..], done.finishTime)
  }

  /** FIFO from an idle CPU at time 0, as policy_FIFO runs it. */
  function Fifo(js: seq<Job>): seq<Job> {
    FifoFrom(js, 0)
  }

  /** The clock value policy_FIFO holds when it reaches job `k` of `r`. */
  function ClockBefore(r: seq<Job>, clock: int, k: int): int
    requires 0 <= k <= |r|
  {
    if k == 0 then clock else r[k - 1].finishTime
  }

  /**
   * Job `k` is scheduled from the moment the previous job finished (the
   * starting clock for the first): it starts at the later of that moment
   * and its own arrival, runs `length` units without interruption, and
   * waits `start - arrival`; nothing but these three fields changes.
   */
  lemma {:induction false} FifoFormula(js: seq<Job>, clock: int)
    ensures var r := FifoFrom(js, clock);
      |r| == |js| &&
      forall k :: 0 <= k < |js| ==> r[k] == Schedule(js[k], ClockBefore(r, clock, k))
    decreases |js|
  {
    if js != [] {
      var r := FifoFrom(js, clock);
      var rest := FifoFrom(js[1..], r[0].finishTime);
      FifoFormula(js[1..], r[0].finishTime);
      assert r == [r[0]] + rest;
      forall k | 0 < k < |js|
        ensures ClockBefore(r, clock, k) == ClockBefore(rest, r[0].finishTime, k - 1)
        ensures r[k] == rest[k - 1] && js[k] == js[1..][k - 1]
      {
      }
    }
  }

  /**
   * The scheduling facts FIFO promises: nobody starts before arriving or
   * before the previous job finished, and the wait is never negative; when
   * no length is negative, finish times never go down in list order.
   */
  lemma FifoOrder(js: seq<Job>)
    ensures var r := Fifo(js);
      |r| == |js| && SameJobs(js, r) &&
      (|r| > 0 ==> r[0].startTime == Max(0, js[0].arrival)) &&
      (forall k :: 0 <= k < |r| ==>
        r[k].startTime >= r[k].arrival && r[k].waitTime == r[k].startTime - r[k].arrival >= 0 &&
        r[k].finishTime == r[k].startTime + r[k].length &&
        r[k].remaining == js[k].remaining) &&
      (forall k :: 0 < k < |r| ==>
        r[k].startTime == Max(r[k - 1].finishTime, r[k].arrival)) &&
      ((forall k :: 0 <= k < |js| ==> js[k].length >= 0) ==>
        forall i, j :: 0 <= i <= j < |r| ==> r[i].finishTime <= r[j].finishTime)
  {
    var r := Fifo(js);
    FifoFormula(js, 0);
    forall k | 0 < k < |r|
      ensures r[k].startTime == Max(r[k - 1].finishTime, r[k].arrival)
    {
      assert r[k] == Schedule(js[k], r[k - 1].finishTime);
    }
    if forall k :: 0 <= k < |js| ==> js[k].length >= 0 {
      forall k | 0 < k < |r| ensures r[k - 1].finishTime <= r[k].finishTime {
        assert r[k] == Schedule(js[k], r[k - 1].finishTime);
      }
      forall i, j | 0 <= i <= j < |r| ensures r[i].finishTime <= r[j].finishTime {
        FinishMonotone(r, i, j);
      }
    }
  }

  /** Pairwise order from the order of neighbours. */
  lemma {:induction false} FinishMonotone(r: seq<Job>, i: int, j: int)
    requires forall k :: 0 < k < |r| ==> r[k - 1].finishTime <= r[k].finishTime
    requires 0 <= i <= j < |r|
    ensures r[i].finishTime <= r[j].finishTime
    decreases j - i
  {
    if i < j {
      FinishMonotone(r, i, j - 1);
    }
  }

  /** The three-job workload (0,5), (1,3), (2,8): the jobs finish at 5, 8 and 16. */
  lemma FifoScenario()
    ensures var r := Fifo([NewJob(0, 0, 5, 100), NewJob(1, 1, 3, 200), NewJob(2, 2, 8, 300)]);
      |r| == 3 &&
      r[0].startTime == 0 && r[0].finishTime == 5 &&
      r[1].startTime == 5 && r[1].finishTime == 8 &&
      r[2].startTime == 8 && r[2].finishTime == 16
  {
    var js := [NewJob(0, 0, 5, 100), NewJob(1, 1, 3, 200), NewJob(2, 2, 8, 300)];
    assert js[1..] == [js[1], js[2]];
    assert js[1..][1..] == [js[2]];
    assert js[1..][1..][1..] == [];
  }
}
