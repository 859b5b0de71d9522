/**
 * The job record of the scheduling simulator and the facts about sequences
 * of job records that every policy relies on: totals of remaining time,
 * the number of completed jobs, and the latest arrival.
 */
module Jobs {

  /** Largest C `int`; policy_STCF starts its minimum search from it. */
  const INT_MAX: int := 0x7fff_ffff

  /**
   * One `struct job`. `startTime` and `finishTime` hold -1 until set;
   * `remaining` is the unexecuted part of `length`.
   */
  datatype Job = Job(
    id: int,
    arrival: int,
    length: int,
    tickets: int,
    startTime: int,
    finishTime: int,
    remaining: int,
    waitTime: int)

  /** One trace line `t=<time>: [Job <id>] arrived at [<arrival>], ran for: [<ran>]` (FIFO and LT). */
  datatype Dispatch = Dispatch(time: int, id: int, arrival: int, ran: int)

  /** A job competes for the CPU at `clock` once it has arrived and still needs time. */
  predicate Ready(j: Job, clock: int) {
    j.arrival <= clock && j.remaining > 0
  }

  function Min(a: int, b: int): int {
    if a < b then a else b
  }

  function Max(a: int, b: int): int {
    if a < b then b else a
  }

  /** The record `append_to` creates for the `id`-th workload line. */
  function NewJob(id: int, arrival: int, length: int, tickets: int): (j: Job)
    ensures j.remaining == j.length == length && j.startTime == j.finishTime == -1
  {
    Job(id, arrival, length, tickets, -1, -1, length, 0)
  }

  /** `a` and `b` hold the same jobs: a policy run changes only the scheduling state. */
  predicate SameJobs(a: seq<Job>, b: seq<Job>) {
    |a| == |b| &&
    forall k :: 0 <= k < |a| ==>
      a[k].id == b[k].id && a[k].arrival == b[k].arrival &&
      a[k].length == b[k].length && a[k].tickets == b[k].tickets
  }

  /** Job ids are positions in load order. */
  predicate IdsAreIndices(js: seq<Job>) {
    forall k :: 0 <= k < |js| ==> js[k].id == k
  }

  /** Every job still needs a positive number of units, and none has run yet. */
  predicate Unstarted(js: seq<Job>) {
    forall k :: 0 <= k < |js| ==>
      0 < js[k].length && js[k].remaining == js[k].length &&
      js[k].startTime == -1 && js[k].finishTime == -1
  }

  /** Remaining time never leaves [0, length]. */
  predicate RemainingInBounds(js: seq<Job>) {
    forall k :: 0 <= k < |js| ==> 0 <= js[k].remaining <= js[k].length
  }

  function TotalRemaining(js: seq<Job>): int {
    if js == [] then 0 else js[0].remaining + TotalRemaining(js[1..])
  }

  function TotalLength(js: seq<Job>): int {
    if js == [] then 0 else js[0].length + TotalLength(js[1..])
  }

  /** Number of jobs whose remaining time is zero. */
  function CountDone(js: seq<Job>): (n: nat)
    ensures n <= |js|
  {
    if js == [] then 0 else (if js[0].remaining == 0 then 1 else 0) + CountDone(js[1..])
  }

  /** Latest arrival time in `js` (0 for no jobs). */
  function MaxArrival(js: seq<Job>): int {
    if js == [] then 0 else Max(js[0].arrival, MaxArrival(js[1..]))
  }

  lemma {:induction false} MaxArrivalBound(js: seq<Job>, k: int)
    requires 0 <= k < |js|
    ensures js[k].arrival <= MaxArrival(js)
  {
    if k > 0 {
      MaxArrivalBound(js[1..], k - 1);
    }
  }

  /** Updating one job is visible in the totals only through that job. */
  lemma {:induction false} UpdateOne(js: seq<Job>, k: int, j: Job)
    requires 0 <= k < |js|
    ensures TotalRemaining(js[k := j]) == TotalRemaining(js) - js[k].remaining + j.remaining
    ensures TotalLength(js[k := j]) == TotalLength(js) - js[k].length + j.length
    ensures js[k].remaining != 0 ==>
      CountDone(js[k := j]) == CountDone(js) + (if j.remaining == 0 then 1 else 0)
    ensures js[k].arrival == j.arrival ==> MaxArrival(js[k := j]) == MaxArrival(js)
  {
    if k == 0 {
      assert js[k := j][1..] == js[1..];
    } else {
      assert js[k := j][1..] == js[1..][k - 1 := j];
      UpdateOne(js[1..], k - 1, j);
    }
  }

  /** With remaining times never negative, fewer than all jobs done means one still needs time. */
  lemma {:induction false} SomeUnfinished(js: seq<Job>) returns (k: int)
    requires forall i :: 0 <= i < |js| ==> js[i].remaining >= 0
    requires CountDone(js) < |js|
    ensures 0 <= k < |js| && js[k].remaining > 0
  {
    if js[0].remaining > 0 {
      k := 0;
    } else {
      var k' := SomeUnfinished(js[1..]);
      k := k' + 1;
    }
  }

  /** All jobs done means no job has remaining time left. */
  lemma {:induction false} AllDone(js: seq<Job>)
    requires CountDone(js) == |js|
    ensures forall k :: 0 <= k < |js| ==> js[k].remaining == 0
  {
    if js != [] {
      AllDone(js[1..]);
      forall k | 0 < k < |js| ensures js[k].remaining == 0 {
        assert js[k] == js[1..][k - 1];
      }
    }
  }

  /** No remaining time anywhere means the total remaining is zero. */
  lemma {:induction false} NoneRemaining(js: seq<Job>)
    requires forall k :: 0 <= k < |js| ==> js[k].remaining == 0
    ensures TotalRemaining(js) == 0
  {
    if js != [] {
      NoneRemaining(js[1..]);
    }
  }

  /** Remaining times that are never negative add up to a non-negative total. */
  lemma {:induction false} TotalRemainingNonNegative(js: seq<Job>)
    requires forall k :: 0 <= k < |js| ==> js[k].remaining >= 0
    ensures TotalRemaining(js) >= 0
  {
    if js != [] {
      TotalRemainingNonNegative(js[1..]);
    }
  }

  /** The total remaining of unstarted jobs is their total length. */
  lemma {:induction false} UnstartedTotals(js: seq<Job>)
    requires forall k :: 0 <= k < |js| ==> js[k].remaining == js[k].length > 0
    ensures TotalRemaining(js) == TotalLength(js)
    ensures CountDone(js) == 0
  {
    if js != [] {
      UnstartedTotals(js[1..]);
    }
  }

  /** Total length depends only on the jobs, not on their scheduling state. */
  lemma {:induction false} SameJobsLength(a: seq<Job>, b: seq<Job>)
    requires SameJobs(a, b)
    ensures TotalLength(a) == TotalLength(b)
  {
    if a != [] {
      SameJobsLength(a[1..], b[1..]);
    }
  }
}
