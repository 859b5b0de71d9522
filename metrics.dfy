/**
 * The analysis `main` prints after a policy has run: per job the response
 * time `start - arrival`, the turnaround `finish - arrival` and the stored
 * wait, and the totals from which the averages are formed (only when
 * there is at least one job).
 */
module Metrics {
  import opened Jobs
  import opened Wrappers

  /** One line `Job <id> -- Response time: <r> Turnaround: <t> Wait: <w>`. */
  datatype Report = Report(id: int, response: int, turnaround: int, wait: int)

  /** The sums behind the `Average --` line and the job count they are divided by. */
  datatype Totals = Totals(response: int, turnaround: int, wait: int, count: nat)

  function Response(j: Job): int { j.startTime - j.arrival }

  function Turnaround(j: Job): int { j.finishTime - j.arrival }

  function SumResponse(js: seq<Job>): int {
    if js == [] then 0 else SumResponse(js[..|js| - 1]) + Response(js[|js| - 1])
  }

  function SumTurnaround(js: seq<Job>): int {
    if js == [] then 0 else SumTurnaround(js[..|js| - 1]) + Turnaround(js[|js| - 1])
  }

  function SumWait(js: seq<Job>): int {
    if js == [] then 0 else SumWait(js[..|js| - 1]) + js[|js| - 1].waitTime
  }

  function SumLength(js: seq<Job>): int {
    if js == [] then 0 else SumLength(js[..|js| - 1]) + js[|js| - 1].length
  }

  /**
   * The analysis loop of `main`: one report per job in list order, and the
   * totals exactly when the count is positive.
   */
  method Analyze(js: seq<Job>) returns (lines: seq<Report>, average: Option<Totals>)
    ensures |lines| == |js|
    ensures forall k :: 0 <= k < |js| ==>
      lines[k].id == js[k].id &&
      lines[k].response == js[k].startTime - js[k].arrival &&
      lines[k].turnaround == js[k].finishTime - js[k].arrival &&
      lines[k].wait == js[k].waitTime
    ensures average.Some? <==> |js| > 0
    ensures average.Some? ==>
      average.value == Totals(SumResponse(js), SumTurnaround(js), SumWait(js), |js|)
  {
    var totalResponse, totalTurnaround, totalWait := 0, 0, 0;
    var count := 0;
    lines := [];
    while count < |js|
      invariant 0 <= count <= |js| && |lines| == count
      invariant forall k :: 0 <= k < count ==>
        lines[k] == Report(js[k].id, js[k].startTime - js[k].arrival, js[k].finishTime - js[k].arrival, js[k].waitTime)
      invariant totalResponse == SumResponse(js[..count])
      invariant totalTurnaround == SumTurnaround(js[..count])
      invariant totalWait == SumWait(js[..count])
    {
      var cur := js[count];
      var response := cur.startTime - cur.arrival;
      var turnaround := cur.finishTime - cur.arrival;
      var wait := cur.waitTime;
      lines := lines + [Report(cur.id, response, turnaround, wait)];
      totalResponse := totalResponse + response;
      totalTurnaround := totalTurnaround + turnaround;
      totalWait := totalWait + wait;
      assert js[..count + 1][..count] == js[..count];
      count := count + 1;
    }
    assert js[..count] == js;
    if count > 0 {
      average := Some(Totals(totalResponse, totalTurnaround, totalWait, count));
    } else {
      average := None;
    }
  }

  /**
   * When every job's wait is `turnaround - length` (the lottery formula),
   * the wait total is the turnaround total minus the total length.
   */
  lemma {:induction false} WaitTotalFromTurnaround(js: seq<Job>)
    requires forall k :: 0 <= k < |js| ==> js[k].waitTime == js[k].finishTime - js[k].arrival - js[k].length
    ensures SumWait(js) == SumTurnaround(js) - SumLength(js)
  {
    if js != [] {
      WaitTotalFromTurnaround(js[..|js| - 1]);
    }
  }

  /**
   * When every job's wait is `start - arrival` (the FIFO formula), the wait
   * total is the response total.
   */
  lemma {:induction false} WaitTotalIsResponse(js: seq<Job>)
    requires forall k :: 0 <= k < |js| ==> js[k].waitTime == js[k].startTime - js[k].arrival
    ensures SumWait(js) == SumResponse(js)
  {
    if js != [] {
      WaitTotalIsResponse(js[..|js| - 1]);
    }
  }
}
