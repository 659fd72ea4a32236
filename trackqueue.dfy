/**
 * The retry queue of the options tracker: jobs wait in a FIFO queue, one at a
 * time is handed out and held as the waiting job until it is acknowledged,
 * and a failed job goes to the back of the queue again with an exponential
 * back-off, until its retries run out.
 *
 * The clock is a parameter: `now` is the current local time in New York, in
 * minutes since a local midnight.
 */
module JobQueue {

  import opened Optional

  /** A queued job: how often it has been retried, when it may start, and what it tracks. */
  datatype Job<T> = Job(nRetries: nat, startTime: int, entry: T)

  /** The hour of the day of a local time in minutes. */
  function HourOf(minutes: int): (h: int)
    ensures 0 <= h < 24
  {
    (minutes / 60) % 24
  }

  /** How many failed attempts a job may be retried after: 4 in production, 1 otherwise. */
  function RetryLimit(prod: bool): (limit: nat)
    ensures limit >= 1
    ensures prod ==> limit > RetryLimit(false)
  {
    if prod then 4 else 1
  }

  /** 3 to the power `n`. */
  function Pow3(n: nat): (p: nat)
    ensures p >= 1
  {
    if n == 0 then 1 else 3 * Pow3(n - 1)
  }

  /** `_getwaittime`: the back-off after the `n`th retry, 3^n minutes and never under a minute. */
  function WaitTime(nRetries: nat): (minutes: nat)
    ensures minutes >= 1
  {
    Pow3(nRetries)
  }

  /** The back-off grows strictly with every further retry. */
  lemma {:induction false} WaitTimeGrows(m: nat, n: nat)
    requires m < n
    ensures WaitTime(m) < WaitTime(n)
    decreases n - m
  {
    assert WaitTime(n) == 3 * WaitTime(n - 1);
    if m + 1 < n {
      WaitTimeGrows(m, n - 1);
    }
  }

  /** The waiting job after a failure, with one more retry and a start time one back-off away. */
  function Retried<T>(job: Job<T>, now: int): (r: Job<T>)
    ensures r.nRetries == job.nRetries + 1 && r.entry == job.entry
    ensures r.startTime - now == WaitTime(r.nRetries)
  {
    job.(nRetries := job.nRetries + 1, startTime := now + WaitTime(job.nRetries + 1))
  }

  /**
   * What `ack` puts back at the end of the queue: nothing after success,
   * after the last allowed retry, or when the retry would start at 12:59 or
   * earlier; otherwise the waiting job, retried.
   */
  function Requeued<T>(waiting: Option<Job<T>>, success: bool, limit: nat, now: int): (r: seq<Job<T>>)
    ensures |r| <= 1
    ensures r == [] <==>
              || waiting.None? || success || waiting.value.nRetries >= limit
              || HourOf(now + WaitTime(waiting.value.nRetries + 1)) <= 12
    ensures r != [] ==>
              && r[0].entry == waiting.value.entry
              && r[0].nRetries == waiting.value.nRetries + 1 <= limit
              && r[0].startTime == now + WaitTime(r[0].nRetries)
              && HourOf(r[0].startTime) > 12
  {
    if waiting.None? || success || waiting.value.nRetries >= limit then []
    else
      var job := Retried(waiting.value, now);
      if HourOf(job.startTime) <= 12 then [] else [job]
  }

  class TrackQueue<T> {
    var mainQueue: seq<Job<T>>
    var waiting: Option<Job<T>>
    const limit: nat

    /** No job has been retried more often than the limit allows. */
    ghost predicate Valid()
      reads this
    {
      && (forall k :: 0 <= k < |mainQueue| ==> mainQueue[k].nRetries <= limit)
      && (waiting.Some? ==> waiting.value.nRetries <= limit)
    }

    /** The jobs the queue holds, the waiting one included. */
    function Count(): nat
      reads this
    {
      |mainQueue| + if waiting.Some? then 1 else 0
    }

    /** An empty queue with nothing waiting; `prod` says whether it runs in production. */
    constructor (prod: bool)
      ensures Valid() && mainQueue == [] && waiting == None && limit == RetryLimit(prod)
    {
      mainQueue := [];
      waiting := None;
      limit := RetryLimit(prod);
    }

    /** `enqueue`: a new job with no retries, startable now, at the back of the queue. */
    method Enqueue(entry: T, now: int)
      requires Valid()
      modifies this
      ensures Valid()
      ensures mainQueue == old(mainQueue) + [Job(0, now, entry)] && waiting == old(waiting)
      ensures Count() == old(Count()) + 1
    {
      mainQueue := mainQueue + [Job(0, now, entry)];
    }

    /**
     * `pop`: when jobs are queued and none is waiting, the front job becomes
     * the waiting one and is returned; otherwise nothing changes.
     */
    method Pop() returns (job: Option<Job<T>>)
      requires Valid()
      modifies this
      ensures Valid() && Count() == old(Count())
      ensures if |old(mainQueue)| > 0 && old(waiting).None?
              then job == Some(old(mainQueue)[0]) && waiting == job && mainQueue == old(mainQueue)[1..]
              else job == None && waiting == old(waiting) && mainQueue == old(mainQueue)
    {
      if |mainQueue| > 0 && waiting.None? {
        waiting := Some(mainQueue[0]);
        mainQueue := mainQueue[1..];
        return waiting;
      }
      return None;
    }

    /**
     * `ack`: the waiting job is done with. It is dropped after success, after
     * its last allowed retry or when the back-off would end at 12:59 or
     * earlier, and otherwise goes to the back of the queue for another try.
     * An ack with nothing waiting changes nothing.
     */
    method Ack(success: bool, now: int)
      requires Valid()
      modifies this
      ensures Valid() && waiting == None
      ensures mainQueue == old(mainQueue) + Requeued(old(waiting), success, limit, now)
      ensures old(waiting).None? ==> mainQueue == old(mainQueue)
      ensures Count() <= old(Count())
    {
      if waiting.None? {
        return;
      }
      if success {
        waiting := None;
        return;
      }
      if waiting.value.nRetries >= limit {
        waiting := None;
        return;
      }
      var job := waiting.value;
      job := job.(nRetries := job.nRetries + 1);
      job := job.(startTime := now + WaitTime(job.nRetries));
      waiting := Some(job);
      if HourOf(job.startTime) <= 12 {
        waiting := None;
        return;
      }
      mainQueue := mainQueue + [job];
      waiting := None;
    }
  }

  /**
   * One job outside production: its first failure at 14:00 requeues it to
   * start at 14:03, and its second failure abandons it, emptying the queue.
   */
  method RetryOnceFixture() returns (afterFirst: seq<Job<string>>, afterSecond: seq<Job<string>>)
    ensures afterFirst == [Job(1, 14 * 60 + 3, "SPY")]
    ensures afterSecond == []
  {
    var q := new TrackQueue<string>(false);
    q.Enqueue("SPY", 14 * 60);
    var job := q.Pop();
    q.Ack(false, 14 * 60);
    afterFirst := q.mainQueue;
    job := q.Pop();
    q.Ack(false, 14 * 60 + 3);
    afterSecond := q.mainQueue;
  }
}
