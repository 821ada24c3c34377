/**
 * The dispatch and queue discipline of the worker pool, as a sequential state
 * machine: each submission and each worker step is one atomic transition.
 */
module ThreadPool {

  /** Jobs are opaque; only their identity matters to the scheduler. */
  type JobId = nat

  datatype Option<T> = None | Some(value: T)

  /** A worker's queue: its pending jobs, oldest first, and the worker id it belongs to. */
  datatype JobsQueue = JobsQueue(jobs: seq<JobId>, id: nat)

  // ---------------------------------------------------------------------------
  // Selection by job count
  // ---------------------------------------------------------------------------

  /**
   * `iter().enumerate().min_by_key(count)`: scanning from the front, a later
   * count replaces the current choice only when strictly smaller, so the result
   * is the first index of minimal count.
   */
  function FirstMinIndex(counts: seq<nat>): (i: nat)
    requires |counts| > 0
    ensures i < |counts|
    ensures forall j :: 0 <= j < |counts| ==> counts[i] <= counts[j]
    ensures forall j :: 0 <= j < i ==> counts[i] < counts[j]
    decreases |counts|
  {
    if |counts| == 1 then 0
    else
      var k := FirstMinIndex(counts[..|counts| - 1]);
      if counts[|counts| - 1] < counts[k] then |counts| - 1 else k
  }

  /**
   * `iter().enumerate().max_by_key(count)`: a later count replaces the current
   * choice when it is at least as large, so the result is the last index of
   * maximal count.
   */
  function LastMaxIndex(counts: seq<nat>): (i: nat)
    requires |counts| > 0
    ensures i < |counts|
    ensures forall j :: 0 <= j < |counts| ==> counts[j] <= counts[i]
    ensures forall j :: i < j < |counts| ==> counts[j] < counts[i]
    decreases |counts|
  {
    if |counts| == 1 then 0
    else
      var k := LastMaxIndex(counts[..|counts| - 1]);
      if counts[|counts| - 1] >= counts[k] then |counts| - 1 else k
  }

  /** The first minimum is the only index that is minimal with nothing minimal before it. */
  lemma FirstMinIndexUnique(counts: seq<nat>, i: nat)
    requires i < |counts|
    requires forall j :: 0 <= j < |counts| ==> counts[i] <= counts[j]
    requires forall j :: 0 <= j < i ==> counts[i] < counts[j]
    ensures FirstMinIndex(counts) == i
  {
  }

  /** The last maximum is the only index that is maximal with nothing maximal after it. */
  lemma LastMaxIndexUnique(counts: seq<nat>, i: nat)
    requires i < |counts|
    requires forall j :: 0 <= j < |counts| ==> counts[j] <= counts[i]
    requires forall j :: i < j < |counts| ==> counts[j] < counts[i]
    ensures LastMaxIndex(counts) == i
  {
  }

  /**
   * The free function `get_worker`: nothing when there are fewer queues than
   * counts, otherwise the queue at the last index of maximal count. With no
   * counts at all (and so no shortage of queues) the source's `unwrap` panics,
   * which the precondition rules out.
   */
  function GetBusiestWorker(queues: seq<JobsQueue>, counts: seq<nat>): (r: Option<JobsQueue>)
    requires |queues| >= |counts| ==> |counts| > 0
    ensures r == None <==> |queues| < |counts|
    ensures r.Some? ==> exists i :: (0 <= i < |counts| && r.value == queues[i] &&
      (forall j :: 0 <= j < |counts| ==> counts[j] <= counts[i]) &&
      (forall j :: i < j < |counts| ==> counts[j] < counts[i]))
  {
    if |queues| < |counts| then None
    else
      var i := LastMaxIndex(counts);
      Some(queues[i])
  }

  // ---------------------------------------------------------------------------
  // Dispatch rule on the counts alone
  // ---------------------------------------------------------------------------

  /** One submission: the first least-loaded worker's count goes up by one. */
  function Submit(counts: seq<nat>): (r: seq<nat>)
    requires |counts| > 0
    ensures |r| == |counts|
    ensures var w := FirstMinIndex(counts);
      r[w] == counts[w] + 1 && forall i :: 0 <= i < |counts| && i != w ==> r[i] == counts[i]
  {
    var w := FirstMinIndex(counts);
    counts[w := counts[w] + 1]
  }

  /** `k` submissions in a row, with no worker taking a job in between. */
  function SubmitMany(counts: seq<nat>, k: nat): (r: seq<nat>)
    requires |counts| > 0
    ensures |r| == |counts|
  {
    if k == 0 then counts else Submit(SubmitMany(counts, k - 1))
  }

  /** Counts of `n` workers after `q` full rounds and `r` more submissions. */
  ghost predicate RoundRobinAfter(c: seq<nat>, q: nat, r: nat)
  {
    forall i :: 0 <= i < |c| ==> c[i] == q + (if i < r then 1 else 0)
  }

  /** From equal counts, one more submission lands on the first worker not yet served this round. */
  lemma RoundRobinStep(c: seq<nat>, q: nat, r: nat)
    requires 0 <= r < |c|
    requires RoundRobinAfter(c, q, r)
    ensures RoundRobinAfter(Submit(c), q, r + 1)
  {
    FirstMinIndexUnique(c, r);
  }

  /** Zero counts for `n` workers, as the pool starts. */
  function Zeros(n: nat): (c: seq<nat>)
    ensures |c| == n && forall i :: 0 <= i < n ==> c[i] == 0
  {
    seq(n, _ => 0)
  }

  /**
   * Starting from zero counts at `n` workers, `q * n + r` submissions (with
   * `r < n`) give every worker `q` jobs and the first `r` workers one more.
   */
  lemma {:induction false} RoundRobin(n: nat, q: nat, r: nat)
    requires 0 < n && r < n
    ensures RoundRobinAfter(SubmitMany(Zeros(n), q * n + r), q, r)
    decreases q, r
  {
    if r > 0 {
      RoundRobin(n, q, r - 1);
      RoundRobinWithinRound(n, q, r);
    } else if q > 0 {
      RoundRobin(n, q - 1, n - 1);
      RoundRobinNewRound(n, q);
    }
  }

  /** The `r`-th submission of a round goes to worker `r - 1`. */
  lemma RoundRobinWithinRound(n: nat, q: nat, r: nat)
    requires 0 < r < n
    requires RoundRobinAfter(SubmitMany(Zeros(n), q * n + (r - 1)), q, r - 1)
    ensures RoundRobinAfter(SubmitMany(Zeros(n), q * n + r), q, r)
  {
    RoundRobinNext(n, q * n + r, q, r - 1);
  }

  /** The last submission of a round goes to the last worker and evens the counts out. */
  lemma RoundRobinNewRound(n: nat, q: nat)
    requires 0 < n && 0 < q
    requires RoundRobinAfter(SubmitMany(Zeros(n), (q - 1) * n + (n - 1)), q - 1, n - 1)
    ensures RoundRobinAfter(SubmitMany(Zeros(n), q * n + 0), q, 0)
  {
    assert (q - 1) * n + (n - 1) == q * n - 1;
    RoundRobinNext(n, q * n, q - 1, n - 1);
  }

  /** The step, stated for the `k`-th submission from zero counts. */
  lemma RoundRobinNext(n: nat, k: nat, q: nat, r: nat)
    requires 0 < k && r < n
    requires RoundRobinAfter(SubmitMany(Zeros(n), k - 1), q, r)
    ensures RoundRobinAfter(SubmitMany(Zeros(n), k), q, r + 1)
  {
    RoundRobinStep(SubmitMany(Zeros(n), k - 1), q, r);
  }

  /** The same with quotient and remainder: `k / n` each, one more for the first `k % n`. */
  lemma RoundRobinDivMod(n: nat, k: nat)
    requires n > 0
    ensures RoundRobinAfter(SubmitMany(Zeros(n), k), k / n, k % n)
  {
    assert k == (k / n) * n + k % n;
    RoundRobin(n, k / n, k % n);
  }

  /** Under submissions alone any two workers' counts differ by at most one. */
  lemma Balanced(n: nat, k: nat, i: nat, j: nat)
    requires n > 0 && i < n && j < n
    ensures SubmitMany(Zeros(n), k)[i] <= SubmitMany(Zeros(n), k)[j] + 1
  {
    RoundRobinDivMod(n, k);
  }

  /** In the pool's unit test, forty submissions to four workers give each of them ten jobs. */
  lemma FortyJobsFourWorkers()
    ensures SubmitMany(Zeros(4), 40) == [10, 10, 10, 10]
  {
    FullRounds(4, 10, 40);
  }

  /** After `q` full rounds every one of the `n` workers holds `q` jobs. */
  lemma FullRounds(n: nat, q: nat, k: nat)
    requires n > 0 && k == q * n
    ensures SubmitMany(Zeros(n), k) == seq(n, _ => q)
  {
    RoundRobin(n, q, 0);
  }

  // ---------------------------------------------------------------------------
  // The pool
  // ---------------------------------------------------------------------------

  /** Every job waiting in the given queues, with multiplicity. */
  ghost function AllJobs(queues: seq<JobsQueue>): multiset<JobId>
    decreases |queues|
  {
    if queues == [] then multiset{}
    else AllJobs(queues[..|queues| - 1]) + multiset(queues[|queues| - 1].jobs)
  }

  /** Replacing one queue's jobs changes the waiting jobs by exactly that difference. */
  lemma {:induction false} AllJobsUpdate(queues: seq<JobsQueue>, w: nat, q: JobsQueue)
    requires w < |queues|
    ensures AllJobs(queues[w := q]) + multiset(queues[w].jobs) == AllJobs(queues) + multiset(q.jobs)
    decreases |queues|
  {
    var n := |queues| - 1;
    var updated := queues[w := q];
    var a, b := AllJobs(updated[..n]), AllJobs(queues[..n]);
    var mw, mq, mn := multiset(queues[w].jobs), multiset(q.jobs), multiset(queues[n].jobs);
    assert AllJobs(queues) == b + mn;
    if w < n {
      assert a + mw == b + mq by {
        assert updated[..n] == queues[..n][w := q];
        assert queues[..n][w] == queues[w];
        AllJobsUpdate(queues[..n], w, q);
      }
      assert AllJobs(updated) == a + mn by {
        assert updated[n] == queues[n];
      }
      assert a + mn + mw == (a + mw) + mn;
      assert (b + mq) + mn == (b + mn) + mq;
    } else {
      assert a == b by {
        assert updated[..n] == queues[..n];
      }
      assert AllJobs(updated) == a + mq;
    }
  }

  lemma MultisetCancel<T>(a: multiset<T>, b: multiset<T>, m: multiset<T>)
    requires a + m == b + m
    ensures a == b
  {
    assert forall x :: a[x] == (a + m)[x] - m[x];
  }

  class Pool {
    /** Number of workers. */
    const size: nat
    /** One queue per worker; queue `i` belongs to worker `i + 1`. */
    var queues: seq<JobsQueue>
    /** Per-worker job counts, kept next to the queues. */
    var counts: seq<nat>
    /** The workers' ids. */
    var workers: seq<nat>

    /**
     * The pool's shape, and the scheduling invariant: each count is the length of
     * its worker's queue.
     */
    ghost predicate Valid()
      reads this
    {
      size > 1 && |queues| == size && |counts| == size && |workers| == size &&
      (forall i :: 0 <= i < size ==> queues[i].id == i + 1 && workers[i] == i + 1) &&
      (forall i :: 0 <= i < size ==> counts[i] == |queues[i].jobs|)
    }

    /** Every job submitted and not yet taken by a worker. */
    ghost function Pending(): multiset<JobId>
      reads this
    {
      AllJobs(queues)
    }

    /** `ThreadPool::new`: `size` workers, each with an empty queue and a zero count. */
    constructor (size: nat)
      requires size > 1
      ensures this.size == size
      ensures |queues| == size && |counts| == size && |workers| == size
      ensures forall i :: 0 <= i < size ==>
        queues[i] == JobsQueue([], i + 1) && counts[i] == 0 && workers[i] == i + 1
      ensures Valid()
      ensures Pending() == multiset{}
    {
      this.size := size;
      var qs: seq<JobsQueue> := [];
      var ws: seq<nat> := [];
      var id := 0;
      while id < size
        invariant id <= size
        invariant |qs| == id && |ws| == id
        invariant forall i :: 0 <= i < id ==> qs[i] == JobsQueue([], i + 1) && ws[i] == i + 1
        invariant AllJobs(qs) == multiset{}
      {
        assert (qs + [JobsQueue([], id + 1)])[..id] == qs;
        qs := qs + [JobsQueue([], id + 1)];
        ws := ws + [id + 1];
        id := id + 1;
      }
      queues := qs;
      counts := seq(size, _ => 0);
      workers := ws;
    }

    /** `ThreadPool::get_worker`: the first worker with the fewest queued jobs. */
    function GetWorker(): (w: nat)
      requires Valid()
      reads this
      ensures w < size && queues[w].id == w + 1
      ensures forall j :: 0 <= j < size ==> |queues[w].jobs| <= |queues[j].jobs|
      ensures forall j :: 0 <= j < w ==> |queues[w].jobs| < |queues[j].jobs|
    {
      FirstMinIndex(counts)
    }

    /**
     * `execute`: append the job at the back of the chosen worker's queue and
     * count it for that worker (index `id - 1`, the queue's own index).
     */
    method Execute(job: JobId)
      requires Valid()
      modifies this
      ensures Valid()
      ensures var w := old(GetWorker());
        queues == old(queues)[w := JobsQueue(old(queues)[w].jobs + [job], w + 1)]
      ensures counts == Submit(old(counts))
      ensures workers == old(workers)
      ensures Pending() == old(Pending()) + multiset{job}
    {
      var w := GetWorker();
      var q := queues[w];
      var q' := q.(jobs := q.jobs + [job]);
      AllJobsUpdate(queues, w, q');
      assert multiset(q'.jobs) == multiset(q.jobs) + multiset{job};
      MultisetCancel(AllJobs(queues[w := q']), AllJobs(queues) + multiset{job}, multiset(q.jobs));
      queues := queues[w := q'];
      var id := q.id;
      counts := counts[id - 1 := counts[id - 1] + 1];
    }

    /**
     * One pass of worker `w`'s loop: take the most recently queued job
     * (`pop_back`) and uncount it, or, on an empty queue, wait and change nothing.
     */
    method Step(w: nat) returns (job: Option<JobId>)
      requires Valid() && w < size
      modifies this
      ensures Valid()
      ensures workers == old(workers)
      ensures old(queues[w].jobs) == [] ==>
        job == None && queues == old(queues) && counts == old(counts)
      ensures old(queues[w].jobs) != [] ==>
        var jobs := old(queues[w].jobs);
        job == Some(jobs[|jobs| - 1]) &&
        queues == old(queues)[w := JobsQueue(jobs[..|jobs| - 1], w + 1)] &&
        counts == old(counts)[w := old(counts[w]) - 1]
      ensures job.Some? ==> Pending() + multiset{job.value} == old(Pending())
    {
      var q := queues[w];
      if q.jobs == [] {
        job := None;
      } else {
        var n := |q.jobs| - 1;
        job := Some(q.jobs[n]);
        var q' := q.(jobs := q.jobs[..n]);
        assert q.jobs == q'.jobs + [q.jobs[n]];
        assert multiset(q.jobs) == multiset(q'.jobs) + multiset{q.jobs[n]};
        AllJobsUpdate(queues, w, q');
        MultisetCancel(AllJobs(queues[w := q']) + multiset{q.jobs[n]}, AllJobs(queues), multiset(q'.jobs));
        queues := queues[w := q'];
        var id := q.id;
        counts := counts[id - 1 := counts[id - 1] - 1];
      }
    }
  }

  /** The job numbers below `i + 1` are those below `i`, then `i`. */
  lemma RangeSnoc(i: nat)
    ensures multiset(seq(i + 1, j => j)) == multiset(seq(i, j => j)) + multiset{i}
  {
    assert seq(i + 1, j => j) == seq(i, j => j) + [i];
  }

  /**
   * The pool's unit test: a pool of `size` workers is created and `jobs` jobs,
   * numbered from zero, are submitted with no worker taking any.
   */
  method SubmitJobs(size: nat, jobs: nat) returns (pool: Pool)
    requires size > 1
    ensures fresh(pool) && pool.Valid() && pool.size == size
    ensures pool.counts == SubmitMany(Zeros(size), jobs)
    ensures RoundRobinAfter(pool.counts, jobs / size, jobs % size)
    ensures pool.Pending() == multiset(seq(jobs, j => j))
  {
    pool := new Pool(size);
    assert pool.counts == Zeros(size);
    for i := 0 to jobs
      invariant pool.Valid() && pool.size == size
      invariant pool.counts == SubmitMany(Zeros(size), i)
      invariant pool.Pending() == multiset(seq(i, j => j))
    {
      RangeSnoc(i);
      pool.Execute(i);
    }
    RoundRobinDivMod(size, jobs);
  }
}
