/**
 * The bounded task queue of the thread pool, seen by one thread at a time:
 * the lock around the queue is abstracted away, the semaphore
 * `queue_state_` is its count, and a request pointer that may be null is
 * an `Option`.
 */
module ThreadPool {
  import opened Wrappers

  /** The queue and the result after one AppendTask. */
  datatype Appended<T> = Appended(queue: seq<Option<T>>, ok: bool)

  /** AppendTask on queue `q` with room for `max` requests: a full queue refuses, any other takes `x` at the back. */
  function Push<T>(q: seq<Option<T>>, max: int, x: Option<T>): Appended<T> {
    if |q| >= max then Appended(q, false) else Appended(q + [x], true)
  }

  /** The queue after AppendTask was called with each of `xs` in turn. */
  function PushAll<T>(q: seq<Option<T>>, max: int, xs: seq<Option<T>>): seq<Option<T>>
    decreases |xs|
  {
    if xs == [] then q else PushAll(Push(q, max, xs[0]).queue, max, xs[1..])
  }

  /** The requests that are not null, in order. */
  function NonNull<T>(q: seq<Option<T>>): seq<T> {
    if q == [] then [] else (if q[0].Some? then [q[0].value] else []) + NonNull(q[1..])
  }

  /**
   * The requests the first `n` passes of Run's loop hand to `Process`:
   * each pass takes the front of the queue, skips a null one, and an
   * empty queue gives nothing.
   */
  function Served<T>(q: seq<Option<T>>, n: nat): seq<T>
    decreases n
  {
    if n == 0 || q == [] then [] else (if q[0].Some? then [q[0].value] else []) + Served(q[1..], n - 1)
  }

  /** A queue within its bound stays within it, whatever is appended. */
  lemma {:induction false} PushAllBounded<T>(q: seq<Option<T>>, max: int, xs: seq<Option<T>>)
    requires |q| <= max
    ensures |PushAll(q, max, xs)| <= max
    decreases |xs|
  {
    if xs != [] {
      PushAllBounded(Push(q, max, xs[0]).queue, max, xs[1..]);
    }
  }

  /** Appends never reorder or drop what is queued: the old queue is a prefix of the new one. */
  lemma {:induction false} PushAllKeeps<T>(q: seq<Option<T>>, max: int, xs: seq<Option<T>>)
    ensures q <= PushAll(q, max, xs)
    decreases |xs|
  {
    if xs != [] {
      var q1 := Push(q, max, xs[0]).queue;
      PushAllKeeps(q1, max, xs[1..]);
      assert q <= q1;
    }
  }

  /** Every append to a queue with room for all of them succeeds, in order. */
  lemma {:induction false} PushAllFits<T>(q: seq<Option<T>>, max: int, xs: seq<Option<T>>)
    requires |q| + |xs| <= max
    ensures PushAll(q, max, xs) == q + xs
    decreases |xs|
  {
    if xs != [] {
      PushAllFits(q + [xs[0]], max, xs[1..]);
      assert q + [xs[0]] + xs[1..] == q + xs;
    }
  }

  /** A full queue drops every request appended to it. */
  lemma {:induction false} PushAllFull<T>(q: seq<Option<T>>, max: int, xs: seq<Option<T>>)
    requires |q| >= max
    ensures PushAll(q, max, xs) == q
    decreases |xs|
  {
    if xs != [] {
      PushAllFull(q, max, xs[1..]);
    }
  }

  /** Null requests aside, a queue is handed out in the order it holds. */
  lemma {:induction false} ServedAll<T>(q: seq<Option<T>>)
    ensures Served(q, |q|) == NonNull(q)
    decreases |q|
  {
    if q != [] {
      ServedAll(q[1..]);
    }
  }

  /** Taking the non-null requests of two queues one after the other. */
  lemma {:induction false} NonNullAppend<T>(a: seq<Option<T>>, b: seq<Option<T>>)
    ensures NonNull(a + b) == NonNull(a) + NonNull(b)
    decreases |a|
  {
    if a != [] {
      assert (a + b)[0] == a[0] && (a + b)[1..] == a[1..] + b;
      NonNullAppend(a[1..], b);
      var h: seq<T> := if a[0].Some? then [a[0].value] else [];
      assert NonNull(a + b) == h + NonNull(a[1..] + b);
      assert NonNull(a) == h + NonNull(a[1..]);
      assert h + (NonNull(a[1..]) + NonNull(b)) == h + NonNull(a[1..]) + NonNull(b);
    } else {
      assert a + b == b;
    }
  }

  /**
   * First in, first out: requests appended to a queue with room for
   * them all reach `Process`, after those already queued, in the order
   * they were appended, the null ones skipped.
   */
  lemma FifoOrder<T>(q: seq<Option<T>>, max: int, xs: seq<Option<T>>)
    requires |q| + |xs| <= max
    ensures Served(PushAll(q, max, xs), |q| + |xs|) == NonNull(q) + NonNull(xs)
  {
    PushAllFits(q, max, xs);
    ServedAll(q + xs);
    NonNullAppend(q, xs);
  }

  /**
   * The constructor's argument check: with no thread or no room for a
   * request it throws, which is `None` here; otherwise the pool starts
   * with an empty queue.
   */
  method NewPool<T>(threadNum: int, maxRequests: int) returns (r: Option<Threadpool<T>>)
    ensures r.None? <==> threadNum <= 0 || maxRequests <= 0
    ensures r.Some? ==>
      && fresh(r.value) && r.value.Valid() && r.value.workQueue == []
      && r.value.threadNum == threadNum && r.value.maxRequests == maxRequests
  {
    if threadNum <= 0 || maxRequests <= 0 {
      return None;
    }
    var pool := new Threadpool<T>(threadNum, maxRequests);
    return Some(pool);
  }

  class Threadpool<T> {
    const threadNum: int
    const maxRequests: int
    var workQueue: seq<Option<T>>
    /** The count of `queue_state_`. */
    var sem: nat

    /** The queue within its bound, with one semaphore post for every request in it. */
    predicate Valid()
      reads this
    {
      0 < threadNum && 0 < maxRequests && |workQueue| <= maxRequests && sem == |workQueue|
    }

    constructor (threadNum: int, maxRequests: int)
      requires 0 < threadNum && 0 < maxRequests
      ensures Valid() && workQueue == [] && this.threadNum == threadNum && this.maxRequests == maxRequests
    {
      this.threadNum := threadNum;
      this.maxRequests := maxRequests;
      workQueue := [];
      sem := 0;
    }

    /**
     * AppendTask: a queue holding `max_requests_` requests or more is left
     * alone and the result is false, with no post; otherwise the request
     * goes to the back, the semaphore is posted once and the result is
     * true.
     */
    method AppendTask(request: Option<T>) returns (ok: bool)
      modifies this`workQueue, this`sem
      ensures Appended(workQueue, ok) == Push(old(workQueue), maxRequests, request)
      ensures ok <==> |old(workQueue)| < maxRequests
      ensures sem == if ok then old(sem) + 1 else old(sem)
      ensures old(Valid()) ==> Valid()
    {
      if |workQueue| >= maxRequests {
        return false;
      }
      workQueue := workQueue + [request];
      sem := sem + 1;
      return true;
    }

    /**
     * One pass of Run's loop once `queue_state_.Wait()` has returned: the
     * count drops by one; an empty queue gives nothing; otherwise the
     * front request is removed and returned, to have `Process` called on
     * it unless it is null.
     */
    method RunStep() returns (request: Option<T>)
      requires sem > 0
      modifies this`workQueue, this`sem
      ensures sem == old(sem) - 1
      ensures old(workQueue) == [] ==> workQueue == [] && request == None
      ensures old(workQueue) != [] ==> workQueue == old(workQueue)[1..] && request == old(workQueue)[0]
      ensures old(Valid()) ==> Valid()
    {
      sem := sem - 1;
      if workQueue == [] {
        return None;
      }
      request := workQueue[0];
      workQueue := workQueue[1..];
    }

    /**
     * The first `n` passes of Run's loop, each after a `Wait()` that
     * returned: the requests handed to `Process`, in order.
     */
    method Run(n: nat) returns (served: seq<T>)
      requires Valid() && n <= sem
      modifies this`workQueue, this`sem
      ensures Valid() && served == Served(old(workQueue), n) && workQueue == old(workQueue)[n..]
    {
      served := [];
      var i := 0;
      while i < n
        invariant i <= n && Valid() && sem == old(sem) - i
        invariant workQueue == old(workQueue)[i..]
        invariant served + Served(workQueue, n - i) == Served(old(workQueue), n)
      {
        var head := workQueue[0];
        var request := RunStep();
        if request.Some? {
          served := served + [request.value];
        }
        assert served + Served(workQueue, n - i - 1) == Served(old(workQueue), n) by {
          assert Served(old(workQueue)[i..], n - i) == (if head.Some? then [head.value] else []) + Served(workQueue, n - i - 1);
        }
        i := i + 1;
      }
    }
  }
}
