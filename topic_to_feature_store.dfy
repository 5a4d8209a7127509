/**
 * The batching loop of the topic-to-feature-store service: every decoded
 * message is appended to an in-memory batch, and once the batch holds
 * `batch_size` messages it is pushed to the feature store as a whole and the
 * batch starts empty again. Polling Kafka and pushing to the feature store are
 * outside the model: the polls arrive as a sequence of results, and the feature
 * store is the list of batches it has received.
 */
module TopicToFeatureStore {

  /** What one `consumer.poll` returns: nothing, an error, or a message already decoded by `json.loads`. */
  datatype Poll<T> = NoMessage | ErrorMessage | Message(value: T)

  /** The decoded messages among `polls`, in arrival order. */
  function Messages<T>(polls: seq<Poll<T>>): (m: seq<T>)
    ensures |m| <= |polls|
  {
    if polls == [] then []
    else Messages(polls[..|polls| - 1]) + (if polls[|polls| - 1].Message? then [polls[|polls| - 1].value] else [])
  }

  /**
   * The size at which a batch is pushed: `batch_size`, but a batch that has
   * just received a message is never shorter than 1, so for `batch_size <= 1`
   * every message is pushed alone.
   */
  function Threshold(batchSize: int): (n: int)
    ensures n >= 1 && n >= batchSize
    ensures batchSize >= 1 ==> n == batchSize
  {
    if batchSize >= 1 then batchSize else 1
  }

  /** The batches of `pushes` one after the other. */
  function Concat<T>(pushes: seq<seq<T>>): seq<T> {
    if pushes == [] then [] else Concat(pushes[..|pushes| - 1]) + pushes[|pushes| - 1]
  }

  /** Every batch in `pushes` has exactly `n` messages. */
  predicate AllOfSize<T>(pushes: seq<seq<T>>, n: int) {
    forall i :: 0 <= i < |pushes| ==> |pushes[i]| == n
  }

  /**
   * One turn of the `while True` loop on the batch: the batches pushed during
   * the turn (none or one) and the batch afterwards. Nothing and errors are
   * skipped; a message is appended, and the batch is pushed and cleared once
   * its length is no longer below `batch_size`.
   */
  function Step<T>(batchSize: int, batch: seq<T>, poll: Poll<T>): (r: (seq<seq<T>>, seq<T>))
    ensures Concat(r.0) + r.1 == batch + Messages([poll])
    ensures !poll.Message? ==> r == ([], batch)
    ensures poll.Message? && |batch| + 1 < batchSize ==> r.0 == []
    ensures poll.Message? && |batch| + 1 >= batchSize ==> r.0 == [batch + [poll.value]] && r.1 == []
    ensures |batch| < Threshold(batchSize) ==> |r.1| < Threshold(batchSize) && AllOfSize(r.0, Threshold(batchSize))
  {
    assert [poll][..0] == [];
    if !poll.Message? then ([], batch)
    else
      var appended := batch + [poll.value];
      if |appended| < batchSize then ([], appended)
      else
        assert Concat([appended]) == Concat<T>([]) + appended;
        ([appended], [])
  }

  /** The batches pushed and the batch left over after the turns for `polls`, starting from `batch`. */
  function RunFrom<T>(batchSize: int, batch: seq<T>, polls: seq<Poll<T>>): (r: (seq<seq<T>>, seq<T>))
    ensures |r.0| <= |Messages(polls)|
  {
    if polls == [] then ([], batch)
    else
      MessagesAppend(polls[..|polls| - 1], polls[|polls| - 1]);
      assert polls[..|polls| - 1] + [polls[|polls| - 1]] == polls;
      var before := RunFrom(batchSize, batch, polls[..|polls| - 1]);
      var step := Step(batchSize, before.1, polls[|polls| - 1]);
      (before.0 + step.0, step.1)
  }

  // ---------------------------------------------------------------------------
  // The accumulator

  /**
   * The loop's state: the current `batch`, and as a ghost log standing for the
   * feature store, the batches it has received in push order.
   */
  class BatchAccumulator<T> {
    const batchSize: int
    var batch: seq<T>
    ghost var pushed: seq<seq<T>>

    /** The state before the first poll: `batch = []`, nothing pushed yet. */
    constructor (batchSize: int)
      ensures this.batchSize == batchSize && batch == [] && pushed == []
    {
      this.batchSize := batchSize;
      batch := [];
      pushed := [];
    }

    /** One turn of the loop: handles the result of one poll. */
    method Handle(poll: Poll<T>)
      modifies this
      ensures pushed == old(pushed) + Step(batchSize, old(batch), poll).0
      ensures batch == Step(batchSize, old(batch), poll).1
    {
      if poll.NoMessage? || poll.ErrorMessage? {
        return;
      }
      batch := batch + [poll.value];
      if |batch| < batchSize {
        return;
      }
      pushed := pushed + [batch];
      batch := [];
    }

    /** The loop run over the results of a finite sequence of polls. */
    method Consume(polls: seq<Poll<T>>)
      modifies this
      ensures pushed == old(pushed) + RunFrom(batchSize, old(batch), polls).0
      ensures batch == RunFrom(batchSize, old(batch), polls).1
    {
      var i := 0;
      while i < |polls|
        invariant 0 <= i <= |polls|
        invariant pushed == old(pushed) + RunFrom(batchSize, old(batch), polls[..i]).0
        invariant batch == RunFrom(batchSize, old(batch), polls[..i]).1
      {
        assert polls[..i + 1][..i] == polls[..i];
        Handle(polls[i]);
        i := i + 1;
      }
      assert polls[..i] == polls;
    }
  }

  // ---------------------------------------------------------------------------
  // Properties of the loop

  lemma {:induction false} ConcatAppend<T>(a: seq<seq<T>>, b: seq<seq<T>>)
    ensures Concat(a + b) == Concat(a) + Concat(b)
    decreases |b|
  {
    if b == [] {
      assert a + b == a;
    } else {
      assert (a + b)[..|a + b| - 1] == a + b[..|b| - 1];
      ConcatAppend(a, b[..|b| - 1]);
    }
  }

  lemma MessagesAppend<T>(polls: seq<Poll<T>>, p: Poll<T>)
    ensures Messages(polls + [p]) == Messages(polls) + Messages([p])
  {
    assert (polls + [p])[..|polls|] == polls;
    assert [p][..0] == [];
  }

  /**
   * Nothing is dropped or duplicated: the pushed batches in push order,
   * followed by the batch left over, are the starting batch followed by the
   * decoded messages in arrival order.
   */
  lemma {:induction false} RunConserves<T>(batchSize: int, batch: seq<T>, polls: seq<Poll<T>>)
    ensures Concat(RunFrom(batchSize, batch, polls).0) + RunFrom(batchSize, batch, polls).1
         == batch + Messages(polls)
  {
    if polls != [] {
      var init, last := polls[..|polls| - 1], polls[|polls| - 1];
      var before := RunFrom(batchSize, batch, init);
      var step := Step(batchSize, before.1, last);
      RunConserves(batchSize, batch, init);
      ConcatAppend(before.0, step.0);
      assert init + [last] == polls;
      MessagesAppend(init, last);
      Regroup(Concat(before.0), before.1, Concat(step.0), step.1, batch, Messages(init), Messages([last]));
    }
  }

  lemma Regroup<T>(done: seq<T>, mid: seq<T>, now: seq<T>, left: seq<T>, start: seq<T>, a: seq<T>, b: seq<T>)
    requires done + mid == start + a && now + left == mid + b
    ensures (done + now) + left == start + (a + b)
  {
    calc {
      (done + now) + left;
      done + (now + left);
      (done + mid) + b;
    }
  }

  /**
   * Starting below the threshold, every pushed batch holds exactly the
   * threshold's number of messages and the batch left over stays below it.
   */
  lemma {:induction false} RunBounded<T>(batchSize: int, batch: seq<T>, polls: seq<Poll<T>>)
    requires |batch| < Threshold(batchSize)
    ensures AllOfSize(RunFrom(batchSize, batch, polls).0, Threshold(batchSize))
    ensures |RunFrom(batchSize, batch, polls).1| < Threshold(batchSize)
  {
    if polls != [] {
      RunBounded(batchSize, batch, polls[..|polls| - 1]);
    }
  }

  /** Batches of equal size `n` laid end to end: the `i`-th occupies positions `i * n` up to `(i + 1) * n`. */
  lemma {:induction false} ConcatOfSize<T>(pushes: seq<seq<T>>, n: nat, i: int)
    requires AllOfSize(pushes, n) && 0 <= i < |pushes|
    ensures 0 <= i * n && i * n + n <= |Concat(pushes)| && Concat(pushes)[i * n..i * n + n] == pushes[i]
  {
    var init := pushes[..|pushes| - 1];
    var front := Concat(init);
    ConcatLength(init, n);
    MulStep(|init|, n);
    assert Concat(pushes) == front + pushes[|pushes| - 1];
    if i < |init| {
      ConcatOfSize(init, n, i);
      var lo := i * n;
      assert lo + n <= |front|;
      assert Concat(pushes)[lo..lo + n] == front[lo..lo + n];
    } else {
      assert i * n == |front|;
    }
  }

  lemma MulStep(m: int, n: int)
    ensures (m + 1) * n == m * n + n
  {
  }

  lemma {:induction false} ConcatLength<T>(pushes: seq<seq<T>>, n: nat)
    requires AllOfSize(pushes, n)
    ensures |Concat(pushes)| == |pushes| * n
  {
    if pushes != [] {
      ConcatLength(pushes[..|pushes| - 1], n);
      MulStep(|pushes| - 1, n);
    }
  }

  /**
   * From an empty batch, the decoded messages are the pushed batches, each of
   * the threshold's size, followed by the remainder, which is shorter than one
   * batch and never pushed.
   */
  lemma RunRemainder<T>(batchSize: int, polls: seq<Poll<T>>)
    ensures var r, n := RunFrom(batchSize, [], polls), Threshold(batchSize);
      && |Messages(polls)| == |r.0| * n + |r.1| && |r.1| < n
      && r.1 == Messages(polls)[|r.0| * n..]
  {
    var r, n := RunFrom(batchSize, [], polls), Threshold(batchSize);
    var m := Messages(polls);
    RunConserves(batchSize, [], polls);
    RunBounded(batchSize, [], polls);
    ConcatLength(r.0, n);
    var front := Concat(r.0);
    assert m == front + r.1;
    assert r.1 == m[|front|..];
  }

  /**
   * From an empty batch, the `i`-th pushed batch is the `i`-th consecutive
   * chunk of the threshold's size of the decoded messages.
   */
  lemma RunChunk<T>(batchSize: int, polls: seq<Poll<T>>, i: int)
    requires 0 <= i < |RunFrom(batchSize, [], polls).0|
    ensures var r, n := RunFrom(batchSize, [], polls), Threshold(batchSize);
      i * n + n <= |Messages(polls)| && r.0[i] == Messages(polls)[i * n..i * n + n]
  {
    var r := RunFrom(batchSize, [], polls);
    RunConserves(batchSize, [], polls);
    RunBounded(batchSize, [], polls);
    assert [] + Messages(polls) == Messages(polls);
    ChunkOf(Messages(polls), r.0, r.1, Threshold(batchSize), i);
  }

  lemma ChunkOf<T>(m: seq<T>, pushes: seq<seq<T>>, rest: seq<T>, n: nat, i: int)
    requires m == Concat(pushes) + rest
    requires AllOfSize(pushes, n) && 0 <= i < |pushes|
    ensures i * n + n <= |m| && pushes[i] == m[i * n..i * n + n]
  {
    ConcatOfSize(pushes, n, i);
    SliceOfFront(Concat(pushes), rest, i * n, i * n + n);
  }

  lemma SliceOfFront<T>(front: seq<T>, rest: seq<T>, lo: int, hi: int)
    requires 0 <= lo <= hi <= |front|
    ensures (front + rest)[lo..hi] == front[lo..hi]
  {
  }

  /** With `batch_size <= 1` every message is pushed alone, in its own batch, and nothing is left over. */
  lemma SingletonBatches<T>(batchSize: int, polls: seq<Poll<T>>)
    requires batchSize <= 1
    ensures RunFrom(batchSize, [], polls).1 == []
    ensures |RunFrom(batchSize, [], polls).0| == |Messages(polls)|
    ensures forall i :: 0 <= i < |RunFrom(batchSize, [], polls).0| ==>
      RunFrom(batchSize, [], polls).0[i] == [Messages(polls)[i]]
  {
    var r := RunFrom(batchSize, [], polls);
    RunRemainder(batchSize, polls);
    forall i | 0 <= i < |r.0|
      ensures r.0[i] == [Messages(polls)[i]]
    {
      RunChunk(batchSize, polls, i);
      assert r.0[i] == Messages(polls)[i * 1..i * 1 + 1];
    }
  }
}
