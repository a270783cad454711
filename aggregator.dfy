/** The gather half of the client (client.go): each dispatch task ends with
    one reply or none, and `main` folds the replies it receives, in whatever
    order they arrive, into the running totals. */
module Aggregator {
  import opened GoInt
  import opened Protocol
  import opened Worker
  import opened Planner

  /** The step at which a dispatch task gave up. */
  datatype TaskError = ConnectError | EncodeError | WriteError | ReceiveError

  /** How one dispatch task ended: it pushed a reply onto the results
      channel, or it logged an error and pushed nothing. */
  datatype TaskOutcome = Delivered(reply: Reply) | Failed(error: TaskError)

  /** `sendTaskToServer`: dial, encode, write, then decode one reply. The
      network and the codec are parameters: whether each step succeeded, and
      the reply that decoded, if any. */
  function SendTask(dialed: bool, encoded: bool, written: bool, received: Option<Reply>): (r: TaskOutcome)
    ensures r.Delivered? <==> dialed && encoded && written && received.Some?
    ensures r.Delivered? ==> r.reply == received.value
    ensures r.Failed? ==> r.error == (if !dialed then ConnectError
                                     else if !encoded then EncodeError
                                     else if !written then WriteError
                                     else ReceiveError)
  {
    if !dialed then Failed(ConnectError)
    else if !encoded then Failed(EncodeError)
    else if !written then Failed(WriteError)
    else match received
      case None => Failed(ReceiveError)
      case Some(reply) => Delivered(reply)
  }

  /** How many dispatch tasks delivered a reply. */
  function DeliveredCount(outcomes: seq<TaskOutcome>): (c: nat)
    ensures c <= |outcomes|
    ensures c == |outcomes| <==> forall p :: 0 <= p < |outcomes| ==> outcomes[p].Delivered?
  {
    if outcomes == [] then 0
    else
      var init := outcomes[..|outcomes| - 1];
      assert forall p :: 0 <= p < |init| ==> init[p] == outcomes[p];
      DeliveredCount(init) + if outcomes[|outcomes| - 1].Delivered? then 1 else 0
  }

  /** The replies the tasks pushed onto the results channel, in task order:
      exactly the delivered replies, one per delivering task. The client may
      receive them in any order. */
  function Collected(outcomes: seq<TaskOutcome>): (r: seq<Reply>)
    ensures |r| == DeliveredCount(outcomes)
    ensures forall x :: x in r <==> exists p :: 0 <= p < |outcomes| && outcomes[p] == Delivered(x)
  {
    if outcomes == [] then []
    else
      var init := outcomes[..|outcomes| - 1];
      var last := outcomes[|outcomes| - 1];
      var prev := Collected(init);
      assert forall p :: 0 <= p < |init| ==> init[p] == outcomes[p];
      assert forall x :: (exists p :: 0 <= p < |outcomes| && outcomes[p] == Delivered(x))
                         <==> (exists p :: 0 <= p < |init| && init[p] == Delivered(x)) || last == Delivered(x) by {
        forall x | exists p :: 0 <= p < |outcomes| && outcomes[p] == Delivered(x)
          ensures (exists p :: 0 <= p < |init| && init[p] == Delivered(x)) || last == Delivered(x)
        {
          var p :| 0 <= p < |outcomes| && outcomes[p] == Delivered(x);
          if p < |init| {
            assert init[p] == Delivered(x);
          }
        }
      }
      match last
      case Delivered(reply) => prev + [reply]
      case Failed(_) => prev
  }

  /** If exactly one task, `lost`, failed, one reply is missing. */
  lemma {:induction false} DeliveredCountOneLost(outcomes: seq<TaskOutcome>, lost: nat)
    requires lost < |outcomes| && outcomes[lost].Failed?
    requires forall p :: 0 <= p < |outcomes| && p != lost ==> outcomes[p].Delivered?
    ensures DeliveredCount(outcomes) == |outcomes| - 1
    decreases |outcomes|
  {
    var init := outcomes[..|outcomes| - 1];
    assert forall p :: 0 <= p < |init| ==> init[p] == outcomes[p];
    if lost < |init| {
      DeliveredCountOneLost(init, lost);
    }
  }

  /** The exact sum of the term counts of `replies`. */
  function SumTerms(replies: seq<Reply>): int
  {
    if replies == [] then 0
    else SumTerms(replies[..|replies| - 1]) + replies[|replies| - 1].NumberOfTerms
  }

  lemma {:induction false} SumTermsAppend(a: seq<Reply>, b: seq<Reply>)
    ensures SumTerms(a + b) == SumTerms(a) + SumTerms(b)
    decreases |b|
  {
    if b == [] {
      assert a + b == a;
    } else {
      var b' := b[..|b| - 1];
      assert (a + b)[..|a + b| - 1] == a + b';
      SumTermsAppend(a, b');
    }
  }

  /** The term total does not depend on the order in which replies arrive. */
  lemma {:induction false} SumTermsPermutation(a: seq<Reply>, b: seq<Reply>)
    requires multiset(a) == multiset(b)
    ensures SumTerms(a) == SumTerms(b)
    decreases |a|
  {
    if a == [] {
      assert |b| == |multiset(b)| == 0;
    } else {
      var a' := a[..|a| - 1];
      var x := a[|a| - 1];
      assert a == a' + [x];
      assert x in multiset(b);
      var k :| 0 <= k < |b| && b[k] == x;
      var left, right := b[..k], b[k + 1..];
      MultisetRemoveLast(a, b, k);
      SumTermsPermutation(a', left + right);
      assert b == left + [x] + right;
      SumTermsRemove(left, x, right);
    }
  }

  /** Two permutations of each other stay so once the last element of `a`
      and an equal element of `b` are removed. */
  lemma MultisetRemoveLast(a: seq<Reply>, b: seq<Reply>, k: nat)
    requires multiset(a) == multiset(b) && a != [] && k < |b| && b[k] == a[|a| - 1]
    ensures multiset(a[..|a| - 1]) == multiset(b[..k] + b[k + 1..])
  {
    var x := b[k];
    var init, left, right := a[..|a| - 1], b[..k], b[k + 1..];
    assert a == init + [x];
    assert multiset(a) == multiset(init) + multiset{x};
    assert b == left + [x] + right;
    assert multiset(b) == multiset(left) + multiset{x} + multiset(right);
    assert multiset(left + right) == multiset(left) + multiset(right);
    assert multiset(init) == multiset(a) - multiset{x};
  }

  /** Taking one reply out of a batch lowers its term total by that reply's
      count. */
  lemma SumTermsRemove(left: seq<Reply>, x: Reply, right: seq<Reply>)
    ensures SumTerms(left + [x] + right) == SumTerms(left + right) + x.NumberOfTerms
  {
    SumTermsAppend(left + [x], right);
    SumTermsAppend(left, [x]);
    SumTermsAppend(left, right);
    assert [x][..0] == [];
    assert SumTerms([x]) == x.NumberOfTerms;
  }

  /** The receive loop of `main`: add up `NumberOfTerms` in a Go `int` and
      hand each `PartitionSum` to the float accumulator, in arrival order. */
  method Aggregate(replies: seq<Reply>) returns (totalTerms: Int, addends: seq<Float64>)
    ensures totalTerms == Wrap(SumTerms(replies))
    ensures |addends| == |replies|
    ensures forall k :: 0 <= k < |replies| ==> addends[k] == replies[k].PartitionSum
  {
    totalTerms, addends := 0, [];
    for i := 0 to |replies|
      invariant totalTerms == Wrap(SumTerms(replies[..i]))
      invariant |addends| == i
      invariant forall k :: 0 <= k < i ==> addends[k] == replies[k].PartitionSum
    {
      assert replies[..i + 1][..i] == replies[..i];
      WrapAdd(SumTerms(replies[..i]), replies[i].NumberOfTerms);
      totalTerms := Wrap(totalTerms + replies[i].NumberOfTerms);
      addends := addends + [replies[i].PartitionSum];
    }
    assert replies[..|replies|] == replies;
  }

  /** Every delivered reply answers the request the planner built for that
      task's partition. */
  ghost predicate AnswersPlan(outcomes: seq<TaskOutcome>, n: Int, t: Int)
  {
    && |outcomes| <= Workers
    && forall p :: 0 <= p < |outcomes| && outcomes[p].Delivered? ==>
         Answers(outcomes[p].reply, PartitionRequest(p, n, t))
  }

  /** Each delivered reply contributes one partition's worth of terms. */
  lemma {:induction false} CollectedTerms(outcomes: seq<TaskOutcome>, n: Int, t: Int)
    requires AnswersPlan(outcomes, n, t)
    ensures SumTerms(Collected(outcomes)) == DeliveredCount(outcomes) * PartitionSize(n)
    decreases |outcomes|
  {
    if outcomes != [] {
      var init := outcomes[..|outcomes| - 1];
      var last := outcomes[|outcomes| - 1];
      assert outcomes == init + [last];
      assert AnswersPlan(init, n, t) by {
        assert forall q :: 0 <= q < |init| ==> init[q] == outcomes[q];
      }
      CollectedTerms(init, n, t);
      if last.Delivered? {
        assert Answers(last.reply, PartitionRequest(|init|, n, t));
        CollectedTermsStep(outcomes, init, last.reply, n, t);
      } else {
        assert Collected(outcomes) == Collected(init);
        assert DeliveredCount(outcomes) == DeliveredCount(init);
      }
    }
  }

  /** The step of `CollectedTerms` for a last task that delivered. */
  lemma CollectedTermsStep(outcomes: seq<TaskOutcome>, init: seq<TaskOutcome>, reply: Reply, n: Int, t: Int)
    requires outcomes == init + [Delivered(reply)]
    requires |init| < Workers && Answers(reply, PartitionRequest(|init|, n, t))
    requires SumTerms(Collected(init)) == DeliveredCount(init) * PartitionSize(n)
    ensures SumTerms(Collected(outcomes)) == DeliveredCount(outcomes) * PartitionSize(n)
  {
    assert outcomes[..|outcomes| - 1] == init;
    var c := Collected(init);
    var m := DeliveredCount(init);
    var size := PartitionSize(n);
    assert Collected(outcomes) == c + [reply];
    assert DeliveredCount(outcomes) == m + 1;
    assert (c + [reply])[..|c|] == c;
    assert SumTerms(c + [reply]) == SumTerms(c) + reply.NumberOfTerms;
    var req := PartitionRequest(|init|, n, t);
    assert reply.NumberOfTerms == Wrap(req.Range2 - req.Range1 + 1) == size;
    MulSucc(m, size);
  }

  /** Aggregation over one whole run, whatever the arrival order: the term
      total is one partition size per reply received, so every lost
      partition silently takes one partition size off it, and, for a
      non-zero `n`, it equals `n` exactly when every worker replied. The
      client does not reject a negative `n`; the statement covers it too. */
  lemma TotalTermsOfRun(outcomes: seq<TaskOutcome>, arrivals: seq<Reply>, n: Int, t: Int)
    requires GoRem(n, Workers) == 0
    requires |outcomes| == Workers && AnswersPlan(outcomes, n, t)
    requires multiset(arrivals) == multiset(Collected(outcomes))
    ensures Wrap(SumTerms(arrivals)) == DeliveredCount(outcomes) * PartitionSize(n)
    ensures Wrap(SumTerms(arrivals)) == n - (Workers - DeliveredCount(outcomes)) * PartitionSize(n)
    ensures n != 0 ==> (Wrap(SumTerms(arrivals)) == n
                       <==> forall p :: 0 <= p < Workers ==> outcomes[p].Delivered?)
  {
    var size := PartitionSize(n);
    var m := DeliveredCount(outcomes);
    CollectedTerms(outcomes, n, t);
    SumTermsPermutation(arrivals, Collected(outcomes));
    PartialTotal(m, size, n);
  }

  /** The arithmetic of `TotalTermsOfRun`, one case per number of replies. */
  lemma PartialTotal(m: nat, size: int, n: int)
    requires m <= 5 && n == 5 * size
    ensures size >= 0 ==> 0 <= m * size <= n
    ensures size < 0 ==> n <= m * size <= 0
    ensures m * size == n - (5 - m) * size
    ensures n != 0 ==> (m * size == n <==> m == 5)
  {
    if m == 0 {
    } else if m == 1 {
    } else if m == 2 {
    } else if m == 3 {
    } else if m == 4 {
    }
  }

  /** Lossy degradation: when exactly one worker's task fails, the run
      reports `n - n / 5` terms, with no sign that a partition is missing. */
  lemma OnePartitionLost(outcomes: seq<TaskOutcome>, arrivals: seq<Reply>, n: Int, t: Int, lost: nat)
    requires GoRem(n, Workers) == 0
    requires |outcomes| == Workers && AnswersPlan(outcomes, n, t)
    requires multiset(arrivals) == multiset(Collected(outcomes))
    requires lost < Workers && outcomes[lost].Failed?
    requires forall p :: 0 <= p < Workers && p != lost ==> outcomes[p].Delivered?
    ensures Wrap(SumTerms(arrivals)) == n - PartitionSize(n)
  {
    DeliveredCountOneLost(outcomes, lost);
    TotalTermsOfRun(outcomes, arrivals, n, t);
  }
}
