/** The worker process (server.go): one datagram at a time it decodes a
    request, visits the integers of the requested range, and sends a reply
    back to the datagram's sender. Datagrams that cannot be read or decoded
    are dropped without a reply. */
module Worker {
  import opened GoInt
  import opened Protocol

  /** Source address of a datagram, as `ReadFromUDP` reports it. */
  datatype UdpAddr = UdpAddr(ip: seq<bv8>, port: int)

  /** What one `ReadFromUDP` call yields: a read error, or a datagram from
      `source` whose payload decoded to a request (`Some`) or did not
      (`None`). */
  datatype Arrival = ReadFailed | Datagram(source: UdpAddr, request: Option<Request>)

  /** A reply the worker hands to the encoder for `WriteToUDP`. */
  datatype Outgoing = Outgoing(destination: UdpAddr, reply: Reply)

  /** The float64 accumulation `sum += float64(i) * float64(i)` over the
      visited integers, in order; floating point is not modelled, so this is
      a parameter of the worker. */
  type SquareSum = seq<int> -> Float64

  /** `reply` is the worker's answer to `req`: tagged as a reply, with the
      correlation fields copied, the term count `Range2 - Range1 + 1` in Go
      `int` arithmetic, and the include flag. */
  predicate Answers(reply: Reply, req: Request)
  {
    && reply.RequestReply == ReplyTag
    && reply.FunctionNum == req.FunctionNum
    && reply.Partition == req.Partition
    && reply.N == req.N
    && reply.T == req.T
    && reply.NumberOfTerms == Wrap(req.Range2 - req.Range1 + 1)
    && reply.IncludeExclude == Include
  }

  /** The reply built for a decoded request, given its partial sum. Its term
      count is the size of the range whenever that size fits in an `int`. */
  function MakeReply(req: Request, sum: Float64): (r: Reply)
    ensures Answers(r, req) && r.PartitionSum == sum
    ensures 0 <= req.Range2 - req.Range1 + 1 <= MaxInt ==>
              r.NumberOfTerms == |Interval(req.Range1, req.Range2)|
  {
    WrapAdd(req.Range2 - req.Range1, 1);
    Reply(
      RequestReply := ReplyTag,
      FunctionNum := req.FunctionNum,
      Partition := req.Partition,
      NumberOfTerms := Wrap(Wrap(req.Range2 - req.Range1) + 1),
      N := req.N,
      T := req.T,
      PartitionSum := sum,
      IncludeExclude := Include)
  }

  /** The term count a reply reports agrees with the number of integers the
      summation loop visits exactly when the range is not reversed by more
      than one and its size does not overflow `int`. */
  lemma {:induction false} TermCountMatchesLoop(req: Request, sum: Float64)
    ensures MakeReply(req, sum).NumberOfTerms == |Interval(req.Range1, req.Range2)|
            <==> req.Range1 <= req.Range2 + 1 && req.Range2 - req.Range1 + 1 <= MaxInt
  {
    WrapNear(req.Range2 - req.Range1 + 1);
  }

  /** The summation loop of `computePartitionSum`, with an unbounded counter:
      the integers whose squares are added, in the order they are added. */
  method PartitionTerms(range1: Int, range2: Int) returns (visited: seq<int>)
    ensures visited == Interval(range1, range2)
    ensures |visited| == if range1 <= range2 then range2 - range1 + 1 else 0
  {
    visited := [];
    var i: int := range1;
    while i <= range2
      invariant range1 <= i && (i <= range2 + 1 || i == range1)
      invariant visited == Interval(range1, i - 1)
      decreases range2 - i
    {
      IntervalSplit(range1, i - 1, i);
      visited := visited + [i];
      i := i + 1;
    }
  }

  /** The Go loop counter of `computePartitionSum` after `k` executions of
      `i++` from `start`, in 64-bit arithmetic: exact while it stays in
      range, and the step past `MaxInt` lands on `MinInt`. */
  function LoopCounter(start: Int, k: nat): (r: Int)
    ensures start + k <= MaxInt ==> r == start + k
    ensures start + k == MaxInt + 1 ==> r == MinInt
  {
    if k == 0 then start
    else
      var prev := LoopCounter(start, k - 1);
      WrapNear(prev + 1);
      Wrap(prev + 1)
  }

  /** The Go counter after `k` steps is the exact value wrapped to 64 bits. */
  lemma {:induction false} LoopCounterWraps(start: Int, k: nat)
    ensures LoopCounter(start, k) == Wrap(start + k)
  {
    if k > 0 {
      var before := start + (k - 1);
      var prev: int := LoopCounter(start, k - 1);
      assert LoopCounter(start, k) == Wrap(prev + 1);
      LoopCounterWraps(start, k - 1);
      assert prev == Wrap(before);
      WrapAdd(before, 1);
      assert before + 1 == start + k;
    }
  }

  /** Below the largest `int` the Go loop and `PartitionTerms` agree: the Go
      counter passes the guard exactly for the integers of
      `Interval(range1, range2)`, in order, and then fails it, so the loop
      exits after that many iterations. */
  lemma GoLoopVisitsInterval(range1: Int, range2: Int)
    requires range2 < MaxInt
    ensures forall k: nat :: k < |Interval(range1, range2)| ==>
              LoopCounter(range1, k) == Interval(range1, range2)[k] <= range2
    ensures LoopCounter(range1, |Interval(range1, range2)|) > range2
  {
    var count := |Interval(range1, range2)|;
    forall k: nat | k < count
      ensures LoopCounter(range1, k) == Interval(range1, range2)[k] <= range2
    {
      LoopCounterWraps(range1, k);
    }
    LoopCounterWraps(range1, count);
  }

  /** With `Range2 == MaxInt` the Go loop never exits: once it has visited
      `MaxInt` the counter wraps to `MinInt`, which still passes the guard
      `i <= range2`, and after 2^64 steps it is back at `range1`. */
  lemma ComputeLoopNeverExitsAtMaxInt(range1: Int)
    ensures LoopCounter(range1, MaxInt - range1 + 1) == MinInt
    ensures LoopCounter(range1, Modulus) == range1
  {
    LoopCounterWraps(range1, MaxInt - range1 + 1);
    WrapNear(MaxInt + 1);
    LoopCounterWraps(range1, Modulus);
    WrapNear(range1 + Modulus);
  }

  /** The worker's reaction to one arrival: a reply to the sender exactly
      when the datagram was read and decoded. */
  function Handle(a: Arrival, sumOfSquares: SquareSum): (r: Option<Outgoing>)
    ensures r.Some? <==> a.Datagram? && a.request.Some?
    ensures r.Some? ==> r.value.destination == a.source
    ensures r.Some? ==> Answers(r.value.reply, a.request.value)
    ensures r.Some? ==> r.value.reply.PartitionSum
                        == sumOfSquares(Interval(a.request.value.Range1, a.request.value.Range2))
  {
    match a
    case ReadFailed => None
    case Datagram(source, None) => None
    case Datagram(source, Some(req)) =>
      Some(Outgoing(source, MakeReply(req, sumOfSquares(Interval(req.Range1, req.Range2)))))
  }

  /** Everything the worker sends while it processes `inbox` in order. */
  function Responses(inbox: seq<Arrival>, sumOfSquares: SquareSum): (r: seq<Outgoing>)
    ensures |r| <= |inbox|
    ensures forall o :: o in r ==>
              exists j :: 0 <= j < |inbox| && Handle(inbox[j], sumOfSquares) == Some(o)
  {
    if inbox == [] then []
    else
      var init := inbox[..|inbox| - 1];
      var last := inbox[|inbox| - 1];
      var prev := Responses(init, sumOfSquares);
      assert forall o :: o in prev ==>
               exists j :: 0 <= j < |inbox| && Handle(inbox[j], sumOfSquares) == Some(o) by {
        forall o | o in prev
          ensures exists j :: 0 <= j < |inbox| && Handle(inbox[j], sumOfSquares) == Some(o)
        {
          var j :| 0 <= j < |init| && Handle(init[j], sumOfSquares) == Some(o);
          assert inbox[j] == init[j];
        }
      }
      match Handle(last, sumOfSquares)
      case None => prev
      case Some(o) => prev + [o]
  }

  /** The worker keeps no state between datagrams: the replies to two
      consecutive stretches of traffic are the replies to each. */
  lemma {:induction false} ResponsesAppend(a: seq<Arrival>, b: seq<Arrival>, sumOfSquares: SquareSum)
    ensures Responses(a + b, sumOfSquares) == Responses(a, sumOfSquares) + Responses(b, sumOfSquares)
    decreases |b|
  {
    if b == [] {
      assert a + b == a;
    } else {
      var b' := b[..|b| - 1];
      assert (a + b)[..|a + b| - 1] == a + b';
      ResponsesAppend(a, b', sumOfSquares);
    }
  }

  /** A datagram that fails to read or decode is dropped: the worker sends
      exactly what it would have sent had it never arrived, so later
      requests are still answered. */
  lemma DroppedArrivalChangesNothing(a: seq<Arrival>, x: Arrival, b: seq<Arrival>, sumOfSquares: SquareSum)
    requires x.ReadFailed? || x.request.None?
    ensures Responses(a + [x] + b, sumOfSquares) == Responses(a + b, sumOfSquares)
  {
    ResponsesAppend(a + [x], b, sumOfSquares);
    ResponsesAppend(a, [x], sumOfSquares);
    ResponsesAppend(a, b, sumOfSquares);
    assert [x][..0] == [];
  }

  /** A datagram that decodes is answered with one reply, to its sender, in
      its place in the stream. */
  lemma DecodedArrivalAnswered(a: seq<Arrival>, source: UdpAddr, req: Request, b: seq<Arrival>,
                               sumOfSquares: SquareSum)
    ensures Responses(a + [Datagram(source, Some(req))] + b, sumOfSquares)
            == Responses(a, sumOfSquares)
               + [Outgoing(source, MakeReply(req, sumOfSquares(Interval(req.Range1, req.Range2))))]
               + Responses(b, sumOfSquares)
  {
    var x := Datagram(source, Some(req));
    ResponsesAppend(a + [x], b, sumOfSquares);
    ResponsesAppend(a, [x], sumOfSquares);
    assert [x][..0] == [];
  }

  /** The serve loop of server.go over the arrivals it reads: read or
      decode failures are skipped, every decoded request is answered. */
  method Serve(inbox: seq<Arrival>, sumOfSquares: SquareSum) returns (outbox: seq<Outgoing>)
    ensures outbox == Responses(inbox, sumOfSquares)
  {
    outbox := [];
    for i := 0 to |inbox|
      invariant outbox == Responses(inbox[..i], sumOfSquares)
    {
      assert inbox[..i + 1][..i] == inbox[..i];
      match inbox[i]
      case ReadFailed =>
      case Datagram(source, None) =>
      case Datagram(source, Some(req)) =>
        var terms := PartitionTerms(req.Range1, req.Range2);
        var reply := MakeReply(req, sumOfSquares(terms));
        outbox := outbox + [Outgoing(source, reply)];
    }
    assert inbox[..|inbox|] == inbox;
  }
}
