/** The partition planner and request dispatch of the client (client.go):
    check that `n` splits evenly over the five workers, cut `[0, n)` into
    five equal inclusive ranges, and build one request per worker. */
module Planner {
  import opened GoInt
  import opened Protocol

  /** The worker endpoints, index-aligned with the partitions. */
  const Servers: seq<string> := [
    "localhost:8080",
    "localhost:8081",
    "localhost:8082",
    "localhost:8083",
    "localhost:8084"
  ]

  /** The divisor the client checks `n` against and splits it by. */
  const Workers: nat := 5

  datatype PlanError = NotDivisibleByWorkers(n: Int)

  datatype Result<T> = Ok(value: T) | Err(error: PlanError)

  /** One dispatch: the request the client sends and the worker it goes to. */
  datatype Task = Task(server: string, request: Request)

  /** Terms per partition: Go's `n / 5`. */
  function PartitionSize(n: Int): (size: Int)
    ensures n >= 0 ==> 0 <= 5 * size <= n
    ensures GoRem(n, 5) == 0 ==> 5 * size == n
  {
    GoDiv(n, Workers)
  }

  /** The request for partition `p`: the inclusive range
      `[p * size, (p + 1) * size - 1]` of a run of `n` terms with exponent
      `t`. None of this arithmetic overflows `int`. */
  function PartitionRequest(p: nat, n: Int, t: Int): (r: Request)
    requires p < Workers
    ensures r.RequestReply == RequestTag && r.FunctionNum == PowerSumFunction
    ensures r.Partition == p && r.N == n && r.T == t
    ensures r.Range2 - r.Range1 + 1 == PartitionSize(n)
  {
    var size := PartitionSize(n);
    Request(
      RequestReply := RequestTag,
      FunctionNum := PowerSumFunction,
      Partition := p,
      Range1 := p * size,
      Range2 := (p + 1) * size - 1,
      N := n,
      T := t)
  }

  /** The dispatch loop of `main`: reject an `n` that five does not divide
      before anything is built; otherwise one task per server, partition `p`
      to `Servers[p]`. */
  method Dispatch(n: Int, t: Int) returns (r: Result<seq<Task>>)
    ensures r.Err? <==> GoRem(n, Workers) != 0
    ensures r.Err? ==> r.error == NotDivisibleByWorkers(n)
    ensures r.Ok? ==> |r.value| == |Servers| == Workers
    ensures r.Ok? ==> forall p :: 0 <= p < |r.value| ==>
                        r.value[p] == Task(Servers[p], PartitionRequest(p, n, t))
  {
    if GoRem(n, Workers) != 0 {
      return Err(NotDivisibleByWorkers(n));
    }
    var tasks: seq<Task> := [];
    for p := 0 to |Servers|
      invariant |tasks| == p
      invariant forall q :: 0 <= q < p ==> tasks[q] == Task(Servers[q], PartitionRequest(q, n, t))
    {
      tasks := tasks + [Task(Servers[p], PartitionRequest(p, n, t))];
    }
    return Ok(tasks);
  }

  /** The integers of partition `p`'s range, in order. */
  function PartitionTermsOf(p: nat, n: Int): seq<int>
    requires p < Workers
  {
    var req := PartitionRequest(p, n, 0);
    Interval(req.Range1, req.Range2)
  }

  /** The ranges of partitions `0 .. k - 1`, joined in partition order. */
  function Covered(k: nat, n: Int): seq<int>
    requires k <= Workers
  {
    if k == 0 then [] else Covered(k - 1, n) + PartitionTermsOf(k - 1, n)
  }

  /** Consecutive partitions touch: each range starts right after the
      previous one ends. */
  lemma PartitionsContiguous(p: nat, n: Int, t: Int)
    requires p + 1 < Workers
    ensures PartitionRequest(p, n, t).Range2 + 1 == PartitionRequest(p + 1, n, t).Range1
  {
  }

  /** For a non-negative `n`, the first `k` partitions together list
      `0, 1, ..., k * size - 1`, each once and in order. */
  lemma {:induction false} CoveredPrefix(k: nat, n: Int)
    requires k <= Workers && n >= 0
    ensures Covered(k, n) == Interval(0, k * PartitionSize(n) - 1)
  {
    if k > 0 {
      CoveredPrefix(k - 1, n);
      var size := PartitionSize(n);
      var req := PartitionRequest(k - 1, n, 0);
      MulSucc(k - 1, size);
      assert req.Range1 == (k - 1) * size && req.Range2 == k * size - 1;
      assert Covered(k, n) == Covered(k - 1, n) + Interval((k - 1) * size, k * size - 1);
      MulNonneg(k - 1, size);
      IntervalSplit(0, (k - 1) * size - 1, k * size - 1);
    }
  }

  /** Partition coverage: for a non-negative `n` that five divides, the five
      ranges joined in partition order are exactly `0, 1, ..., n - 1`, so
      every index in `[0, n)` is in exactly one range and nothing else is. */
  lemma PlanCoversRange(n: Int)
    requires n >= 0 && GoRem(n, Workers) == 0
    ensures Covered(Workers, n) == Interval(0, n - 1)
  {
    CoveredPrefix(Workers, n);
  }

  /** Distinct partitions have disjoint ranges, for any non-negative `n`. */
  lemma {:induction false} PartitionsDisjoint(p: nat, q: nat, n: Int, t: Int, i: int)
    requires p < q < Workers && n >= 0
    requires PartitionRequest(p, n, t).Range1 <= i <= PartitionRequest(p, n, t).Range2
    ensures !(PartitionRequest(q, n, t).Range1 <= i <= PartitionRequest(q, n, t).Range2)
  {
    var size := PartitionSize(n);
    MulNonneg(q - p - 1, size);
    assert q * size - (p + 1) * size == (q - p - 1) * size;
  }

  /** The partition that holds index `i` of `[0, n)`. */
  function OwnerOf(i: int, n: Int): (p: nat)
    requires n >= 0 && GoRem(n, Workers) == 0 && 0 <= i < n
    ensures p < Workers
    ensures PartitionRequest(p, n, 0).Range1 <= i <= PartitionRequest(p, n, 0).Range2
  {
    var size := PartitionSize(n);
    DivMod(i, size);
    assert i / size < Workers by {
      if i / size >= Workers {
        MulMonotone(i / size, Workers, size);
      }
    }
    i / size
  }

  /** No index of `[0, n)` lies in two partitions: the owner is the only
      partition whose range holds it. */
  lemma OwnerUnique(i: int, n: Int, q: nat)
    requires n >= 0 && GoRem(n, Workers) == 0 && 0 <= i < n && q < Workers
    requires PartitionRequest(q, n, 0).Range1 <= i <= PartitionRequest(q, n, 0).Range2
    ensures q == OwnerOf(i, n)
  {
    var p := OwnerOf(i, n);
    if p < q {
      PartitionsDisjoint(p, q, n, 0, i);
    } else if q < p {
      PartitionsDisjoint(q, p, n, 0, i);
    }
  }

  /** The worked example of a run with `t = 2` and `n = 10`: the ranges are
      `[0, 1], [2, 3], [4, 5], [6, 7], [8, 9]`. */
  lemma PlanForTenTerms()
    ensures forall p: nat :: p < Workers ==>
              PartitionRequest(p, 10, 2).Range1 == 2 * p && PartitionRequest(p, 10, 2).Range2 == 2 * p + 1
  {
  }
}
