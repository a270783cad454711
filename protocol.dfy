/** The two messages of the scatter/gather protocol, as the client and the
    worker both declare them, and the integer ranges they describe. */
module Protocol {
  import opened GoInt

  datatype Option<T> = None | Some(value: T)

  /** A Go `float64`, carried as its IEEE 754 bit pattern. The model moves
      these values around but never does arithmetic on them. */
  datatype Float64 = Float64(bits: bv64)

  /** `RequestReply` marker of a request. */
  const RequestTag: Int := 0
  /** `RequestReply` marker of a reply. */
  const ReplyTag: Int := 1
  /** `FunctionNum` of the power-sum computation, the only one there is. */
  const PowerSumFunction: Int := 1
  /** `IncludeExclude` value the worker always sends. */
  const Include: string := "Include"

  /** Coordinator to worker: compute over `[Range1, Range2]` (both ends
      included) for partition `Partition` of a run with `N` terms and
      exponent `T`. */
  datatype Request = Request(
    RequestReply: Int,
    FunctionNum: Int,
    Partition: Int,
    Range1: Int,
    Range2: Int,
    N: Int,
    T: Int)

  /** Worker to coordinator: the partial sum over one partition. */
  datatype Reply = Reply(
    RequestReply: Int,
    FunctionNum: Int,
    Partition: Int,
    NumberOfTerms: Int,
    N: Int,
    T: Int,
    PartitionSum: Float64,
    IncludeExclude: string)

  /** The integers `lo, lo + 1, ..., hi` in increasing order (empty when
      `lo > hi`): what an inclusive loop from `lo` to `hi` visits. */
  function Interval(lo: int, hi: int): (r: seq<int>)
    ensures |r| == if lo <= hi then hi - lo + 1 else 0
    ensures forall k :: 0 <= k < |r| ==> r[k] == lo + k
    decreases hi - lo
  {
    if lo > hi then [] else [lo] + Interval(lo + 1, hi)
  }

  /** An interval lists each of its members once. */
  lemma IntervalMembers(lo: int, hi: int, i: int)
    ensures i in Interval(lo, hi) <==> lo <= i <= hi
  {
    if lo <= i <= hi {
      assert Interval(lo, hi)[i - lo] == i;
    }
  }

  /** Two adjacent intervals joined end to end make one interval. */
  lemma IntervalSplit(lo: int, mid: int, hi: int)
    requires lo <= mid + 1 <= hi + 1
    ensures Interval(lo, mid) + Interval(mid + 1, hi) == Interval(lo, hi)
  {
    var left, right := Interval(lo, mid), Interval(mid + 1, hi);
    assert |left + right| == |Interval(lo, hi)|;
    forall k | 0 <= k < |left + right|
      ensures (left + right)[k] == Interval(lo, hi)[k]
    {
      if k >= |left| {
        assert (left + right)[k] == right[k - |left|];
      }
    }
  }
}
