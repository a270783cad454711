# Scatter/gather power sum: a Dafny model of its integer bookkeeping

The system adds up `i^t` for `i` in `[0, n)` by splitting the index range over
five worker processes. The client (client.go) checks that five divides `n`.
It cuts `[0, n)` into five equal inclusive ranges and sends one request per
range to its worker over UDP. It then folds the replies into a total sum and
a total term count. Each worker (server.go) reads one datagram at a time. It
decodes a request, loops over the requested range, and sends a reply back to
the sender. The reply echoes the request's fields and counts
`Range2 - Range1 + 1` terms. Datagrams that cannot be read or decoded are
dropped without a reply.

This project models that bookkeeping in five modules, one file each:

- go_int.dfy, module `GoInt`: Go's 64-bit `int`. It covers wrap-around, and
  `/` and `%` truncating toward zero.
- protocol.dfy, module `Protocol`: the `Request` and `Reply` records that
  both Go files declare, and `Interval`, the integers an inclusive loop
  visits.
- worker.dfy, module `Worker`, models server.go: reply construction, the
  summation loop, the handling of one datagram, and the serve loop.
- planner.dfy, module `Planner`, models the first half of client.go: the
  divisibility check, the partition bounds and the dispatch loop, with
  coverage, disjointness and contiguity.
- aggregator.dfy, module `Aggregator`, models the second half of client.go:
  how each dispatch task ends, and the receive loop that adds up
  `NumberOfTerms`, proved independent of arrival order and related to `n`.

Go's `int` is taken as 64 bits wide. The worker's `Range2 - Range1 + 1` and
the client's `totalTerms +=` are written with explicit wrap-around (`Wrap`).
The worker's loop counter `i++` is written with wrap-around in `LoopCounter`.
That function shows the Go loop never exits when `Range2` is the largest
`int` (see Findings). Below that value it visits exactly the integers that
`PartitionTerms` visits. The serve loop uses `PartitionTerms`, whose counter
is an unbounded integer. The planner's `p * (n / 5)` and
`(p + 1) * (n / 5) - 1` never overflow. The model proves this: the `Request`
fields have the 64-bit type.

Floating point is not modelled. A `float64` is an opaque bit pattern
(`Float64`). The worker's accumulation `sum += float64(i) * float64(i)` is a
parameter (`SquareSum`), applied to the integers the loop visits. The client's
`finalSum += reply.PartitionSum` is modelled by the sequence of addends it
receives, in arrival order. The gob codec and the network are parameters too.
Each arrival says whether the read succeeded and whether the payload decoded.
Each dispatch task says which of dial, encode, write and receive succeeded.

Two behaviours of the code, which the model follows, are worth noting:

- The worker always squares (server.go:37) and ignores `T`. The model makes
  no claim about `i^T`.
- The client keeps no set of partitions already seen. A duplicate reply would
  simply be added again (client.go:124-133).

## Model

| member | source | states |
|---|---|---|
| `GoInt.Wrap` | client.go:132 | the value Go's `int` holds after `+`/`-`: congruent to the exact result modulo 2^64, and equal to it when it fits |
| `GoInt.WrapAdd` | client.go:132 | a running `int` total wrapped at each step equals the exact total wrapped once |
| `GoInt.GoDiv` | client.go:94 | `n / 5` truncates toward zero: the quotient times the divisor lies between zero and `n`, less than one divisor away |
| `GoInt.GoRem` | client.go:80 | `n % 5` is `n` minus the truncated quotient times five; its sign follows `n` |
| `GoInt.GoRemZeroIffDivides` | client.go:80-83 | Go's truncated `%` is zero exactly when Dafny's Euclidean `%` is zero; the quotients then agree |
| `Protocol.Interval` | server.go:36 | the integers `lo..hi` in order: `hi - lo + 1` of them (none when `lo > hi`), the k-th being `lo + k` |
| `Protocol.IntervalSplit` | client.go:99-100 | adjacent inclusive ranges joined end to end form one range |
| `Protocol.IntervalMembers` | server.go:36 | an integer is in the range `lo..hi` exactly when `lo <= i <= hi` |
| `Worker.MakeReply` | server.go:82-91 | the reply is tagged 1, copies `FunctionNum`, `Partition`, `N`, `T`, carries `Range2 - Range1 + 1` in Go `int` arithmetic and `"Include"`, and its term count is the size of the range whenever that size is between 0 and the largest `int` |
| `Worker.TermCountMatchesLoop` | server.go:86 | the reported term count equals the number of integers the loop visits if and only if `Range1 <= Range2 + 1` and the size does not overflow |
| `Worker.PartitionTerms` | server.go:34-40 | the summation loop visits exactly `Range1..Range2` in order, `Range2 - Range1 + 1` integers (none for an empty range) |
| `Worker.GoLoopVisitsInterval` | server.go:36 | when `Range2` is below the largest `int`, the Go counter passes the guard exactly for the integers `PartitionTerms` visits, in order, and then fails it |
| `Worker.LoopCounter` | server.go:36 | the Go counter after `k` executions of `i++` from `start`, each step wrapped to 64 bits: it equals `start + k` while that fits in an `int`, and the step past the largest `int` gives the smallest |
| `Worker.LoopCounterWraps` | server.go:36 | the Go loop counter after `k` increments is the start plus `k`, wrapped to 64 bits |
| `Worker.ComputeLoopNeverExitsAtMaxInt` | server.go:36 | with `Range2` at the largest `int` the counter wraps from the largest to the smallest `int` and returns to `Range1`, so the guard never fails |
| `Worker.Handle` | server.go:61-91 | one arrival yields a reply exactly when it was read and decoded; the reply goes to the datagram's source address, answers the request, and carries the float sum of the visited integers |
| `Worker.Responses` | server.go:61-112 | every reply sent over a stream of arrivals answers one of the decoded datagrams, and there are no more replies than arrivals |
| `Worker.ResponsesAppend` | server.go:61-112 | the worker keeps no state between datagrams: the replies to two stretches of traffic are the replies to each |
| `Worker.DroppedArrivalChangesNothing` | server.go:63-76 | a datagram that fails to read or decode produces nothing, and the worker goes on exactly as if it had never arrived |
| `Worker.DecodedArrivalAnswered` | server.go:78-107 | a decoded datagram is answered by one reply to its sender, in its place in the stream |
| `Worker.Serve` | server.go:61-112 | the serve loop sends exactly the replies `Responses` specifies |
| `Planner.PartitionSize` | client.go:94 | for `n >= 0` five partitions hold at most `n` terms, and exactly `n` when five divides `n` |
| `Planner.PartitionRequest` | client.go:98-110 | partition `p`'s request has `RequestReply` 0, `FunctionNum` 1, `Partition` p, `N` n, `T` t, and a range of `n / 5` integers; no bound overflows |
| `Planner.Dispatch` | client.go:80-114 | when five does not divide `n` nothing is built; otherwise exactly five tasks, task `p` carrying partition `p`'s request to `servers[p]` |
| `Planner.PartitionsContiguous` | client.go:99-100 | each partition's range starts right after the previous one ends |
| `Planner.CoveredPrefix` | client.go:98-100 | the first `k` ranges joined in order list `0 .. k * (n / 5) - 1` |
| `Planner.PlanCoversRange` | client.go:94-100 | for `n >= 0` divisible by five, the five ranges joined in order are exactly `0 .. n - 1`: every index once, nothing else |
| `Planner.PartitionsDisjoint` | client.go:99-100 | no integer lies in the ranges of two different partitions |
| `Planner.OwnerOf` | client.go:94-100 | every index of `[0, n)` lies in the range of some partition |
| `Planner.OwnerUnique` | client.go:94-100 | that partition is the only one whose range holds the index |
| `Planner.PlanForTenTerms` | client.go:94-110 | for `n = 10` the ranges are `[0,1]`, `[2,3]`, `[4,5]`, `[6,7]`, `[8,9]` |
| `Aggregator.SendTask` | client.go:34-70 | a task delivers a reply exactly when dial, encode, write and decode all succeed; otherwise it fails at the first step that did not |
| `Aggregator.DeliveredCount` | client.go:34-70 | the number of tasks that delivered a reply: at most one per task, and one per task exactly when every task delivered |
| `Aggregator.Collected` | client.go:69 | the results channel holds exactly the delivered replies, one per task that delivered |
| `Aggregator.DeliveredCountOneLost` | client.go:112-119 | when exactly one task fails, one reply fewer than there are tasks reaches the channel |
| `Aggregator.SumTermsAppend` | client.go:124-133 | the term total over two batches of replies is the sum of their totals |
| `Aggregator.SumTermsRemove` | client.go:124-133 | taking one reply out of a batch lowers the term total by that reply's count |
| `Aggregator.SumTermsPermutation` | client.go:124-133 | the term total is the same whatever order the replies arrive in |
| `Aggregator.Aggregate` | client.go:121-133 | the receive loop's `totalTerms` is the exact sum of the replies' `NumberOfTerms` wrapped to an `int`, and every `PartitionSum` is added, in arrival order |
| `Aggregator.CollectedTerms` | client.go:124-133 | each reply that answers its partition's request adds exactly `n / 5` terms |
| `Aggregator.TotalTermsOfRun` | client.go:121-133 | whatever the arrival order, `totalTerms` is `n / 5` per reply received, that is `n` less `n / 5` per lost partition; for `n != 0`, negative `n` included, it equals `n` exactly when all five workers replied |
| `Aggregator.OnePartitionLost` | client.go:121-137 | when exactly one worker's task fails, the run reports `n - n / 5` terms |

## Left out

- Gob encoding and decoding (client.go:45-67, server.go:70-100): decoding is modelled only as success (`Some`) or failure (`None`).
- A failed reply encode or `WriteToUDP` (server.go:94-107): it changes nothing the worker does next, so a reply handed to the encoder counts as sent.
- UDP plumbing: dialling, listening, the 1024-byte receive buffer and its truncation (server.go:62), and the fixed ports.
- Goroutines, the `WaitGroup`, and closing the results channel (client.go:112-119): the receive loop is modelled over a finite sequence of replies in any order that is a permutation of what the tasks delivered.
- A worker that never replies: the task would block forever, because there is no timeout. Only tasks that finish are modelled.
- Worker.Serve: the worker's `for {}` loop runs forever; the model processes a finite prefix of its arrivals.
- Worker.Serve: it computes with `PartitionTerms`, the terminating loop. After a decoded request with `Range2` equal to the largest `int`, server.go never returns from `computePartitionSum`, sends nothing more and reads no more datagrams. `Serve` answers that request and carries on.
- Worker.Handle: it follows the terminating loop, so it replies to a decoded request with `Range2` equal to the largest `int`; server.go never does.
- Worker.ResponsesAppend: it follows the terminating loop. If the first stretch holds a request with `Range2` equal to the largest `int`, server.go never sends the replies to the second stretch, but the lemma still adds them.
- Worker.DecodedArrivalAnswered: it follows the terminating loop. server.go leaves a decoded request unanswered when it, or an earlier request, has `Range2` equal to the largest `int`.
- Floating point: `PartitionSum` (server.go:34-40) and `finalSum` (client.go:121-129) are opaque values; the float additions are not modelled.
- Worker.PartitionTerms: the counter is an unbounded integer, so the loop ends even when `Range2` is the largest `int`; the Go loop does not end then (see Findings).
- Console input and output (`fmt.Scan`, `Printf`).
- server3.go is not part of this model: it only computes a `math.Pow` float sum and echoes the partition, with message structs that differ from client.go's.

## Findings

| source | as written | input that shows it | evidently intended | confidence | as-written member | corrected member |
|---|---|---|---|---|---|---|
| server.go:36 | `for i := range1; i <= range2; i++` on a 64-bit `int` never exits when `range2` is the largest `int`: `i++` wraps to the smallest `int`, which passes the guard again | a request with `Range2 = 9223372036854775807` | visit `Range1..Range2` once each and stop | not executed; Go signed overflow wraps by definition | `Worker.ComputeLoopNeverExitsAtMaxInt` | `Worker.PartitionTerms` |
