/** The demo partitioner: records without a key are spread round-robin by a
    shared 32-bit counter, records with a key go to the partition picked by
    the key's hash. */
module Partitioner {
  import opened JavaTypes

  /** One partition of a topic as the cluster metadata describes it. */
  datatype PartitionInfo = PartitionInfo(topic: string, partition: int32)

  /** Read-only snapshot of cluster metadata: the partitions of each known topic. */
  datatype Cluster = Cluster(partitionsByTopic: map<string, seq<PartitionInfo>>)
  {
    /** The topic's partitions; an unknown topic has none. */
    function PartitionsForTopic(topic: string): seq<PartitionInfo>
    {
      if topic in partitionsByTopic then partitionsByTopic[topic] else []
    }
  }

  /** What `partition` throws: `%` by a zero partition count. */
  datatype PartitionError = ArithmeticException(message: string)

  const DIVIDE_BY_ZERO := ArithmeticException("/ by zero")

  /** `List.size()`: the number of elements, or `Integer.MAX_VALUE` for a
      list longer than that. */
  function SizeOf<T>(s: seq<T>): int32
  {
    if |s| <= MAX_INT then |s| else MAX_INT
  }

  /** The partition count `partition` reduces by. */
  function NumPartitions(cluster: Cluster, topic: string): (n: int32)
    ensures 0 <= n
    ensures n == 0 <==> cluster.PartitionsForTopic(topic) == []
  {
    SizeOf(cluster.PartitionsForTopic(topic))
  }

  /** Kafka's `Utils.toPositive`: clears the sign bit, so the result is the
      non-negative int congruent to `n` modulo 2^31. */
  function ToPositive(n: int32): (r: int32)
    ensures 0 <= r
    ensures (r - n) % 0x8000_0000 == 0
  {
    if n < 0 then n + 0x8000_0000 else n
  }

  /** Result of the keyless path for a counter value read by `getAndIncrement`:
      the Java remainder of the counter by the partition count. */
  function RoundRobin(counter: int32, numPartitions: int32): (r: Result<int32, PartitionError>)
    requires 0 <= numPartitions
    ensures r.Failure? <==> numPartitions == 0
    ensures r.Failure? ==> r.error == DIVIDE_BY_ZERO
    ensures r.Success? && 0 <= counter ==> 0 <= r.value < numPartitions
    ensures r.Success? && counter < 0 ==> -numPartitions < r.value <= 0
  {
    if numPartitions == 0 then Failure(DIVIDE_BY_ZERO) else Success(Rem(counter, numPartitions))
  }

  /** Result of the keyed path for the key's murmur2 hash. */
  function KeyedPartition(hash: int32, numPartitions: int32): (r: Result<int32, PartitionError>)
    requires 0 <= numPartitions
    ensures r.Failure? <==> numPartitions == 0
    ensures r.Failure? ==> r.error == DIVIDE_BY_ZERO
    ensures r.Success? ==> 0 <= r.value < numPartitions
  {
    if numPartitions == 0 then Failure(DIVIDE_BY_ZERO) else Success(Rem(ToPositive(hash), numPartitions))
  }

  /** Java's `AtomicInteger`, used sequentially. */
  class AtomicInteger {
    var value: int32

    constructor(initial: int32)
      ensures value == initial
    {
      value := initial;
    }

    /** Returns the current value and stores it plus one, wrapping at 2^31. */
    method GetAndIncrement() returns (previous: int32)
      modifies this
      ensures previous == old(value)
      ensures value == Wrap32(old(value) + 1)
    {
      previous := value;
      value := Wrap32(value + 1);
    }
  }

  class DemoPartitioner {
    const counter: AtomicInteger

    constructor()
      ensures fresh(counter) && counter.value == 0
    {
      counter := new AtomicInteger(0);
    }

    /** Chooses the partition of a record. `key` and `value` are not looked at;
        `murmur2` is Kafka's `Utils.murmur2`. A keyless call advances the counter
        even when the topic has no partitions, since `getAndIncrement` runs
        before the division fails. */
    method Partition<K, V>(topic: string, key: Option<K>, keyBytes: Option<seq<byte>>,
                           value: Option<V>, valueBytes: Option<seq<byte>>,
                           cluster: Cluster, murmur2: seq<byte> -> int32)
      returns (r: Result<int32, PartitionError>)
      modifies counter
      ensures keyBytes.None? ==>
        && r == RoundRobin(old(counter.value), NumPartitions(cluster, topic))
        && counter.value == Wrap32(old(counter.value) + 1)
      ensures keyBytes.Some? ==>
        && r == KeyedPartition(murmur2(keyBytes.value), NumPartitions(cluster, topic))
        && counter.value == old(counter.value)
    {
      var partitions := cluster.PartitionsForTopic(topic);
      var numPartitions := SizeOf(partitions);
      if keyBytes.None? {
        var c := counter.GetAndIncrement();
        if numPartitions == 0 {
          r := Failure(DIVIDE_BY_ZERO);
        } else {
          r := Success(Rem(c, numPartitions));
        }
      } else {
        var hash := murmur2(keyBytes.value);
        if numPartitions == 0 {
          r := Failure(DIVIDE_BY_ZERO);
        } else {
          r := Success(Rem(ToPositive(hash), numPartitions));
        }
      }
    }
  }

  /** Makes `k` keyless calls of `p.Partition` on one topic: the results are
      exactly `KeylessRun` from the counter's value before the first call,
      and the counter has advanced by k, wrapping at 2^31. */
  method PartitionKeylessTimes(p: DemoPartitioner, topic: string, cluster: Cluster,
                               murmur2: seq<byte> -> int32, k: nat)
    returns (rs: seq<Result<int32, PartitionError>>)
    modifies p.counter
    ensures rs == KeylessRun(old(p.counter.value), NumPartitions(cluster, topic), k)
    ensures p.counter.value == Wrap32(old(p.counter.value) + k)
  {
    var n := NumPartitions(cluster, topic);
    var c0 := p.counter.value;
    var none: Option<seq<byte>> := None;
    rs := [];
    var i := 0;
    while i < k
      invariant 0 <= i <= k
      invariant p.counter.value == Wrap32(c0 + i)
      invariant rs + KeylessRun(p.counter.value, n, k - i) == KeylessRun(c0, n, k)
    {
      var before := p.counter.value;
      var r := p.Partition(topic, none, none, none, none, cluster, murmur2);
      assert KeylessRun(before, n, k - i) == [r] + KeylessRun(p.counter.value, n, k - i - 1);
      Wrap32Add(c0 + i, 1);
      rs := rs + [r];
      i := i + 1;
    }
  }

  /** The results of `k` consecutive keyless calls on one topic, starting
      from counter value `counter`. */
  function KeylessRun(counter: int32, numPartitions: int32, k: nat): (run: seq<Result<int32, PartitionError>>)
    requires 0 <= numPartitions
    ensures |run| == k
    decreases k
  {
    if k == 0 then []
    else [RoundRobin(counter, numPartitions)] + KeylessRun(Wrap32(counter + 1), numPartitions, k - 1)
  }

  /** The i-th of k consecutive keyless calls sees counter value `counter + i`
      wrapped to 32 bits. */
  lemma {:induction false} KeylessRunAt(counter: int32, numPartitions: int32, k: nat, i: nat)
    requires 0 <= numPartitions
    requires i < k
    ensures KeylessRun(counter, numPartitions, k)[i] == RoundRobin(Wrap32(counter + i), numPartitions)
    decreases i
  {
    if i == 0 {
      assert Wrap32(counter + i) == counter;
    } else {
      var next := Wrap32(counter + 1);
      KeylessRunStep(counter, numPartitions, k, i);
      KeylessRunAt(next, numPartitions, k - 1, i - 1);
      Wrap32Step(counter, i);
    }
  }

  lemma Wrap32Step(counter: int, i: int)
    ensures Wrap32(Wrap32(counter + 1) + (i - 1)) == Wrap32(counter + i)
  {
  }

  lemma KeylessRunStep(counter: int32, numPartitions: int32, k: nat, i: nat)
    requires 0 <= numPartitions
    requires 0 < i < k
    ensures KeylessRun(counter, numPartitions, k)[i] == KeylessRun(Wrap32(counter + 1), numPartitions, k - 1)[i - 1]
  {
  }

  /** While the counter has not overflowed, consecutive keyless calls cycle
      through 0, 1, ..., numPartitions - 1: on a fresh partitioner (counter 0)
      the i-th call returns i % numPartitions. */
  lemma KeylessRunCycles(counter: int32, numPartitions: int32, k: nat)
    requires 0 < numPartitions
    requires 0 <= counter && counter + k <= MAX_INT + 1
    ensures forall i :: 0 <= i < k ==>
      KeylessRun(counter, numPartitions, k)[i] == Success((counter + i) % numPartitions)
  {
    forall i | 0 <= i < k
      ensures KeylessRun(counter, numPartitions, k)[i] == Success((counter + i) % numPartitions)
    {
      KeylessRunAt(counter, numPartitions, k, i);
      RemOfNonNegative(counter + i, numPartitions);
    }
  }

  /** Any numPartitions consecutive keyless calls made before the counter
      overflows go to pairwise different partitions ... */
  lemma KeylessWindowDistinct(counter: int32, numPartitions: int32)
    requires 0 < numPartitions
    requires 0 <= counter && counter + numPartitions <= MAX_INT + 1
    ensures var run := KeylessRun(counter, numPartitions, numPartitions);
      forall i, j :: 0 <= i < j < numPartitions ==> run[i] != run[j]
  {
    var n := numPartitions;
    var run := KeylessRun(counter, n, n);
    KeylessRunCycles(counter, n, n);
    forall i, j | 0 <= i < j < n
      ensures run[i] != run[j]
    {
      assert run[i] == Success((counter + i) % n);
      assert run[j] == Success((counter + j) % n);
      DistinctResidues(counter + i, counter + j, n);
    }
  }

  /** ... and together hit every partition. */
  lemma KeylessWindowCovers(counter: int32, numPartitions: int32)
    requires 0 < numPartitions
    requires 0 <= counter && counter + numPartitions <= MAX_INT + 1
    ensures forall p: int32 :: 0 <= p < numPartitions ==> Success(p) in KeylessRun(counter, numPartitions, numPartitions)
  {
    var n := numPartitions;
    var run := KeylessRun(counter, n, n);
    KeylessRunCycles(counter, n, n);
    forall p: int32 | 0 <= p < n
      ensures Success(p) in run
    {
      var i := ResidueHit(counter, p, n);
      assert run[i] == Success((counter + i) % n);
    }
  }

  lemma DistinctResidues(x: int, y: int, n: int)
    requires 0 < n && x < y < x + n
    ensures x % n != y % n
  {
    var qx, qy := x / n, y / n;
    if x % n == y % n {
      assert y - x == qy * n - qx * n == (qy - qx) * n;
      if qy - qx >= 1 {
        MulAtLeast(qy - qx, n);
      } else {
        MulAtMost(qy - qx, n);
      }
    }
  }

  lemma MulAtMost(k: int, n: int)
    requires k <= 0 && 0 < n
    ensures k * n <= 0
  {
  }

  /** The offset from c at which residue p comes round. */
  lemma ResidueHit(c: int, p: int, n: int) returns (i: int)
    requires 0 < n && 0 <= p < n
    ensures 0 <= i < n && (c + i) % n == p
  {
    var r := c % n;
    ModUnique(c, n, c / n, r);
    if r <= p {
      i := p - r;
      ModUnique(c + i, n, c / n, p);
    } else {
      i := p - r + n;
      ModUnique(c + i, n, c / n + 1, p);
    }
  }

  /** Division by a positive n leaves a unique remainder. */
  lemma ModUnique(x: int, n: int, q: int, r: int)
    requires 0 < n && 0 <= r < n && x == q * n + r
    ensures x % n == r && x / n == q
  {
    var q', r' := x / n, x % n;
    assert x == q' * n + r';
    assert (q - q') * n == r' - r;
    if q > q' {
      MulAtLeast(q - q', n);
    } else if q < q' {
      MulAtLeast(q' - q, n);
    }
  }

  lemma MulAtLeast(k: int, n: int)
    requires 1 <= k && 0 < n
    ensures n <= k * n
  {
  }

  /** The keyless bound fails once the counter wraps: after 2^31 keyless
      calls on a fresh partitioner the counter reads -2^31, and with three
      partitions the next call returns partition -2. */
  lemma KeylessNegativeAfterOverflow()
    ensures KeylessRun(0, 3, MAX_INT + 2)[MAX_INT + 1] == Success(-2)
  {
    KeylessRunAt(0, 3, MAX_INT + 2, MAX_INT + 1);
    assert Wrap32(MAX_INT + 1) == MIN_INT;
  }

  /** Five keyless sends to a topic with four partitions on a fresh
      partitioner land on partitions 0, 1, 2, 3, 0; a keyed send in between
      leaves the rotation where it was. */
  method RoundRobinScenario(murmur2: seq<byte> -> int32) returns (parts: seq<Result<int32, PartitionError>>)
    ensures parts == [Success(0), Success(1), Success(2), Success(3), Success(0)]
  {
    var t := "t";
    var infos := [PartitionInfo(t, 0), PartitionInfo(t, 1), PartitionInfo(t, 2), PartitionInfo(t, 3)];
    var cluster := Cluster(map[t := infos]);
    var p := new DemoPartitioner();
    parts := [];
    var none: Option<seq<byte>> := None;
    var r := p.Partition(t, none, none, none, none, cluster, murmur2);
    parts := parts + [r];
    r := p.Partition(t, none, none, none, none, cluster, murmur2);
    parts := parts + [r];
    var keyed := p.Partition(t, Some([107, 49]), Some([107, 49]), none, none, cluster, murmur2);
    r := p.Partition(t, none, none, none, none, cluster, murmur2);
    parts := parts + [r];
    r := p.Partition(t, none, none, none, none, cluster, murmur2);
    parts := parts + [r];
    r := p.Partition(t, none, none, none, none, cluster, murmur2);
    parts := parts + [r];
  }
}
