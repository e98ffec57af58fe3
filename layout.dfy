/**
 * The bit layout of an identifier (instauuid.go, lines 12-20 and 70-72):
 * bits 63..23 hold the timestamp, bits 22..10 the shard ID and bits 9..0
 * the sequence number.
 *
 * Shifts are written as multiplications by powers of two, `x & (2^k - 1)`
 * as `x % 2^k` (the same for non-negative `x`), and the bitwise OR of the
 * three fields as their sum, which is what it is when the fields occupy
 * disjoint bits (the preconditions of `Pack` make sure they do).
 */
module IdLayout {

  /** The default epoch, 2011-08-24T21:07:01Z, in Unix milliseconds. */
  const InstagramEpoch: int := 1314220021721

  /** `maxSeq = (1 << seqBits) - 1`, with `seqBits = 10` */
  const MaxSeq: nat := 1023
  /** `maxShard = (1 << shardBits) - 1`, with `shardBits = 13` */
  const MaxShard: nat := 8191

  /** `1 << seqBits`: the weight of the shard field, and the sequence modulus. */
  const SeqModulus: nat := 0x400
  /** `1 << shardBits`: the modulus of the shard field. */
  const ShardModulus: nat := 0x2000
  /** `1 << timeShift`, with `timeShift = seqBits + shardBits = 23`: the weight of the timestamp field. */
  const TimeUnit: nat := 0x80_0000
  /** 2^41: timestamps at or above this do not fit in bits 63..23. */
  const TimestampLimit: nat := 0x200_0000_0000
  /** 2^64 */
  const Uint64Limit: nat := 0x1_0000_0000_0000_0000

  /** Go's `uint64(x)` for a signed 64-bit `x`: the two's-complement bits read unsigned. */
  function Uint64(x: int): (u: nat)
    ensures u < Uint64Limit
  {
    x % Uint64Limit
  }

  /**
   * `(uint64(timestamp) << timeShift) | (uint64(shard) << shardShift) | uint64(sequence)`,
   * with the left shift of the timestamp truncated to 64 bits as Go does.
   */
  function Pack(timestamp: int, shard: nat, sequence: nat): (id: nat)
    requires shard <= MaxShard && sequence <= MaxSeq
    ensures id < Uint64Limit
  {
    ShiftTruncates(timestamp);
    (Uint64(timestamp) * TimeUnit) % Uint64Limit + shard * SeqModulus + sequence
  }

  /** `id >> timeShift` */
  function TimestampOf(id: nat): nat { id / TimeUnit }

  /** `(id >> shardShift) & maxShard` */
  function ShardOf(id: nat): nat { (id / SeqModulus) % ShardModulus }

  /** `id & maxSeq` */
  function SequenceOf(id: nat): nat { id % SeqModulus }

  /**
   * Shifting `uint64(t)` left by 23 in 64 bits keeps exactly the low 41 bits
   * of `t`: the timestamp field wraps modulo 2^41.
   */
  lemma ShiftTruncates(t: int)
    ensures (Uint64(t) * TimeUnit) % Uint64Limit == (t % TimestampLimit) * TimeUnit
  {
    var u := Uint64(t);
    var q, r := u / TimestampLimit, u % TimestampLimit;
    assert u == q * TimestampLimit + r;
    assert u * TimeUnit == q * Uint64Limit + r * TimeUnit;
    assert 0 <= r * TimeUnit < Uint64Limit;
    ModOfMultiplePlus(q, r * TimeUnit, Uint64Limit);
    var k := t / Uint64Limit;
    assert t == k * Uint64Limit + u;
    assert t == (k * TimeUnit) * TimestampLimit + u;
    ModOfMultiplePlus(k * TimeUnit, u, TimestampLimit);
  }

  /** `(q * m + b) % m == b % m` */
  lemma ModOfMultiplePlus(q: int, b: int, m: int)
    requires m > 0
    ensures (q * m + b) % m == b % m
  {
    var x := q * m + b;
    var d := x / m - q - b / m;
    assert d * m == b % m - x % m;
  }

  /**
   * The packed identifier is a 64-bit value from which each field is
   * recovered: the shard ID and sequence exactly, the timestamp modulo 2^41.
   */
  lemma UnpackPack(timestamp: int, shard: nat, sequence: nat)
    requires shard <= MaxShard && sequence <= MaxSeq
    ensures Pack(timestamp, shard, sequence) < Uint64Limit
    ensures TimestampOf(Pack(timestamp, shard, sequence)) == timestamp % TimestampLimit
    ensures ShardOf(Pack(timestamp, shard, sequence)) == shard
    ensures SequenceOf(Pack(timestamp, shard, sequence)) == sequence
  {
    var id := Pack(timestamp, shard, sequence);
    var t := timestamp % TimestampLimit;
    ShiftTruncates(timestamp);
    assert id == t * TimeUnit + shard * SeqModulus + sequence;
    assert id / SeqModulus == t * ShardModulus + shard;
    assert id / TimeUnit == t;
  }

  /**
   * For a timestamp that fits in 41 bits the identifier is exactly
   * `timestamp * 2^23 + shard * 2^10 + sequence`, and its timestamp field
   * is the timestamp itself.
   */
  lemma PackExact(timestamp: int, shard: nat, sequence: nat)
    requires 0 <= timestamp < TimestampLimit
    requires shard <= MaxShard && sequence <= MaxSeq
    ensures Pack(timestamp, shard, sequence) == timestamp * TimeUnit + shard * SeqModulus + sequence
    ensures TimestampOf(Pack(timestamp, shard, sequence)) == timestamp
  {
    ShiftTruncates(timestamp);
  }

  /** T = 100, S = 5, Q = 7 packs to (100 << 23) | (5 << 10) | 7 = 838865927. */
  lemma PackExample()
    ensures Pack(100, 5, 7) == 838865927
  {
    PackExact(100, 5, 7);
  }

  /** With 41-bit timestamps, packing is injective. */
  lemma PackInjective(t1: int, s1: nat, q1: nat, t2: int, s2: nat, q2: nat)
    requires 0 <= t1 < TimestampLimit && s1 <= MaxShard && q1 <= MaxSeq
    requires 0 <= t2 < TimestampLimit && s2 <= MaxShard && q2 <= MaxSeq
    requires Pack(t1, s1, q1) == Pack(t2, s2, q2)
    ensures t1 == t2 && s1 == s2 && q1 == q2
  {
    UnpackPack(t1, s1, q1);
    UnpackPack(t2, s2, q2);
  }

  /**
   * For one shard, a later (timestamp, sequence) pair in lexicographic order
   * gives a larger identifier.
   */
  lemma PackMonotonic(t1: int, q1: nat, t2: int, q2: nat, shard: nat)
    requires 0 <= t1 < TimestampLimit && q1 <= MaxSeq
    requires 0 <= t2 < TimestampLimit && q2 <= MaxSeq
    requires shard <= MaxShard
    requires t1 < t2 || (t1 == t2 && q1 < q2)
    ensures Pack(t1, shard, q1) < Pack(t2, shard, q2)
  {
    PackExact(t1, shard, q1);
    PackExact(t2, shard, q2);
  }

  /**
   * Identifiers of two different shards differ once shifted right by
   * `shardShift`, whatever their timestamps and sequences.
   */
  lemma ShardsDiffer(t1: int, s1: nat, q1: nat, t2: int, s2: nat, q2: nat)
    requires s1 <= MaxShard && q1 <= MaxSeq
    requires s2 <= MaxShard && q2 <= MaxSeq
    requires s1 != s2
    ensures Pack(t1, s1, q1) / SeqModulus != Pack(t2, s2, q2) / SeqModulus
  {
    UnpackPack(t1, s1, q1);
    UnpackPack(t2, s2, q2);
  }
}
