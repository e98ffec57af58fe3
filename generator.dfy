/**
 * The identifier generator of instauuid.go: a `Generator` object owning a
 * shard ID and an epoch, whose `GenerateID` updates `lastTimestamp` and
 * `sequence` in place, and the helpers that render a fresh identifier as
 * bytes, hex or base64.
 *
 * Each call is one atomic step (the mutex of the source is not modelled).
 * The clock is an input: `now` is the reading `GenerateID` takes first, and
 * `later` the readings its wait loop takes, in order (see module Sequencer).
 */
module Instauuid {
  import opened Wrappers
  import opened IdLayout
  import opened Sequencer
  import ByteOrder
  import Hex
  import Base64

  type uint32 = x: int | 0 <= x < 0x1_0000_0000
  type int64 = x: int | -0x8000_0000_0000_0000 <= x < 0x8000_0000_0000_0000

  /** Why `NewGenerator` refuses to build a generator. */
  datatype Error = ShardIDExceedsMax(maxShard: nat)

  class Generator {
    var epoch: int
    var lastTimestamp: int
    var sequence: nat
    var shardID: nat

    /** The shard ID fits in 13 bits, the sequence in 10, the last timestamp in 41. */
    ghost predicate Valid()
      reads this
    {
      shardID <= MaxShard && ValidState(Current())
    }

    /** The pair `GenerateID` updates. */
    function Current(): State
      reads this
    {
      State(lastTimestamp, sequence)
    }

    /** The struct literal of `NewGenerator`, once the shard ID is known to be in range. */
    constructor (shardID: uint32, epoch: int64)
      requires shardID <= MaxShard
      ensures Valid()
      ensures this.shardID == shardID
      ensures this.epoch == (if epoch == 0 then InstagramEpoch else epoch)
      ensures lastTimestamp == 0 && sequence == 0
    {
      this.epoch := if epoch == 0 then InstagramEpoch else epoch;
      this.lastTimestamp := 0;
      this.sequence := 0;
      this.shardID := shardID;
    }

    /**
     * `waitNextMillis`: reads the clock until it is past `last` and returns
     * that reading, relative to the epoch.
     */
    method WaitNextMillis(last: int, later: seq<int>) returns (timestamp: int)
      requires Arrives(later, epoch, last)
      ensures timestamp > last
      ensures timestamp == NextMillis(later, epoch, last)
    {
      var k := 0;
      timestamp := later[k] - epoch;
      while timestamp <= last
        invariant k <= FirstAfter(later, epoch, last)
        invariant timestamp == later[k] - epoch
        decreases FirstAfter(later, epoch, last) - k
      {
        k := k + 1;
        timestamp := later[k] - epoch;
      }
    }

    /**
     * One `GenerateID` call: the decision step moves (lastTimestamp, sequence)
     * strictly forward, and the identifier packs the new pair with the shard ID.
     */
    method GenerateID(now: int, later: seq<int>) returns (id: nat)
      requires Valid()
      requires Enabled(Current(), epoch, Reading(now, later))
      requires InRange(epoch, Reading(now, later))
      modifies this`lastTimestamp, this`sequence
      ensures Valid()
      ensures Current() == Next(old(Current()), epoch, Reading(now, later))
      ensures Precedes(old(Current()), Current())
      ensures id == Pack(lastTimestamp, shardID, sequence)
      ensures id < Uint64Limit && id == lastTimestamp * TimeUnit + shardID * SeqModulus + sequence
    {
      var timestamp := now - epoch;
      if timestamp == lastTimestamp {
        sequence := (sequence + 1) % SeqModulus;
        if sequence == 0 {
          timestamp := WaitNextMillis(timestamp, later);
        }
      } else if timestamp > lastTimestamp {
        sequence := 0;
      } else {
        timestamp := WaitNextMillis(lastTimestamp, later);
      }
      NextAdvances(old(Current()), epoch, Reading(now, later));
      lastTimestamp := timestamp;
      id := Pack(timestamp, shardID, sequence);
      PackExact(timestamp, shardID, sequence);
    }

    /** `GenerateBufferBE`: a fresh identifier as eight big-endian bytes. */
    method GenerateBufferBE(now: int, later: seq<int>) returns (buf: seq<ByteOrder.Byte>)
      requires Valid()
      requires Enabled(Current(), epoch, Reading(now, later))
      requires InRange(epoch, Reading(now, later))
      modifies this`lastTimestamp, this`sequence
      ensures Valid()
      ensures Current() == Next(old(Current()), epoch, Reading(now, later))
      ensures |buf| == 8 && ByteOrder.FromBigEndian(buf) == Pack(lastTimestamp, shardID, sequence)
    {
      var id := GenerateID(now, later);
      buf := ByteOrder.PutUint64BE(id);
    }

    /** `GenerateBuffer`: a fresh identifier as eight little-endian bytes. */
    method GenerateBuffer(now: int, later: seq<int>) returns (buf: seq<ByteOrder.Byte>)
      requires Valid()
      requires Enabled(Current(), epoch, Reading(now, later))
      requires InRange(epoch, Reading(now, later))
      modifies this`lastTimestamp, this`sequence
      ensures Valid()
      ensures Current() == Next(old(Current()), epoch, Reading(now, later))
      ensures |buf| == 8 && ByteOrder.FromLittleEndian(buf) == Pack(lastTimestamp, shardID, sequence)
      ensures ByteOrder.Reverse(buf) == ByteOrder.PutUint64BE(Pack(lastTimestamp, shardID, sequence))
    {
      var id := GenerateID(now, later);
      buf := ByteOrder.PutUint64LE(id);
    }

    /** `GenerateHex`: a fresh identifier as 16 lowercase hex digits of its big-endian bytes. */
    method GenerateHex(now: int, later: seq<int>) returns (s: string)
      requires Valid()
      requires Enabled(Current(), epoch, Reading(now, later))
      requires InRange(epoch, Reading(now, later))
      modifies this`lastTimestamp, this`sequence
      ensures Valid()
      ensures Current() == Next(old(Current()), epoch, Reading(now, later))
      ensures |s| == 16 && forall i :: 0 <= i < |s| ==> Hex.IsLowerHexDigit(s[i])
      ensures Hex.Decode(s) == Some(ByteOrder.PutUint64BE(Pack(lastTimestamp, shardID, sequence)))
    {
      var id := GenerateID(now, later);
      var buf := ByteOrder.PutUint64BE(id);
      s := Hex.Encode(buf);
      Hex.DecodeEncode(buf);
    }

    /** `GenerateBase64`: a fresh identifier as 11 base64url characters of its big-endian bytes. */
    method GenerateBase64(now: int, later: seq<int>) returns (s: string)
      requires Valid()
      requires Enabled(Current(), epoch, Reading(now, later))
      requires InRange(epoch, Reading(now, later))
      modifies this`lastTimestamp, this`sequence
      ensures Valid()
      ensures Current() == Next(old(Current()), epoch, Reading(now, later))
      ensures |s| == 11 && Base64.Canonical(s)
      ensures Base64.Decode(s) == Some(ByteOrder.PutUint64BE(Pack(lastTimestamp, shardID, sequence)))
    {
      var id := GenerateID(now, later);
      var buf := ByteOrder.PutUint64BE(id);
      s := Base64.Encode(buf);
      Base64.DecodeEncode(buf);
    }
  }

  /**
   * `NewGenerator`: refuses a shard ID above 8191 (the source panics), and
   * otherwise builds a generator with that shard ID, the given epoch or the
   * default one in place of 0, and a zero timestamp and sequence.
   */
  method NewGenerator(shardID: uint32, epoch: int64) returns (r: Result<Generator, Error>)
    ensures r.Err? <==> shardID > MaxShard
    ensures r.Err? ==> r.error == ShardIDExceedsMax(MaxShard)
    ensures r.Ok? ==> (fresh(r.value) && r.value.Valid()
      && r.value.shardID == shardID
      && r.value.epoch == (if epoch == 0 then InstagramEpoch else epoch)
      && r.value.lastTimestamp == 0 && r.value.sequence == 0)
  {
    if shardID > MaxShard {
      return Err(ShardIDExceedsMax(MaxShard));
    }
    var g := new Generator(shardID, epoch);
    return Ok(g);
  }
}
