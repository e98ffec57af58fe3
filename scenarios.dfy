/**
 * The behaviours instauuid_test.go checks, as verified clients of the
 * generator: what holds for every clock behaviour the calls allow.
 */
module Scenarios {
  import opened IdLayout
  import opened Sequencer
  import opened Instauuid

  /**
   * TestIDUniqueness: a generator for shard 1 with the default epoch issues
   * one identifier per call, each larger than all before it.
   */
  method IdUniqueness(calls: seq<Reading>) returns (ids: seq<nat>)
    requires Feasible(State(0, 0), InstagramEpoch, calls)
    ensures |ids| == |calls|
    ensures forall i, j :: 0 <= i < j < |ids| ==> ids[i] < ids[j]
  {
    var g := new Generator(1, 0);
    ids := [];
    var i := 0;
    while i < |calls|
      invariant 0 <= i <= |calls| && |ids| == i
      invariant g.Valid() && g.shardID == 1 && g.epoch == InstagramEpoch
      invariant Feasible(g.Current(), g.epoch, calls[i..])
      invariant forall a, b :: 0 <= a < b < |ids| ==> ids[a] < ids[b]
      invariant forall a :: 0 <= a < |ids| ==> ids[a] <= Pack(g.lastTimestamp, 1, g.sequence)
    {
      ghost var before := g.Current();
      assert calls[i..][1..] == calls[i + 1..];
      var id := g.GenerateID(calls[i].now, calls[i].later);
      PackMonotonic(before.lastTimestamp, before.sequence, g.lastTimestamp, g.sequence, 1);
      ids := ids + [id];
      i := i + 1;
    }
  }

  /**
   * TestSequenceOverflow: with the sequence forced to 1023, the next two
   * identifiers differ, the first of them already at a later millisecond.
   */
  method SequenceOverflow(first: Reading, second: Reading) returns (id1: nat, id2: nat)
    requires Feasible(State(0, MaxSeq), InstagramEpoch, [first, second])
    ensures id1 < id2
    ensures TimestampOf(id1) > 0
  {
    var g := new Generator(1, 0);
    g.sequence := MaxSeq;
    id1 := g.GenerateID(first.now, first.later);
    assert [first, second][1..] == [second];
    id2 := g.GenerateID(second.now, second.later);
  }

  /**
   * TestShardIDConsistency: identifiers from generators for shards 1 and 2
   * differ once shifted right by 10, whatever the clock reads for each.
   */
  method ShardIdConsistency(r1: Reading, r2: Reading) returns (id1: nat, id2: nat)
    requires Feasible(State(0, 0), InstagramEpoch, [r1])
    requires Feasible(State(0, 0), InstagramEpoch, [r2])
    ensures id1 / SeqModulus != id2 / SeqModulus
    ensures ShardOf(id1) == 1 && ShardOf(id2) == 2
  {
    var g1 := new Generator(1, 0);
    var g2 := new Generator(2, 0);
    id1 := g1.GenerateID(r1.now, r1.later);
    id2 := g2.GenerateID(r2.now, r2.later);
    ShardsDiffer(g1.lastTimestamp, 1, g1.sequence, g2.lastTimestamp, 2, g2.sequence);
    UnpackPack(g1.lastTimestamp, 1, g1.sequence);
    UnpackPack(g2.lastTimestamp, 2, g2.sequence);
  }
}
