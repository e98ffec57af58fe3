/**
 * The decision step of `GenerateID` (instauuid.go, lines 55-68) as a pure
 * function on the generator's mutable pair (lastTimestamp, sequence), and
 * what follows for a run of successive calls.
 *
 * The wall clock is an input. A call sees one reading `now` (line 55) and,
 * should it have to wait for a later millisecond, the readings `later` that
 * `waitNextMillis` takes one after another (lines 78 and 81). Readings are
 * Unix milliseconds; the generator subtracts its epoch from each.
 */
module Sequencer {
  import opened IdLayout

  /** The part of a generator that `GenerateID` changes. */
  datatype State = State(lastTimestamp: int, sequence: nat)

  /** The clock readings one call observes. */
  datatype Reading = Reading(now: int, later: seq<int>)

  /** The sequence fits in 10 bits and the timestamp in 41. */
  predicate ValidState(s: State) {
    0 <= s.lastTimestamp < TimestampLimit && s.sequence <= MaxSeq
  }

  /** Lexicographic order on (lastTimestamp, sequence). */
  predicate Precedes(a: State, b: State) {
    a.lastTimestamp < b.lastTimestamp
    || (a.lastTimestamp == b.lastTimestamp && a.sequence < b.sequence)
  }

  /** Some later reading, relative to `epoch`, is past `bound`. */
  predicate Arrives(later: seq<int>, epoch: int, bound: int) {
    exists i :: 0 <= i < |later| && later[i] - epoch > bound
  }

  /** The position of the first later reading that is past `bound`: where the wait loop stops. */
  function FirstAfter(later: seq<int>, epoch: int, bound: int): (i: nat)
    requires Arrives(later, epoch, bound)
    ensures i < |later| && later[i] - epoch > bound
    ensures forall j :: 0 <= j < i ==> later[j] - epoch <= bound
    decreases |later|
  {
    if later[0] - epoch > bound then 0
    else
      assert Arrives(later[1..], epoch, bound) by {
        var i :| 0 <= i < |later| && later[i] - epoch > bound;
        assert later[1..][i - 1] == later[i];
      }
      1 + FirstAfter(later[1..], epoch, bound)
  }

  /** The timestamp `waitNextMillis(bound)` returns. */
  function NextMillis(later: seq<int>, epoch: int, bound: int): (t: int)
    requires Arrives(later, epoch, bound)
    ensures t > bound
  {
    later[FirstAfter(later, epoch, bound)] - epoch
  }

  /**
   * The call has to wait: either the 1024 sequence numbers of the current
   * millisecond are used up, or the clock reads earlier than the last
   * timestamp.
   */
  predicate MustWait(s: State, timestamp: int) {
    (timestamp == s.lastTimestamp && (s.sequence + 1) % SeqModulus == 0)
    || timestamp < s.lastTimestamp
  }

  /** A waiting call eventually sees a later millisecond. */
  predicate Enabled(s: State, epoch: int, r: Reading) {
    MustWait(s, r.now - epoch) ==> Arrives(r.later, epoch, s.lastTimestamp)
  }

  /** Every reading is less than 2^41 milliseconds after the epoch. */
  predicate InRange(epoch: int, r: Reading) {
    r.now - epoch < TimestampLimit
    && forall i :: 0 <= i < |r.later| ==> r.later[i] - epoch < TimestampLimit
  }

  /** The state after one `GenerateID` call that sees the readings `r`. */
  function Next(s: State, epoch: int, r: Reading): State
    requires Enabled(s, epoch, r)
  {
    var timestamp := r.now - epoch;
    if timestamp == s.lastTimestamp then
      var sequence := (s.sequence + 1) % SeqModulus;
      if sequence == 0 then State(NextMillis(r.later, epoch, timestamp), sequence)
      else State(timestamp, sequence)
    else if timestamp > s.lastTimestamp then State(timestamp, 0)
    else State(NextMillis(r.later, epoch, s.lastTimestamp), s.sequence)
  }

  /**
   * The four outcomes of the decision step: the same millisecond without and
   * with wrap-around, an advanced clock, and a regressed clock (which keeps
   * the sequence number).
   */
  lemma NextCases(s: State, epoch: int, r: Reading)
    requires ValidState(s) && Enabled(s, epoch, r)
    ensures var timestamp, s' := r.now - epoch, Next(s, epoch, r);
      && (timestamp == s.lastTimestamp && s.sequence < MaxSeq ==>
            s'.lastTimestamp == s.lastTimestamp && s'.sequence == s.sequence + 1)
      && (timestamp == s.lastTimestamp && s.sequence == MaxSeq ==>
            s'.lastTimestamp > s.lastTimestamp && s'.sequence == 0)
      && (timestamp > s.lastTimestamp ==>
            s'.lastTimestamp == timestamp && s'.sequence == 0)
      && (timestamp < s.lastTimestamp ==>
            s'.lastTimestamp > s.lastTimestamp && s'.sequence == s.sequence)
  {
  }

  /**
   * Each step keeps the state valid and moves (lastTimestamp, sequence)
   * strictly forward, so no pair is ever issued twice.
   */
  lemma NextAdvances(s: State, epoch: int, r: Reading)
    requires ValidState(s) && Enabled(s, epoch, r) && InRange(epoch, r)
    ensures ValidState(Next(s, epoch, r))
    ensures Precedes(s, Next(s, epoch, r))
  {
  }

  /** The calls can all be made: each waiting call eventually returns, and every reading is in range. */
  predicate Feasible(s: State, epoch: int, calls: seq<Reading>)
    decreases |calls|
  {
    |calls| == 0
    || (Enabled(s, epoch, calls[0]) && InRange(epoch, calls[0])
        && Feasible(Next(s, epoch, calls[0]), epoch, calls[1..]))
  }

  /** The states after each of a run of successive calls, starting from `s`. */
  function Trace(s: State, epoch: int, calls: seq<Reading>): (t: seq<State>)
    requires ValidState(s) && Feasible(s, epoch, calls)
    ensures |t| == |calls|
    ensures forall i :: 0 <= i < |t| ==> ValidState(t[i])
    ensures |t| > 0 ==> Precedes(s, t[0])
    ensures forall i :: 0 < i < |t| ==> Precedes(t[i - 1], t[i])
    decreases |calls|
  {
    if |calls| == 0 then []
    else
      var s' := Next(s, epoch, calls[0]);
      NextAdvances(s, epoch, calls[0]);
      [s'] + Trace(s', epoch, calls[1..])
  }

  lemma PrecedesTransitive(a: State, b: State, c: State)
    requires Precedes(a, b) && Precedes(b, c)
    ensures Precedes(a, c)
  {
  }

  /** Every state comes strictly after every earlier one. */
  predicate Ordered(t: seq<State>) {
    forall i, j :: 0 <= i < j < |t| ==> Precedes(t[i], t[j])
  }

  /** Every state of a run comes strictly after every earlier one. */
  lemma {:induction false} TraceOrdered(s: State, epoch: int, calls: seq<Reading>)
    requires ValidState(s) && Feasible(s, epoch, calls)
    ensures Ordered(Trace(s, epoch, calls))
    decreases |calls|
  {
    if |calls| > 0 {
      var s' := Next(s, epoch, calls[0]);
      NextAdvances(s, epoch, calls[0]);
      var t := Trace(s, epoch, calls);
      var rest := Trace(s', epoch, calls[1..]);
      TraceOrdered(s', epoch, calls[1..]);
      assert t == [s'] + rest;
      forall i, j | 0 <= i < j < |t|
        ensures Precedes(t[i], t[j])
      {
        assert t[j] == rest[j - 1];
        if i > 0 {
          assert t[i] == rest[i - 1];
        } else {
          assert t[0] == s' && Precedes(s', rest[0]);
          if j > 1 {
            PrecedesTransitive(s', rest[0], rest[j - 1]);
          }
        }
      }
    }
  }

  /** The identifiers a shard issues in the states `t`. */
  function Ids(shard: nat, t: seq<State>): (ids: seq<nat>)
    requires shard <= MaxShard
    requires forall i :: 0 <= i < |t| ==> ValidState(t[i])
    ensures |ids| == |t|
    ensures forall i :: 0 <= i < |t| ==>
      ValidState(t[i]) && ids[i] == Pack(t[i].lastTimestamp, shard, t[i].sequence)
  {
    if t == [] then [] else assert ValidState(t[0]); [Pack(t[0].lastTimestamp, shard, t[0].sequence)] + Ids(shard, t[1..])
  }

  /**
   * The identifiers of successive calls on one generator strictly increase,
   * so they are pairwise distinct; this holds from any valid starting state,
   * including one whose sequence number is already 1023.
   */
  lemma IdsIncrease(s: State, epoch: int, shard: nat, calls: seq<Reading>)
    requires shard <= MaxShard
    requires ValidState(s) && Feasible(s, epoch, calls)
    ensures var ids := Ids(shard, Trace(s, epoch, calls));
      forall i, j :: 0 <= i < j < |ids| ==> ids[i] < ids[j]
  {
    var t := Trace(s, epoch, calls);
    var ids := Ids(shard, t);
    TraceOrdered(s, epoch, calls);
    forall i, j | 0 <= i < j < |ids|
      ensures ids[i] < ids[j]
    {
      PackMonotonic(t[i].lastTimestamp, t[i].sequence, t[j].lastTimestamp, t[j].sequence, shard);
    }
  }
}
