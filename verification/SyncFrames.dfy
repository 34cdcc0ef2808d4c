/**
 Retained units on the wire: the size the primary budgets a pull with is the size the encoder writes, so
 what a pull serves always reaches the replica.
 */
module SyncFrames {
  import opened Bytes
  import opened WireSpec
  import opened WireRoundTrip
  import ClientSpec
  import WireConverse
  import SyncHistory
  import SyncPrimary

  function OnWire(u: SyncHistory.Unit): Unit {
    Unit(u.txId, u.recordType, u.lsn, u.data)
  }

  function AllOnWire(units: seq<SyncHistory.Unit>): (r: seq<Unit>)
    ensures |r| == |units|
  {
    if units == [] then [] else [OnWire(units[0])] + AllOnWire(units[1..])
  }

  /** What a unit is budgeted at is what it takes. */
  lemma UnitSize(u: SyncHistory.Unit, rest: bytes)
    ensures |PutUnit(OnWire(u), rest)| == u.EncodedLen() + |rest|
  {
    hide LE;
  }

  lemma {:induction false} BytesFromFront(units: seq<SyncHistory.Unit>)
    requires units != []
    ensures SyncHistory.EncodedBytes(units) == units[0].EncodedLen() + SyncHistory.EncodedBytes(units[1..])
    decreases |units|
  {
    var n := |units| - 1;
    if n == 0 {
      assert units[..0] == [] && units[1..] == [];
    } else {
      BytesFromFront(units[..n]);
      assert units[..n][1..] == units[1..][..n - 1];
    }
  }

  lemma {:induction false} ChunkSize(units: seq<SyncHistory.Unit>, rest: bytes)
    ensures |PutMany(PutUnit, AllOnWire(units), rest)| == SyncHistory.EncodedBytes(units) + |rest|
  {
    hide PutUnit;
    if units != [] {
      ChunkSize(units[1..], rest);
      BytesFromFront(units);
      UnitSize(units[0], PutMany(PutUnit, AllOnWire(units[1..]), rest));
      assert AllOnWire(units)[1..] == AllOnWire(units[1..]);
    }
  }

  /** Everything in the unit fits its field. */
  predicate Writable(u: SyncHistory.Unit) {
    UnitOk(OnWire(u))
  }

  lemma {:induction false} AllWritable(units: seq<SyncHistory.Unit>)
    requires forall i :: 0 <= i < |units| ==> Writable(units[i])
    ensures All(UnitOk, AllOnWire(units))
  {
    if units != [] {
      AllWritable(units[1..]);
    }
  }

  lemma ChunkFits(st: Status, units: seq<SyncHistory.Unit>, hasMore: bool)
    requires |units| <= SyncPrimary.MAX_PULL_UNITS && SyncHistory.EncodedBytes(units) <= SyncPrimary.MAX_PULL_BYTES
    requires forall i :: 0 <= i < |units| ==> Writable(units[i])
    requires StatusOk(st) && |PutStatus(st, [])| <= ClientSpec.MAX_PAYLOAD - SyncPrimary.MAX_PULL_BYTES - 5
    ensures var m := SyncPullResult(st, AllOnWire(units), hasMore);
            Framed(m) && |Payload(m)| <= ClientSpec.MAX_PAYLOAD
  {
    hide PutStatus, PutUnit, PutMany, StatusOk, UnitOk, All, Writable, LE;
    ChunkSize(units, PutBool(hasMore, []));
    AllWritable(units);
    var more := PutNumber(|units|, 4, PutMany(PutUnit, AllOnWire(units), PutBool(hasMore, [])));
    WireConverse.Nothing(more);
    WireConverse.StatusAppends(st, [], more);
  }

  /**
   A chunk within the budgets of a pull arrives unchanged in one frame, whatever follows it, as long as
   the status beside it leaves the frame its share of the payload limit.
   */
  lemma ServedChunkArrives(st: Status, units: seq<SyncHistory.Unit>, hasMore: bool, maxBytes: nat, rest: bytes)
    requires |units| <= SyncPrimary.MAX_PULL_UNITS && maxBytes <= SyncPrimary.MAX_PULL_BYTES
    requires SyncHistory.EncodedBytes(units) <= maxBytes && forall i :: 0 <= i < |units| ==> Writable(units[i])
    requires StatusOk(st) && |PutStatus(st, [])| <= ClientSpec.MAX_PAYLOAD - SyncPrimary.MAX_PULL_BYTES - 5
    ensures var m := SyncPullResult(st, AllOnWire(units), hasMore);
            TryDecode(Frame(m) + rest) == Decoded(m, |Frame(m)|)
  {
    hide PutStatus, StatusOk, Writable, Framed, Payload, TryDecode, Frame;
    ChunkFits(st, units, hasMore);
    RoundTrip(SyncPullResult(st, AllOnWire(units), hasMore), rest);
  }
}
