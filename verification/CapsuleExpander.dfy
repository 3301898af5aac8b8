// The fixed-point expander: two consecutive capsules become 32 measurement nodes.
// Angles carry 3, 6, 8 or 16 fractional bits, as their names say.
module CapsuleExpander {
  import opened Bytes
  import opened LidarFrames
  import opened FrameParser

  const FULL_TURN_Q6: int := 360 * 0x40
  const FULL_TURN_Q16: int := 360 * 0x1_0000
  const NODES_PER_CAPSULE: nat := 2 * CABIN_COUNT

  /** The device's contract: a start angle lies within one turn. The 15-bit field allows more. */
  predicate ValidStart(c: Capsule) { c.StartQ6() < FULL_TURN_Q6 }

  /** The remainder of C: it takes the sign of the dividend. */
  function TruncatedRem(a: int, b: int): int
    requires b > 0
  {
    if a >= 0 then a % b else -(-a % b)
  }

  // ----- the expansion -----

  function DiffAngleQ8(prev: Capsule, cur: Capsule): int {
    var diff := 4 * cur.StartQ6() - 4 * prev.StartQ6();
    if prev.StartQ6() > cur.StartQ6() then diff + 360 * 0x100 else diff
  }

  function AngleIncQ16(prev: Capsule, cur: Capsule): int { 8 * DiffAngleQ8(prev, cur) }

  /** The raw angle before sample `k`, not reduced modulo a turn. */
  function RawAngleQ16(prev: Capsule, cur: Capsule, k: nat): int {
    0x400 * prev.StartQ6() + k * AngleIncQ16(prev, cur)
  }

  predicate SyncBit(prev: Capsule, cur: Capsule, k: nat) {
    var inc := AngleIncQ16(prev, cur);
    TruncatedRem(RawAngleQ16(prev, cur, k) + inc, FULL_TURN_Q16) < inc
  }

  function DistanceAngle(c: Cabin, second: bool): u16 {
    if second then c.distanceAngle2 else c.distanceAngle1
  }

  function OffsetQ3(c: Cabin, second: bool): (offset: nat)
    ensures offset < 0x40
  {
    (if second then c.offsetAnglesQ3 / 0x10 else c.offsetAnglesQ3 % 0x10) + 0x10 * (DistanceAngle(c, second) % 4)
  }

  function DistanceQ2(c: Cabin, second: bool): u16 {
    DistanceAngle(c, second) - DistanceAngle(c, second) % 4
  }

  function UncorrectedQ6(rawQ16: int, offsetQ3: nat): int { (rawQ16 - 0x2000 * offsetQ3) / 0x400 }

  /** The single correction by one turn, upwards and then downwards. */
  function CorrectedQ6(angleQ6: int): int {
    var up := if angleQ6 < 0 then angleQ6 + FULL_TURN_Q6 else angleQ6;
    if up >= FULL_TURN_Q6 then up - FULL_TURN_Q6 else up
  }

  /** A node's fields; the angle is truncated to its 16-bit field. */
  function MakeNode(sync: bool, distanceQ2: u16, angleQ6: int): Node {
    Node((if sync then 1 else 2) + (if distanceQ2 != 0 then 4 * 0x2F else 0),
         (1 + 2 * angleQ6) % 0x1_0000,
         distanceQ2)
  }

  function ExpandedNode(prev: Capsule, cur: Capsule, k: nat): Node
    requires k < NODES_PER_CAPSULE
  {
    var cabin, second := prev.cabins[k / 2], k % 2 == 1;
    MakeNode(SyncBit(prev, cur, k),
             DistanceQ2(cabin, second),
             CorrectedQ6(UncorrectedQ6(RawAngleQ16(prev, cur, k), OffsetQ3(cabin, second))))
  }

  function Expand(prev: Capsule, cur: Capsule): (nodes: seq<Node>)
    ensures |nodes| == NODES_PER_CAPSULE
  {
    seq(NODES_PER_CAPSULE, k requires 0 <= k < NODES_PER_CAPSULE => ExpandedNode(prev, cur, k))
  }

  // ----- the cabin fields -----

  /** How the device packs two samples: 14-bit distances in quarter millimetres with the low two
      bits clear, and 6-bit offsets split over the low distance bits and a nibble each. */
  function PackCabin(distance1: u16, offset1: nat, distance2: u16, offset2: nat): Cabin
    requires distance1 % 4 == 0 && distance2 % 4 == 0 && offset1 < 0x40 && offset2 < 0x40
  {
    Cabin(distance1 + offset1 / 0x10, distance2 + offset2 / 0x10, offset1 % 0x10 + 0x10 * (offset2 % 0x10))
  }

  /** The expander unpacks exactly what was packed. */
  lemma CabinUnpacks(distance1: u16, offset1: nat, distance2: u16, offset2: nat)
    requires distance1 % 4 == 0 && distance2 % 4 == 0 && offset1 < 0x40 && offset2 < 0x40
    ensures var c := PackCabin(distance1, offset1, distance2, offset2);
            && DistanceQ2(c, false) == distance1 && OffsetQ3(c, false) == offset1
            && DistanceQ2(c, true) == distance2 && OffsetQ3(c, true) == offset2
  {
    assert (distance1 + offset1 / 0x10) % 4 == offset1 / 0x10;
    assert (distance2 + offset2 / 0x10) % 4 == offset2 / 0x10;
  }

  // ----- no drift, no overflow -----

  function Wraps(prev: Capsule, cur: Capsule): int {
    if prev.StartQ6() > cur.StartQ6() then 1 else 0
  }

  /** Thirty-two increments land exactly on the next capsule's start angle, one turn on if the
      start angle decreased: nothing is lost to rounding. */
  lemma NoDrift(prev: Capsule, cur: Capsule)
    ensures RawAngleQ16(prev, cur, 32) == 0x400 * cur.StartQ6() + FULL_TURN_Q16 * Wraps(prev, cur)
    ensures 32 * AngleIncQ16(prev, cur) == 0x100 * DiffAngleQ8(prev, cur)
  {
  }

  predicate Int32(x: int) { -0x8000_0000 <= x < 0x8000_0000 }

  /** Whatever the capsules hold, no intermediate value leaves the 32-bit range. */
  lemma NoOverflow(prev: Capsule, cur: Capsule, k: nat, offsetQ3: nat)
    requires k < NODES_PER_CAPSULE && offsetQ3 < 0x40
    ensures Int32(DiffAngleQ8(prev, cur)) && Int32(AngleIncQ16(prev, cur))
    ensures Int32(RawAngleQ16(prev, cur, k)) && Int32(RawAngleQ16(prev, cur, k + 1))
    ensures Int32(RawAngleQ16(prev, cur, k) - 0x2000 * offsetQ3)
  {
    RawAngleBounds(prev, cur, k);
    RawAngleBounds(prev, cur, k + 1);
  }

  lemma MultipleBounds(inc: int, k: nat)
    requires k <= 32
    ensures if inc >= 0 then 0 <= k * inc <= 32 * inc else 32 * inc <= k * inc <= 0
  {
  }

  lemma NextMultiple(inc: int, k: nat)
    ensures (k + 1) * inc == k * inc + inc
  {
  }

  lemma RawAngleBounds(prev: Capsule, cur: Capsule, k: nat)
    requires k <= 32
    ensures var inc, start := AngleIncQ16(prev, cur), 0x400 * prev.StartQ6();
            if inc >= 0 then start <= RawAngleQ16(prev, cur, k) <= start + 32 * inc
            else start + 32 * inc <= RawAngleQ16(prev, cur, k) <= start
    ensures RawAngleQ16(prev, cur, k + 1) == RawAngleQ16(prev, cur, k) + AngleIncQ16(prev, cur)
  {
    MultipleBounds(AngleIncQ16(prev, cur), k);
    NextMultiple(AngleIncQ16(prev, cur), k);
  }

  lemma RawAngleMonotonic(prev: Capsule, cur: Capsule, j: nat, k: nat)
    requires j <= k && AngleIncQ16(prev, cur) >= 0
    ensures RawAngleQ16(prev, cur, j) <= RawAngleQ16(prev, cur, k)
  {
    var inc := AngleIncQ16(prev, cur);
    assert j * inc <= k * inc;
  }

  // ----- the computed sync bit -----

  lemma IncBounds(prev: Capsule, cur: Capsule)
    requires ValidStart(prev) && ValidStart(cur)
    ensures 0 <= AngleIncQ16(prev, cur) < FULL_TURN_Q16
  {
  }

  lemma EmittedSync(prev: Capsule, cur: Capsule, k: nat)
    requires k < NODES_PER_CAPSULE
    ensures ExpandedNode(prev, cur, k).IsSync() == SyncBit(prev, cur, k)
  {
    hide SyncBit, CorrectedQ6, UncorrectedQ6, RawAngleQ16, DistanceQ2, OffsetQ3;
  }

  /** The distance goes through unchanged. */
  lemma EmittedDistance(prev: Capsule, cur: Capsule, k: nat)
    requires k < NODES_PER_CAPSULE
    ensures ExpandedNode(prev, cur, k).distanceQ2 == DistanceQ2(prev.cabins[k / 2], k % 2 == 1)
  {
    hide SyncBit, CorrectedQ6, UncorrectedQ6, RawAngleQ16, DistanceQ2, OffsetQ3;
  }

  /** A sample's sync bit is set exactly when the next raw angle is the first in a new turn. */
  lemma SyncBitIsTurnChange(prev: Capsule, cur: Capsule, k: nat)
    requires ValidStart(prev) && ValidStart(cur) && k < NODES_PER_CAPSULE
    ensures var turn := RawAngleQ16(prev, cur, k) / FULL_TURN_Q16;
            RawAngleQ16(prev, cur, k + 1) / FULL_TURN_Q16 == if SyncBit(prev, cur, k) then turn + 1 else turn
    ensures ExpandedNode(prev, cur, k).IsSync() == SyncBit(prev, cur, k)
  {
    EmittedSync(prev, cur, k);
    RawAngleBounds(prev, cur, k);
    IncBounds(prev, cur);
    hide RawAngleQ16, AngleIncQ16, ExpandedNode, TruncatedRem;
    TurnChange(RawAngleQ16(prev, cur, k), AngleIncQ16(prev, cur));
  }

  lemma TurnChange(x: int, inc: int)
    requires 0 <= x && 0 <= inc < FULL_TURN_Q16
    ensures (x + inc) / FULL_TURN_Q16 ==
            if TruncatedRem(x + inc, FULL_TURN_Q16) < inc then x / FULL_TURN_Q16 + 1 else x / FULL_TURN_Q16
  {
  }

  // ----- the emitted angle -----

  /** Within one turn, and congruent to the uncorrected angle. */
  predicate Normalised(angleQ6: int, uncorrectedQ6: int) {
    0 <= angleQ6 < FULL_TURN_Q6 && angleQ6 % FULL_TURN_Q6 == uncorrectedQ6 % FULL_TURN_Q6
  }

  lemma OneCorrectionIff(angleQ6: int)
    ensures Normalised(CorrectedQ6(angleQ6), angleQ6) <==> -FULL_TURN_Q6 <= angleQ6 < 2 * FULL_TURN_Q6
  {
  }

  /** One correction is enough for every sample and every offset the cabins could carry exactly
      when the last raw angle stays below two turns. */
  lemma CorrectionSufficesIff(prev: Capsule, cur: Capsule)
    ensures (forall k: nat, offset: nat | k < NODES_PER_CAPSULE && offset < 0x40 ::
               var q6 := UncorrectedQ6(RawAngleQ16(prev, cur, k), offset);
               Normalised(CorrectedQ6(q6), q6))
            <==> RawAngleQ16(prev, cur, 31) < 2 * FULL_TURN_Q16
  {
    var last := UncorrectedQ6(RawAngleQ16(prev, cur, 31), 0);
    if RawAngleQ16(prev, cur, 31) < 2 * FULL_TURN_Q16 {
      forall k: nat, offset: nat | k < NODES_PER_CAPSULE && offset < 0x40
        ensures var q6 := UncorrectedQ6(RawAngleQ16(prev, cur, k), offset); Normalised(CorrectedQ6(q6), q6)
      {
        RawAngleBounds(prev, cur, k);
        if AngleIncQ16(prev, cur) >= 0 {
          RawAngleMonotonic(prev, cur, k, 31);
        }
        OneCorrectionIff(UncorrectedQ6(RawAngleQ16(prev, cur, k), offset));
      }
    } else {
      OneCorrectionIff(last);
    }
  }

  /** Start angles within one turn are enough for that. */
  lemma ValidStartsSuffice(prev: Capsule, cur: Capsule)
    requires ValidStart(prev) && ValidStart(cur)
    ensures RawAngleQ16(prev, cur, 31) < 2 * FULL_TURN_Q16
  {
    RawAngleBounds(prev, cur, 31);
  }

  lemma PackedAngle(angleQ6: int)
    requires 0 <= angleQ6 < 0x8000
    ensures (1 + 2 * angleQ6) % 0x1_0000 / 2 == angleQ6
  {
  }

  /** Every emitted node holds the normalised angle in its angle field, with the check bit set. */
  lemma EmittedAngle(prev: Capsule, cur: Capsule, k: nat)
    requires ValidStart(prev) && ValidStart(cur) && k < NODES_PER_CAPSULE
    ensures var n := ExpandedNode(prev, cur, k);
            var offset := OffsetQ3(prev.cabins[k / 2], k % 2 == 1);
            n.CheckBit() == 1 && Normalised(n.AngleQ6(), UncorrectedQ6(RawAngleQ16(prev, cur, k), offset))
  {
    ValidStartsSuffice(prev, cur);
    CorrectionSufficesIff(prev, cur);
    hide RawAngleQ16, UncorrectedQ6, CorrectedQ6, OffsetQ3, SyncBit, DistanceQ2;
    var q6 := UncorrectedQ6(RawAngleQ16(prev, cur, k), OffsetQ3(prev.cabins[k / 2], k % 2 == 1));
    assert Normalised(CorrectedQ6(q6), q6);
    PackedAngle(CorrectedQ6(q6));
  }

  /** Out-of-range start angles can leave an emitted angle at a full turn or more. */
  lemma LargeStartEscapes(prev: Capsule, cur: Capsule)
    requires prev.StartQ6() == 0x7FFF && cur.StartQ6() == 0x7FFE
    requires OffsetQ3(prev.cabins[15], true) == 0
    ensures ExpandedNode(prev, cur, 31).AngleQ6() >= FULL_TURN_Q6
  {
  }

  // ----- the emitted fields -----

  /** Whatever the start angles, a sample with a distance gets full quality and one without gets none. */
  lemma EmittedQuality(prev: Capsule, cur: Capsule, k: nat)
    requires k < NODES_PER_CAPSULE
    ensures var n := Expand(prev, cur)[k];
            n.syncQuality / 4 == (if n.distanceQ2 == 0 then 0 else 0x2F) && n.syncQuality % 4 == if n.IsSync() then 1 else 2
  {
    hide SyncBit, CorrectedQ6, UncorrectedQ6, RawAngleQ16, DistanceQ2, OffsetQ3;
  }

  lemma AngleShift(start: int, steps: int, offset: int)
    ensures (0x400 * start + 0x20 * steps - 0x2000 * offset) / 0x400 == start - 8 * offset + steps / 32
  {
    var q, r := steps / 32, steps % 32;
    assert 0x400 * start + 0x20 * steps - 0x2000 * offset == 0x400 * (start - 8 * offset + q) + 0x20 * r;
  }

  lemma RawAngleInSteps(prev: Capsule, cur: Capsule, k: nat)
    ensures var from: int, to: int := prev.StartQ6(), cur.StartQ6();
            var travel: int := to - from + if from > to then 23040 else 0;
            RawAngleQ16(prev, cur, k) == 0x400 * from + 0x20 * (k * travel)
  {
    var from: int, to: int := prev.StartQ6(), cur.StartQ6();
    var travel: int := to - from + if from > to then 23040 else 0;
    assert AngleIncQ16(prev, cur) == 0x20 * travel;
    ThirtyTwoTimes(k, travel);
    hide AngleIncQ16;
  }

  lemma ThirtyTwoTimes(k: int, x: int)
    ensures k * (0x20 * x) == 0x20 * (k * x)
  {
  }

  lemma EmittedAngleField(prev: Capsule, cur: Capsule, k: nat)
    requires ValidStart(prev) && ValidStart(cur) && k < NODES_PER_CAPSULE
    ensures var from, to := prev.StartQ6(), cur.StartQ6();
            var travel: int := to - from + if from > to then 23040 else 0;
            var offset := OffsetQ3(prev.cabins[k / 2], k % 2 == 1);
            ExpandedNode(prev, cur, k).angleQ6Checkbit == 2 * ((from - 8 * offset + k * travel / 32) % 23040) + 1
  {
    var from, to := prev.StartQ6(), cur.StartQ6();
    var travel: int := to - from + if from > to then 23040 else 0;
    var offset := OffsetQ3(prev.cabins[k / 2], k % 2 == 1);
    EmittedAngle(prev, cur, k);
    RawAngleInSteps(prev, cur, k);
    hide RawAngleQ16, OffsetQ3, ExpandedNode, ValidStart;
    AngleShift(from, k * travel, offset);
    var x := from - 8 * offset + k * travel / 32;
    assert UncorrectedQ6(RawAngleQ16(prev, cur, k), offset) == x;
    NormalisedIsRemainder(ExpandedNode(prev, cur, k).AngleQ6(), x);
  }

  lemma NormalisedIsRemainder(angleQ6: int, x: int)
    requires Normalised(angleQ6, x)
    ensures angleQ6 == x % 23040
  {
  }

  lemma CrossingIff(x: int, y: int, sync: bool)
    requires 0 <= x <= y < 2 * 32 * 23040
    requires 0x20 * y / FULL_TURN_Q16 == if sync then 0x20 * x / FULL_TURN_Q16 + 1 else 0x20 * x / FULL_TURN_Q16
    ensures sync <==> x < 32 * 23040 <= y
  {
  }

  lemma EmittedSyncField(prev: Capsule, cur: Capsule, k: nat)
    requires ValidStart(prev) && ValidStart(cur) && k < NODES_PER_CAPSULE
    ensures var from, to := prev.StartQ6(), cur.StartQ6();
            var travel: int := to - from + if from > to then 23040 else 0;
            ExpandedNode(prev, cur, k).IsSync() <==> 32 * from + k * travel < 32 * 23040 <= 32 * from + (k + 1) * travel
  {
    var from, to := prev.StartQ6(), cur.StartQ6();
    var travel: int := to - from + if from > to then 23040 else 0;
    SyncBitIsTurnChange(prev, cur, k);
    RawAngleInSteps(prev, cur, k);
    RawAngleInSteps(prev, cur, k + 1);
    assert 0 <= travel && from + travel < 2 * 23040;
    hide RawAngleQ16, ExpandedNode, SyncBit, ValidStart;
    MultipleBounds(travel, k);
    MultipleBounds(travel, k + 1);
    NextMultiple(travel, k);
    CrossingIff(32 * from + k * travel, 32 * from + (k + 1) * travel, SyncBit(prev, cur, k));
  }

  /** The whole expansion, in the fields of the two capsules. Sample `k` is `k` parts in 32 of the way
      from one start angle to the next, less its own offset of eight parts in q6; its sync bit says
      that the full turn lies between this sample and the next. */
  lemma ExpandedFields(prev: Capsule, cur: Capsule, k: nat)
    requires prev.StartQ6() < 23040 && cur.StartQ6() < 23040 && k < 32
    ensures var n, from, to, cabin := Expand(prev, cur)[k], prev.StartQ6(), cur.StartQ6(), prev.cabins[k / 2];
            var travel: int := to - from + if from > to then 23040 else 0;
            var first := k % 2 == 0;
            var word := if first then cabin.distanceAngle1 else cabin.distanceAngle2;
            var offset := (if first then cabin.offsetAnglesQ3 % 0x10 else cabin.offsetAnglesQ3 / 0x10) + 0x10 * (word % 4);
            && n.distanceQ2 == word / 4 * 4
            && n.angleQ6Checkbit == 2 * ((from - 8 * offset + k * travel / 32) % 23040) + 1
            && n.syncQuality == (if word < 4 then 0 else 0xBC) +
                 if 32 * from + k * travel < 32 * 23040 <= 32 * from + (k + 1) * travel then 1 else 2
  {
    EmittedQuality(prev, cur, k);
    EmittedDistance(prev, cur, k);
    EmittedAngleField(prev, cur, k);
    EmittedSyncField(prev, cur, k);
    hide ExpandedNode;
  }

  // ----- the emitted node as a frame -----

  lemma ParityShift(k: int, r: int)
    ensures (2 * k + r) % 2 == r % 2
  {
  }

  lemma OddLowByte(angleQ6: int)
    ensures (1 + 2 * angleQ6) % 0x1_0000 % 0x100 % 2 == 1
  {
    var x := 1 + 2 * angleQ6;
    var q, y := x / 0x1_0000, x % 0x1_0000;
    ParityShift(angleQ6, 1);
    ParityShift(0x8000 * q, y);
    assert x == 2 * (0x8000 * q) + y;
    var p, z := y / 0x100, y % 0x100;
    ParityShift(0x80 * p, z);
    assert y == 2 * (0x80 * p) + z;
  }

  lemma MadeNodeAccepted(sync: bool, distanceQ2: u16, angleQ6: int)
    ensures var frame := EncodeNode(MakeNode(sync, distanceQ2, angleQ6));
            MeasurementFrame.Accepts(0, frame[0]) && MeasurementFrame.Accepts(1, frame[1])
  {
    OddLowByte(angleQ6);
  }

  /** Serialised, an emitted node passes the node parser and decodes to itself. */
  lemma EmittedNodeParses(prev: Capsule, cur: Capsule, k: nat, rest: seq<byte>)
    requires k < NODES_PER_CAPSULE
    ensures var n := ExpandedNode(prev, cur, k);
            var frame := EncodeNode(n);
            ParseFrom(MeasurementFrame, [], frame + rest) == Complete(frame, rest) && DecodeNode(frame) == n
  {
    var n := ExpandedNode(prev, cur, k);
    var frame := EncodeNode(n);
    var cabin, second := prev.cabins[k / 2], k % 2 == 1;
    MadeNodeAccepted(SyncBit(prev, cur, k), DistanceQ2(cabin, second),
                     CorrectedQ6(UncorrectedQ6(RawAngleQ16(prev, cur, k), OffsetQ3(cabin, second))));
    assert [] + frame == frame;
    ParseFrame(MeasurementFrame, [], frame, rest);
    NodeRoundTrip(n);
  }
}
