// The packed wire structures of the lidar: five-byte measurement nodes and 84-byte capsules.
module LidarFrames {
  import opened Bytes

  const NODE_SIZE: nat := 5
  const CAPSULE_SIZE: nat := 84
  const HEADER_SIZE: nat := 7
  const CABIN_COUNT: nat := 16

  // ----- measurement node -----

  datatype Node = Node(syncQuality: byte, angleQ6Checkbit: u16, distanceQ2: u16) {
    predicate IsSync() { syncQuality % 2 == 1 }

    function AngleQ6(): u16 { angleQ6Checkbit / 2 }

    function CheckBit(): u16 { angleQ6Checkbit % 2 }
  }

  function EncodeNode(n: Node): seq<byte> {
    [n.syncQuality, LowByte(n.angleQ6Checkbit), HighByte(n.angleQ6Checkbit),
     LowByte(n.distanceQ2), HighByte(n.distanceQ2)]
  }

  function DecodeNode(frame: seq<byte>): Node
    requires |frame| == NODE_SIZE
  {
    Node(frame[0], Word16(frame[1], frame[2]), Word16(frame[3], frame[4]))
  }

  // ----- capsule -----

  datatype Cabin = Cabin(distanceAngle1: u16, distanceAngle2: u16, offsetAnglesQ3: byte)

  datatype CapsuleData = Capsule(startAngleSyncQ6: u16, cabins: seq<Cabin>) {
    /** The start angle, without the flag in its top bit. */
    function StartQ6(): nat { startAngleSyncQ6 % 0x8000 }

    /** The flag that marks the first capsule of a measurement session. */
    predicate IsFirst() { startAngleSyncQ6 >= 0x8000 }
  }

  type Capsule = c: CapsuleData | |c.cabins| == CABIN_COUNT
    witness Capsule(0, seq(CABIN_COUNT, _ => Cabin(0, 0, 0)))

  function CabinByte(c: Cabin, i: nat): byte {
    match i
    case 0 => LowByte(c.distanceAngle1)
    case 1 => HighByte(c.distanceAngle1)
    case 2 => LowByte(c.distanceAngle2)
    case 3 => HighByte(c.distanceAngle2)
    case _ => c.offsetAnglesQ3
  }

  /** The 82 checksummed bytes: start angle, then sixteen cabins of five bytes. */
  function CapsuleBody(c: Capsule): (s: seq<byte>)
    ensures |s| == CAPSULE_SIZE - 2
  {
    seq(CAPSULE_SIZE - 2, i requires 0 <= i < CAPSULE_SIZE - 2 =>
      if i == 0 then LowByte(c.startAngleSyncQ6)
      else if i == 1 then HighByte(c.startAngleSyncQ6)
      else CabinByte(c.cabins[(i - 2) / 5], (i - 2) % 5))
  }

  /** What the device sends: two sync nibbles carrying the checksum, then the body. */
  function EncodeCapsule(c: Capsule): (s: seq<byte>)
    ensures |s| == CAPSULE_SIZE
  {
    var sum := XorAll(CapsuleBody(c));
    [0xA0 + sum % 0x10, 0x50 + sum / 0x10] + CapsuleBody(c)
  }

  function DecodeCabin(frame: seq<byte>, k: nat): Cabin
    requires |frame| == CAPSULE_SIZE && k < CABIN_COUNT
  {
    var at := 4 + 5 * k;
    Cabin(Word16(frame[at], frame[at + 1]), Word16(frame[at + 2], frame[at + 3]), frame[at + 4])
  }

  function DecodeCapsule(frame: seq<byte>): Capsule
    requires |frame| == CAPSULE_SIZE
  {
    Capsule(Word16(frame[2], frame[3]),
            seq(CABIN_COUNT, k requires 0 <= k < CABIN_COUNT => DecodeCabin(frame, k)))
  }

  /** The checksum carried in the low nibbles of the first two bytes. */
  function CarriedChecksum(frame: seq<byte>): byte
    requires |frame| == CAPSULE_SIZE
  {
    frame[0] % 0x10 + 0x10 * (frame[1] % 0x10)
  }

  predicate ChecksumMatches(frame: seq<byte>)
    requires |frame| == CAPSULE_SIZE
  {
    CarriedChecksum(frame) == XorAll(frame[2..])
  }

  // ----- where the fields lie -----

  /** The fields of a node on its five bytes: quality, sync bit; angle, check bit; distance. */
  lemma NodeFields(f: seq<byte>)
    requires |f| == 5
    ensures var n := DecodeNode(f);
            && n.syncQuality == f[0] && (n.IsSync() <==> f[0] % 2 == 1)
            && n.AngleQ6() == f[1] as int / 2 + f[2] as int * 0x80 && n.CheckBit() == f[1] % 2
            && n.distanceQ2 == f[3] as int + f[4] as int * 0x100
  {
  }

  /** The fields of a capsule on its 84 bytes: the top bit of the start angle marks the first
      capsule, and cabin `k` takes five bytes. */
  lemma CapsuleFields(f: seq<byte>, k: nat)
    requires |f| == 84 && k < 16
    ensures var c, at := DecodeCapsule(f), 4 + 5 * k;
            && c.StartQ6() == f[2] as int + f[3] as int % 0x80 * 0x100 && (c.IsFirst() <==> f[3] >= 0x80)
            && c.cabins[k] == Cabin(f[at] as int + f[at + 1] as int * 0x100, f[at + 2] as int + f[at + 3] as int * 0x100, f[at + 4])
  {
  }

  /** The checksum on them: its low nibble first. */
  lemma ChecksumNibbles(f: seq<byte>, low: nat, high: nat)
    requires |f| == 84 && low < 0x10 && high < 0x10 && f[0] == 0xA0 + low && f[1] == 0x50 + high
    ensures ChecksumMatches(f) <==> XorAll(f[2..]) == low + 0x10 * high
  {
    hide XorAll;
  }

  // ----- round trips and error detection -----

  lemma NodeRoundTrip(n: Node)
    ensures DecodeNode(EncodeNode(n)) == n
  {
  }

  lemma CabinRoundTrip(c: Capsule, k: nat)
    requires k < CABIN_COUNT
    ensures DecodeCabin(EncodeCapsule(c), k) == c.cabins[k]
  {
    var frame, body := EncodeCapsule(c), CapsuleBody(c);
    forall j | 0 <= j < 5 ensures frame[4 + 5 * k + j] == CabinByte(c.cabins[k], j) {
      assert frame[4 + 5 * k + j] == body[2 + 5 * k + j];
      assert (5 * k + j) / 5 == k && (5 * k + j) % 5 == j;
    }
    assert frame[4 + 5 * k + 0] == CabinByte(c.cabins[k], 0);
    assert frame[4 + 5 * k + 1] == CabinByte(c.cabins[k], 1);
    assert frame[4 + 5 * k + 2] == CabinByte(c.cabins[k], 2);
    assert frame[4 + 5 * k + 3] == CabinByte(c.cabins[k], 3);
    assert frame[4 + 5 * k + 4] == CabinByte(c.cabins[k], 4);
  }

  lemma NibblesRoundTrip(sum: byte)
    ensures (0xA0 + sum % 0x10) % 0x10 + 0x10 * ((0x50 + sum / 0x10) % 0x10) == sum
  {
  }

  lemma EncodedChecksumMatches(c: Capsule)
    ensures ChecksumMatches(EncodeCapsule(c))
  {
    hide XorAll, CapsuleBody;
    var frame, body := EncodeCapsule(c), CapsuleBody(c);
    assert frame[2..] == body;
    NibblesRoundTrip(XorAll(body));
  }

  /** An encoded capsule decodes to itself. */
  lemma CapsuleRoundTrip(c: Capsule)
    ensures DecodeCapsule(EncodeCapsule(c)) == c
  {
    hide XorAll, DecodeCabin;
    var frame := EncodeCapsule(c);
    var d := DecodeCapsule(frame);
    forall k | 0 <= k < CABIN_COUNT ensures d.cabins[k] == c.cabins[k] {
      CabinRoundTrip(c, k);
    }
    assert d.cabins == c.cabins;
    assert frame[2] == CapsuleBody(c)[0] && frame[3] == CapsuleBody(c)[1];
  }

  /** Changing one byte of the body breaks a matching checksum. */
  lemma BodyErrorDetected(frame: seq<byte>, i: nat, v: byte)
    requires |frame| == CAPSULE_SIZE && ChecksumMatches(frame)
    requires 2 <= i < CAPSULE_SIZE && v != frame[i]
    ensures !ChecksumMatches(frame[i := v])
  {
    assert frame[i := v][2..] == frame[2..][i - 2 := v];
    XorAllDetects(frame[2..], i - 2, v);
  }

  /** So does changing a checksum nibble in one of the first two bytes. */
  lemma NibbleErrorDetected(frame: seq<byte>, i: nat, v: byte)
    requires |frame| == CAPSULE_SIZE && ChecksumMatches(frame)
    requires i < 2 && v % 0x10 != frame[i] % 0x10
    ensures !ChecksumMatches(frame[i := v])
  {
    assert frame[i := v][2..] == frame[2..];
  }
}
