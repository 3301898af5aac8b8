// The Alex packet codec: fixed-size packets with a magic number and an XOR checksum, reassembled
// from a byte stream that arrives in arbitrary pieces.
module PacketCodec {
  import opened Bytes

  const PACKET_SIZE: nat := 140
  const MAX_DATA_SIZE: nat := 128
  const MAGIC_NUMBER: u32 := 0xFCFD_FEFF
  const DATA_AT: nat := 8
  const CHECKSUM_AT: nat := 136

  type Packet = p: seq<byte> | |p| == PACKET_SIZE witness seq(PACKET_SIZE, _ => 0)

  // ----- one packet -----

  function MagicOf(p: Packet): u32 { Word32(p[0], p[1], p[2], p[3]) }

  function SizeOf(p: Packet): u32 { Word32(p[4], p[5], p[6], p[7]) }

  /** The packet built for `data`. The struct is not cleared first, so the bytes it does not set
      are whatever the stack held: `filler`. */
  function PacketOf(data: seq<byte>, filler: Packet): Packet
    requires |data| <= MAX_DATA_SIZE
  {
    Bytes32(MAGIC_NUMBER) + Bytes32(|data|) + data + filler[DATA_AT + |data|..CHECKSUM_AT]
    + [XorAll(data)] + filler[CHECKSUM_AT + 1..]
  }

  /** Undefined: the size field exceeds the data field, which the decoder does not test. */
  datatype Result = Incomplete | Bad | ChecksumBad | Ok(data: seq<byte>) | Undefined

  function Decode(p: Packet): Result {
    if MagicOf(p) != MAGIC_NUMBER then Bad
    else if SizeOf(p) > MAX_DATA_SIZE then Undefined
    else
      var data := p[DATA_AT..DATA_AT + SizeOf(p)];
      if XorAll(data) == p[CHECKSUM_AT] then Ok(data) else ChecksumBad
  }

  lemma PacketHeader(data: seq<byte>, filler: Packet)
    requires |data| <= MAX_DATA_SIZE
    ensures PacketOf(data, filler)[..4] == Bytes32(MAGIC_NUMBER)
    ensures PacketOf(data, filler)[4..8] == Bytes32(|data|)
  {
    hide XorAll, Bytes32;
  }

  lemma MiddlePart(a: seq<byte>, b: seq<byte>, c: seq<byte>)
    ensures (a + b + c)[|a|..|a| + |b|] == b
  {
  }

  /** The packet as header, data, and the rest, of which the checksum is the byte after a gap. */
  lemma PacketParts(data: seq<byte>, head: seq<byte>, gap: seq<byte>, sum: byte, tail: seq<byte>)
    requires |head| == DATA_AT && |data| + |gap| == MAX_DATA_SIZE
    ensures var p := head + data + gap + [sum] + tail;
            |p| > CHECKSUM_AT && p[DATA_AT..DATA_AT + |data|] == data && p[CHECKSUM_AT] == sum
  {
    var p := head + data + gap + [sum] + tail;
    assert p == head + data + (gap + [sum] + tail);
    MiddlePart(head, data, gap + [sum] + tail);
  }

  lemma PacketBody(data: seq<byte>, filler: Packet)
    requires |data| <= MAX_DATA_SIZE
    ensures PacketOf(data, filler)[DATA_AT..DATA_AT + |data|] == data
    ensures PacketOf(data, filler)[CHECKSUM_AT] == XorAll(data)
  {
    hide XorAll, Bytes32;
    PacketParts(data, Bytes32(MAGIC_NUMBER) + Bytes32(|data|), filler[DATA_AT + |data|..CHECKSUM_AT],
                XorAll(data), filler[CHECKSUM_AT + 1..]);
  }

  lemma WordAt(p: Packet, at: nat, x: u32)
    requires at + 4 <= PACKET_SIZE && p[at..at + 4] == Bytes32(x)
    ensures Word32(p[at], p[at + 1], p[at + 2], p[at + 3]) == x
  {
    hide Bytes32;
    var s := p[at..at + 4];
    assert s[0] == p[at] && s[1] == p[at + 1] && s[2] == p[at + 2] && s[3] == p[at + 3];
  }

  lemma PacketFields(data: seq<byte>, filler: Packet)
    requires |data| <= MAX_DATA_SIZE
    ensures var p := PacketOf(data, filler);
            && MagicOf(p) == MAGIC_NUMBER && SizeOf(p) == |data|
            && p[DATA_AT..DATA_AT + |data|] == data && p[CHECKSUM_AT] == XorAll(data)
  {
    hide PacketOf, XorAll, Bytes32;
    PacketHeader(data, filler);
    PacketBody(data, filler);
    WordAt(PacketOf(data, filler), 0, MAGIC_NUMBER);
    WordAt(PacketOf(data, filler), 4, |data|);
  }

  lemma SmallSize(n: u32)
    requires n <= 128
    ensures Bytes32(n) == [n, 0, 0, 0]
  {
    assert n / 0x100 == 0 && n % 0x100 == n;
  }

  /** A packet byte by byte: 140 of them, the magic number and the size least significant byte first,
      the data at 8 and the checksum at 136. */
  lemma PacketOnWire(data: seq<byte>, filler: Packet)
    requires |data| <= 128
    ensures var p := PacketOf(data, filler);
            && |p| == 140 && p[..8] == [0xFF, 0xFE, 0xFD, 0xFC, |data|, 0, 0, 0]
            && p[8..8 + |data|] == data && p[136] == XorAll(data)
  {
    PacketHeader(data, filler);
    PacketBody(data, filler);
    SmallSize(|data|);
    MagicBytes();
    hide *;
    EightBytes(PacketOf(data, filler));
    FourAndFour(0xFF, 0xFE, 0xFD, 0xFC, |data|);
  }

  lemma MagicBytes()
    ensures Bytes32(MAGIC_NUMBER) == [0xFF, 0xFE, 0xFD, 0xFC]
  {
  }

  lemma EightBytes(p: Packet)
    ensures p[..8] == p[..4] + p[4..8]
  {
  }

  lemma FourAndFour(a: byte, b: byte, c: byte, d: byte, e: byte)
    ensures [a, b, c, d] + [e, 0, 0, 0] == [a, b, c, d, e, 0, 0, 0]
  {
  }

  lemma MagicOnWire(b0: byte, b1: byte, b2: byte, b3: byte)
    ensures Word32(b0, b1, b2, b3) == MAGIC_NUMBER <==> b0 == 0xFF && b1 == 0xFE && b2 == 0xFD && b3 == 0xFC
  {
  }

  /** What any 140 bytes decode to. */
  lemma DecodeOnWire(p: Packet)
    ensures var size: int := p[4] as int + p[5] as int * 0x100 + p[6] as int * 0x1_0000 + p[7] as int * 0x100_0000;
            if p[..4] != [0xFF, 0xFE, 0xFD, 0xFC] then Decode(p) == Bad
            else if size > 128 then Decode(p) == Undefined
            else if XorAll(p[8..8 + size]) == p[136] then Decode(p) == Ok(p[8..8 + size])
            else Decode(p) == ChecksumBad
  {
    hide XorAll;
    MagicOnWire(p[0], p[1], p[2], p[3]);
    assert p[..4] == [p[0], p[1], p[2], p[3]];
  }

  /** Decoding what was encoded gives the data back, whatever filled the gaps. */
  lemma PacketRoundTrip(data: seq<byte>, filler: Packet)
    requires |data| <= MAX_DATA_SIZE
    ensures Decode(PacketOf(data, filler)) == Ok(data)
  {
    PacketFields(data, filler);
  }

  /** One wrong data byte, or a wrong checksum byte, is reported as a bad checksum. */
  lemma DataErrorDetected(data: seq<byte>, filler: Packet, i: nat, v: byte)
    requires |data| <= MAX_DATA_SIZE
    requires DATA_AT <= i < DATA_AT + |data| || i == CHECKSUM_AT
    ensures Decode(PacketOf(data, filler)[i := v]) == if v == PacketOf(data, filler)[i] then Ok(data) else ChecksumBad
  {
    hide PacketOf, XorAll;
    var p: Packet := PacketOf(data, filler);
    var q: Packet := p[i := v];
    PacketFields(data, filler);
    assert SizeOf(q) == |data|;
    if i == CHECKSUM_AT {
      assert q[DATA_AT..DATA_AT + |data|] == data;
    } else {
      assert data[i - DATA_AT] == p[DATA_AT..DATA_AT + |data|][i - DATA_AT] == p[i];
      assert q[DATA_AT..DATA_AT + |data|] == data[i - DATA_AT := v];
      XorAllDetects(data, i - DATA_AT, v);
      if v == p[i] {
        assert q == p;
      }
    }
  }

  /** A packet whose size field reads `size`. */
  function WithSize(p: Packet, size: u32): Packet { p[..4] + Bytes32(size) + p[8..] }

  lemma WithSizeFields(p: Packet, size: u32)
    ensures var q := WithSize(p, size);
            MagicOf(q) == MagicOf(p) && SizeOf(q) == size && q[DATA_AT..] == p[DATA_AT..]
  {
    hide Bytes32, Word32;
    var q := WithSize(p, size);
    assert q[..4] == p[..4];
    assert q[0] == q[..4][0] && q[1] == q[..4][1] && q[2] == q[..4][2] && q[3] == q[..4][3];
    WordAt(q, 4, size);
  }

  lemma PacketDataField(data: seq<byte>, filler: Packet)
    requires |data| <= MAX_DATA_SIZE
    ensures PacketOf(data, filler)[DATA_AT..CHECKSUM_AT] == data + filler[DATA_AT + |data|..CHECKSUM_AT]
  {
    hide XorAll, Bytes32;
    var head, gap := Bytes32(MAGIC_NUMBER) + Bytes32(|data|), filler[DATA_AT + |data|..CHECKSUM_AT];
    var tail := [XorAll(data)] + filler[CHECKSUM_AT + 1..];
    assert PacketOf(data, filler) == head + (data + gap) + tail;
    MiddlePart(head, data + gap, tail);
  }

  /** The bytes a wrong size leaves out of the checksum, or adds to it. */
  function Misread(data: seq<byte>, filler: Packet, size: nat): seq<byte>
    requires |data| <= MAX_DATA_SIZE && size <= MAX_DATA_SIZE
  {
    if size <= |data| then data[size..] else filler[DATA_AT + |data|..DATA_AT + size]
  }

  lemma TakeOfSlice(s: seq<byte>, from: nat, to: nat, n: nat)
    requires from + n <= to <= |s|
    ensures s[from..to][..n] == s[from..from + n]
  {
  }

  lemma ReadWithSize(data: seq<byte>, filler: Packet, size: nat)
    requires |data| <= MAX_DATA_SIZE && size <= MAX_DATA_SIZE
    ensures var read := PacketOf(data, filler)[DATA_AT..DATA_AT + size];
            if size <= |data| then read == data[..size] && data == read + Misread(data, filler, size)
            else read == data + Misread(data, filler, size)
  {
    hide PacketOf, XorAll;
    PacketDataField(data, filler);
    TakeOfSlice(PacketOf(data, filler), DATA_AT, CHECKSUM_AT, size);
    var field := data + filler[DATA_AT + |data|..CHECKSUM_AT];
    if size <= |data| {
      assert field[..size] == data[..size];
    } else {
      assert field[..size] == data + filler[DATA_AT + |data|..DATA_AT + size];
    }
  }

  /** A size field that reads `size` instead of the data's own size is noticed, as a bad checksum,
      exactly when the bytes misread for it have a nonzero XOR. Beyond the data field nothing tests
      it. */
  lemma SizeErrorDetectedIff(data: seq<byte>, filler: Packet, size: u32)
    requires |data| <= MAX_DATA_SIZE
    ensures Decode(WithSize(PacketOf(data, filler), size)) ==
            if size > MAX_DATA_SIZE then Undefined
            else if XorAll(Misread(data, filler, size)) != 0 then ChecksumBad
            else Ok(if size <= |data| then data[..size] else data + Misread(data, filler, size))
  {
    hide PacketOf, XorAll, WithSize, Word32, MagicOf, SizeOf, Misread;
    var p: Packet := PacketOf(data, filler);
    var q := WithSize(p, size);
    PacketFields(data, filler);
    WithSizeFields(p, size);
    if size <= MAX_DATA_SIZE {
      ReadWithSize(data, filler, size);
      assert q[CHECKSUM_AT] == q[DATA_AT..][CHECKSUM_AT - DATA_AT] == XorAll(data);
      assert q[DATA_AT..DATA_AT + size] == q[DATA_AT..][..size] == p[DATA_AT..DATA_AT + size];
      if size <= |data| {
        XorAllTailIff(q[DATA_AT..DATA_AT + size], Misread(data, filler, size));
      } else {
        XorAllTailIff(data, Misread(data, filler, size));
      }
    }
  }

  lemma WordChanges(s: seq<byte>, i: nat, v: byte)
    requires |s| == 4 && i < 4 && v != s[i]
    ensures var t := s[i := v]; Word32(t[0], t[1], t[2], t[3]) != Word32(s[0], s[1], s[2], s[3])
  {
  }

  /** One wrong byte in the magic number is reported as a bad packet. */
  lemma MagicErrorDetected(data: seq<byte>, filler: Packet, i: nat, v: byte)
    requires |data| <= MAX_DATA_SIZE && i < 4
    ensures Decode(PacketOf(data, filler)[i := v]) == if v == PacketOf(data, filler)[i] then Ok(data) else Bad
  {
    hide PacketOf, XorAll;
    var p: Packet := PacketOf(data, filler);
    var q: Packet := p[i := v];
    PacketFields(data, filler);
    if v == p[i] {
      assert q == p;
    } else {
      WordChanges(p[..4], i, v);
      assert q[..4] == p[..4][i := v];
      assert MagicOf(q) == Word32(q[..4][0], q[..4][1], q[..4][2], q[..4][3]);
    }
  }

  // ----- reassembly -----

  function Concat(parts: seq<seq<byte>>): seq<byte> {
    if parts == [] then [] else parts[0] + Concat(parts[1..])
  }

  predicate Pieces(inputs: seq<seq<byte>>) {
    forall i | 0 <= i < |inputs| :: |inputs[i]| <= PACKET_SIZE
  }

  /** The bytes held between calls never make a whole packet. */
  type Pending = s: seq<byte> | |s| < PACKET_SIZE witness []

  /** One call: at most one packet is completed, and the rest is kept for the next call. */
  datatype Feed = Feed(packet: seq<Packet>, pending: Pending)

  lemma DecodeAllConcat(ps: seq<Packet>, qs: seq<Packet>)
    ensures DecodeAll(ps + qs) == DecodeAll(ps) + DecodeAll(qs)
  {
    hide Decode;
  }

  function FeedOne(pending: Pending, input: seq<byte>): Feed
    requires |input| <= PACKET_SIZE
  {
    var total := pending + input;
    if |total| >= PACKET_SIZE then Feed([total[..PACKET_SIZE]], total[PACKET_SIZE..]) else Feed([], total)
  }

  /** The packets completed over a run of calls. */
  function Assembled(pending: Pending, inputs: seq<seq<byte>>): seq<Packet>
    requires Pieces(inputs)
    decreases |inputs|
  {
    if inputs == [] then []
    else
      var f := FeedOne(pending, inputs[0]);
      f.packet + Assembled(f.pending, inputs[1..])
  }

  function PendingAfter(pending: Pending, inputs: seq<seq<byte>>): Pending
    requires Pieces(inputs)
    decreases |inputs|
  {
    if inputs == [] then pending else PendingAfter(FeedOne(pending, inputs[0]).pending, inputs[1..])
  }

  /** A byte stream cut into packets, and what is left over. */
  function Chop(bytes: seq<byte>): seq<Packet> {
    if |bytes| < PACKET_SIZE then [] else [bytes[..PACKET_SIZE]] + Chop(bytes[PACKET_SIZE..])
  }

  function Remainder(bytes: seq<byte>): Pending {
    if |bytes| < PACKET_SIZE then bytes else Remainder(bytes[PACKET_SIZE..])
  }

  lemma ChopAfterFeed(pending: Pending, input: seq<byte>, later: seq<byte>)
    requires |input| <= PACKET_SIZE
    ensures var f := FeedOne(pending, input);
            && Chop(pending + (input + later)) == f.packet + Chop(f.pending + later)
            && Remainder(pending + (input + later)) == Remainder(f.pending + later)
  {
    var f, all := FeedOne(pending, input), pending + (input + later);
    assert all == pending + input + later;
    if f.packet != [] {
      assert all[..PACKET_SIZE] == f.packet[0];
      assert all[PACKET_SIZE..] == f.pending + later;
    }
  }

  /** However the stream is cut into pieces, the calls complete the packets of the stream, in
      order, and hold on to the rest: no byte is lost, duplicated or reordered. */
  lemma {:induction false} AssembledIsChop(pending: Pending, inputs: seq<seq<byte>>)
    requires Pieces(inputs)
    ensures Assembled(pending, inputs) == Chop(pending + Concat(inputs))
    ensures PendingAfter(pending, inputs) == Remainder(pending + Concat(inputs))
    decreases |inputs|
  {
    if inputs == [] {
      assert pending + [] == pending;
    } else {
      AssembledIsChop(FeedOne(pending, inputs[0]).pending, inputs[1..]);
      ChopAfterFeed(pending, inputs[0], Concat(inputs[1..]));
    }
  }

  lemma {:induction false} ChopIsPartition(bytes: seq<byte>)
    ensures Concat(Chop(bytes)) + Remainder(bytes) == bytes
    ensures |Chop(bytes)| == |bytes| / PACKET_SIZE
    decreases |bytes|
  {
    if |bytes| < PACKET_SIZE {
      assert [] + bytes == bytes;
    } else {
      var head, tail := bytes[..PACKET_SIZE], bytes[PACKET_SIZE..];
      ChopIsPartition(tail);
      assert Chop(bytes)[1..] == Chop(tail);
      assert head + Concat(Chop(tail)) + Remainder(tail) == head + (Concat(Chop(tail)) + Remainder(tail)) == bytes;
    }
  }

  /** Every packet is completed by the call that brings its last byte: after any number of calls
      as many packets are out as fit in the bytes received. */
  lemma CompletesInTime(pending: Pending, inputs: seq<seq<byte>>, n: nat)
    requires Pieces(inputs) && n <= |inputs|
    ensures |Assembled(pending, inputs[..n])| == (|pending| + |Concat(inputs[..n])|) / PACKET_SIZE
    ensures Concat(Assembled(pending, inputs[..n])) + PendingAfter(pending, inputs[..n]) == pending + Concat(inputs[..n])
  {
    AssembledIsChop(pending, inputs[..n]);
    ChopIsPartition(pending + Concat(inputs[..n]));
  }

  // ----- decoding a stream -----

  function ResultOf(f: Feed): Result {
    if f.packet == [] then Incomplete else Decode(f.packet[0])
  }

  /** What the calls return, one result each. */
  function Results(pending: Pending, inputs: seq<seq<byte>>): seq<Result>
    requires Pieces(inputs)
    decreases |inputs|
  {
    if inputs == [] then []
    else
      var f := FeedOne(pending, inputs[0]);
      [ResultOf(f)] + Results(f.pending, inputs[1..])
  }

  function Completed(rs: seq<Result>): seq<Result> {
    if rs == [] then [] else (if rs[0].Incomplete? then [] else [rs[0]]) + Completed(rs[1..])
  }

  function DecodeAll(packets: seq<Packet>): (rs: seq<Result>)
    ensures |rs| == |packets|
  {
    seq(|packets|, i requires 0 <= i < |packets| => Decode(packets[i]))
  }

  lemma CompletedCons(r: Result, rs: seq<Result>)
    ensures Completed([r] + rs) == (if r.Incomplete? then [] else [r]) + Completed(rs)
  {
    assert ([r] + rs)[1..] == rs;
  }

  lemma OneCallDecodes(pending: Pending, input: seq<byte>)
    requires |input| <= PACKET_SIZE
    ensures var f := FeedOne(pending, input);
            DecodeAll(f.packet) == if ResultOf(f).Incomplete? then [] else [ResultOf(f)]
  {
  }

  lemma {:induction false} CompletedIsDecoded(pending: Pending, inputs: seq<seq<byte>>)
    requires Pieces(inputs)
    ensures Completed(Results(pending, inputs)) == DecodeAll(Assembled(pending, inputs))
    decreases |inputs|
  {
    hide FeedOne, ResultOf, DecodeAll, Completed;
    if inputs == [] {
      NothingDecoded();
    } else {
      var f := FeedOne(pending, inputs[0]);
      CompletedIsDecoded(f.pending, inputs[1..]);
      CompletedCons(ResultOf(f), Results(f.pending, inputs[1..]));
      OneCallDecodes(pending, inputs[0]);
      DecodeAllConcat(f.packet, Assembled(f.pending, inputs[1..]));
    }
  }

  lemma NothingDecoded()
    ensures Completed([]) == [] && DecodeAll([]) == []
  {
  }

  lemma {:induction false} ChopOfPackets(packets: seq<Packet>)
    ensures Chop(Concat(packets)) == packets && Remainder(Concat(packets)) == []
    decreases |packets|
  {
    if packets != [] {
      var rest: seq<byte>, first: seq<byte> := Concat(packets[1..]), packets[0];
      ChopOfPackets(packets[1..]);
      assert (first + rest)[..PACKET_SIZE] == first && (first + rest)[PACKET_SIZE..] == rest;
    }
  }

  /** Any packets, fed in any pieces, are decoded one by one: what one packet holds has no effect
      on the decoding of another. */
  lemma StreamDecodes(packets: seq<Packet>, inputs: seq<seq<byte>>)
    requires Pieces(inputs) && Concat(inputs) == Concat(packets)
    ensures Completed(Results([], inputs)) == DecodeAll(packets)
    ensures PendingAfter([], inputs) == []
  {
    CompletedIsDecoded([], inputs);
    AssembledIsChop([], inputs);
    ChopOfPackets(packets);
    assert [] + Concat(inputs) == Concat(packets);
  }

  predicate Payloads(data: seq<seq<byte>>) {
    forall i | 0 <= i < |data| :: |data[i]| <= MAX_DATA_SIZE
  }

  function PacketsOf(data: seq<seq<byte>>, fillers: seq<Packet>): (ps: seq<Packet>)
    requires Payloads(data) && |fillers| == |data|
    ensures |ps| == |data|
  {
    seq(|data|, i requires 0 <= i < |data| => PacketOf(data[i], fillers[i]))
  }

  /** Every payload arrives once, in order and intact, whatever the pieces. */
  lemma StreamRoundTrip(data: seq<seq<byte>>, fillers: seq<Packet>, inputs: seq<seq<byte>>)
    requires Payloads(data) && |fillers| == |data|
    requires Pieces(inputs) && Concat(inputs) == Concat(PacketsOf(data, fillers))
    ensures Completed(Results([], inputs)) == seq(|data|, i requires 0 <= i < |data| => Ok(data[i]))
  {
    StreamDecodes(PacketsOf(data, fillers), inputs);
    forall i | 0 <= i < |data| ensures Decode(PacketsOf(data, fillers)[i]) == Ok(data[i]) {
      PacketRoundTrip(data[i], fillers[i]);
    }
  }

  /** The packets of `data`, with byte `i` of packet `k` replaced. */
  function WithError(data: seq<seq<byte>>, fillers: seq<Packet>, k: nat, i: nat, v: byte): seq<Packet>
    requires Payloads(data) && |fillers| == |data| && k < |data| && i < PACKET_SIZE
  {
    PacketsOf(data, fillers)[k := PacketsOf(data, fillers)[k][i := v]]
  }

  /** One wrong byte in the data, the checksum or the magic number of one packet costs that packet
      and no other. */
  lemma ErrorIsIsolated(data: seq<seq<byte>>, fillers: seq<Packet>, k: nat, i: nat, v: byte, inputs: seq<seq<byte>>)
    requires Payloads(data) && |fillers| == |data| && k < |data|
    requires i < 4 || DATA_AT <= i < DATA_AT + |data[k]| || i == CHECKSUM_AT
    requires Pieces(inputs) && Concat(inputs) == Concat(WithError(data, fillers, k, i, v))
    ensures var wrong := v != PacketOf(data[k], fillers[k])[i];
            Completed(Results([], inputs)) ==
            seq(|data|, j requires 0 <= j < |data| =>
              if j != k || !wrong then Ok(data[j]) else if i < 4 then Bad else ChecksumBad)
  {
    hide Decode, PacketOf, WithError, Pieces, Concat, Completed;
    var ps := WithError(data, fillers, k, i, v);
    StreamDecodes(ps, inputs);
    forall j | 0 <= j < |data|
      ensures var wrong := v != PacketOf(data[k], fillers[k])[i];
              |ps| == |data| && Decode(ps[j]) == if j != k || !wrong then Ok(data[j]) else if i < 4 then Bad else ChecksumBad
    {
      OneErrorDecodes(data, fillers, k, i, v, j);
    }
  }

  lemma OneErrorDecodes(data: seq<seq<byte>>, fillers: seq<Packet>, k: nat, i: nat, v: byte, j: nat)
    requires Payloads(data) && |fillers| == |data| && k < |data| && j < |data|
    requires i < 4 || DATA_AT <= i < DATA_AT + |data[k]| || i == CHECKSUM_AT
    ensures var ps, wrong := WithError(data, fillers, k, i, v), v != PacketOf(data[k], fillers[k])[i];
            |ps| == |data| && Decode(ps[j]) == if j != k || !wrong then Ok(data[j]) else if i < 4 then Bad else ChecksumBad
  {
    hide Decode, PacketOf;
    if j != k {
      PacketRoundTrip(data[j], fillers[j]);
    } else if i < 4 {
      MagicErrorDetected(data[k], fillers[k], i, v);
    } else {
      DataErrorDetected(data[k], fillers[k], i, v);
    }
  }

  // ----- the codec's own state -----

  datatype TResult = PACKET_OK | PACKET_BAD | PACKET_CHECKSUM_BAD | PACKET_INCOMPLETE | PACKET_COMPLETE

  function CodeOf(r: Result): TResult
    requires !r.Undefined?
  {
    match r
    case Incomplete => PACKET_INCOMPLETE
    case Bad => PACKET_BAD
    case ChecksumBad => PACKET_CHECKSUM_BAD
    case Ok(_) => PACKET_OK
  }

  class Receiver {
    const privateBuffer: array<byte>
    const leftoverBuffer: array<byte>
    var counter: nat
    var leftoverFlag: bool
    var leftoverCount: nat

    ghost predicate Valid()
      reads this
    {
      && privateBuffer.Length == leftoverBuffer.Length == PACKET_SIZE && privateBuffer != leftoverBuffer
      && counter < PACKET_SIZE && leftoverCount < PACKET_SIZE
      && (if leftoverFlag then counter == 0 else leftoverCount == 0)
    }

    ghost function Held(): Pending
      requires Valid()
      reads this, privateBuffer, leftoverBuffer
    {
      if leftoverFlag then leftoverBuffer[..leftoverCount] else privateBuffer[..counter]
    }

    constructor ()
      ensures Valid() && Held() == [] && fresh(privateBuffer) && fresh(leftoverBuffer)
    {
      privateBuffer, leftoverBuffer := new byte[PACKET_SIZE], new byte[PACKET_SIZE];
      counter, leftoverFlag, leftoverCount := 0, false, 0;
    }

    /** Moves what is left over from the last packet to the front of the packet buffer. */
    method CopyLeftovers()
      requires Valid()
      modifies this`counter, this`leftoverFlag, this`leftoverCount, privateBuffer
      ensures Valid() && !leftoverFlag && Held() == old(Held())
    {
      if leftoverFlag {
        leftoverFlag := false;
        var copyCount := leftoverCount;
        leftoverCount := leftoverCount - copyCount;
        for i := 0 to copyCount
          invariant counter == i && !leftoverFlag && leftoverCount == 0
          invariant leftoverBuffer[..] == old(leftoverBuffer[..])
          invariant privateBuffer[..counter] == leftoverBuffer[..i]
        {
          privateBuffer[counter] := leftoverBuffer[i];
          counter := counter + 1;
        }
      }
    }

    /** Appends input bytes to the packet buffer. */
    method CopyInput(input: array<byte>, n: nat)
      requires n <= input.Length && counter + n <= privateBuffer.Length && input != privateBuffer
      modifies this`counter, privateBuffer
      ensures counter == old(counter) + n
      ensures privateBuffer[..counter] == old(privateBuffer[..counter]) + input[..n]
    {
      for i := 0 to n
        invariant counter == old(counter) + i && input[..] == old(input[..])
        invariant privateBuffer[..counter] == old(privateBuffer[..counter]) + input[..i]
      {
        privateBuffer[counter] := input[i];
        counter := counter + 1;
      }
    }

    /** Keeps the input bytes from `from` on for the next packet. */
    method KeepRest(input: array<byte>, from: nat, len: nat)
      requires from <= len <= input.Length && input != leftoverBuffer
      requires leftoverCount == 0 && len - from <= leftoverBuffer.Length
      modifies this`leftoverFlag, this`leftoverCount, leftoverBuffer
      ensures leftoverFlag && leftoverCount == len - from
      ensures leftoverBuffer[..leftoverCount] == input[from..len]
    {
      leftoverFlag := true;
      var bytesToCopy := len - from;
      for i := 0 to bytesToCopy
        invariant leftoverFlag && leftoverCount == 0 && input[..] == old(input[..])
        invariant leftoverBuffer[..i] == input[from..from + i]
      {
        leftoverBuffer[leftoverCount + i] := input[from + i];
      }
      leftoverCount := leftoverCount + bytesToCopy;
    }

    /** One call of the reassembler. The callers' buffers hold at most one packet. */
    method Assemble(input: array<byte>, len: nat) returns (result: TResult)
      requires Valid() && len <= input.Length && len <= PACKET_SIZE
      requires input != privateBuffer && input != leftoverBuffer
      modifies this, privateBuffer, leftoverBuffer
      ensures Valid()
      ensures var f := FeedOne(old(Held()), input[..len]);
              && Held() == f.pending
              && result == (if f.packet == [] then PACKET_INCOMPLETE else PACKET_COMPLETE)
              && (f.packet != [] ==> privateBuffer[..] == f.packet[0])
    {
      ghost var held := Held();
      CopyLeftovers();
      var bytesLeft := len;
      if counter + len >= PACKET_SIZE {
        bytesLeft := PACKET_SIZE - counter;
        KeepRest(input, bytesLeft, len);
      }
      CopyInput(input, bytesLeft);
      ghost var total := held + input[..len];
      if counter == PACKET_SIZE {
        counter := 0;
        assert privateBuffer[..] == privateBuffer[..PACKET_SIZE] == total[..PACKET_SIZE];
        assert input[bytesLeft..len] == total[PACKET_SIZE..];
        return PACKET_COMPLETE;
      } else {
        return PACKET_INCOMPLETE;
      }
    }

    /** One call of the decoder. It does not test the size field: the caller vouches that a packet
        completed here is in bounds, and that the output has room for its data. */
    method Deserialize(input: array<byte>, len: nat, output: array<byte>) returns (result: TResult)
      requires Valid() && len <= input.Length && len <= PACKET_SIZE
      requires input != privateBuffer && input != leftoverBuffer && output != privateBuffer && output != leftoverBuffer
      requires var f := FeedOne(Held(), input[..len]);
               f.packet != [] ==>
                 !Decode(f.packet[0]).Undefined? &&
                 (Decode(f.packet[0]).Ok? ==> |Decode(f.packet[0]).data| <= output.Length)
      modifies this, privateBuffer, leftoverBuffer, output
      ensures Valid() && Held() == FeedOne(old(Held()), old(input[..len])).pending
      ensures var f := FeedOne(old(Held()), old(input[..len]));
              var r := ResultOf(f);
              && !r.Undefined? && result == CodeOf(r)
              && (result == PACKET_OK <==> r.Ok?) && (result == PACKET_INCOMPLETE <==> r.Incomplete?)
              && (result == PACKET_BAD <==> r.Bad?) && (result == PACKET_CHECKSUM_BAD <==> r.ChecksumBad?)
              && if r.Ok? then |r.data| <= output.Length && output[..] == r.data + old(output[|r.data|..])
                 else output[..] == old(output[..])
    {
      ghost var out0 := output[..];
      result := Assemble(input, len);
      if result == PACKET_COMPLETE {
        ghost var p: Packet := privateBuffer[..];
        result := DecodeInto(p, output);
      }
    }

    method DecodeInto(ghost p: Packet, output: array<byte>) returns (result: TResult)
      requires p == privateBuffer[..] && output != privateBuffer && !Decode(p).Undefined?
      requires Decode(p).Ok? ==> |Decode(p).data| <= output.Length
      modifies output
      ensures result == CodeOf(Decode(p))
      ensures if Decode(p).Ok? then output[..] == Decode(p).data + old(output[|Decode(p).data|..])
              else output[..] == old(output[..])
    {
      hide XorAll, Word32;
      if Word32(privateBuffer[0], privateBuffer[1], privateBuffer[2], privateBuffer[3]) != MAGIC_NUMBER {
        return PACKET_BAD;
      }
      var dataSize := Word32(privateBuffer[4], privateBuffer[5], privateBuffer[6], privateBuffer[7]);
      var checksum := XorBlock(privateBuffer, DATA_AT, dataSize);
      assert privateBuffer[DATA_AT..DATA_AT + dataSize] == p[DATA_AT..DATA_AT + dataSize];
      if checksum != privateBuffer[CHECKSUM_AT] {
        return PACKET_CHECKSUM_BAD;
      }
      CopyBlock(privateBuffer, DATA_AT, dataSize, output);
      return PACKET_OK;
    }
  }

  method CopyBlock(a: array<byte>, at: nat, n: nat, output: array<byte>)
    requires at + n <= a.Length && n <= output.Length && a != output
    modifies output
    ensures output[..] == a[at..at + n] + old(output[n..])
  {
    forall i | 0 <= i < n {
      output[i] := a[at + i];
    }
  }

  /** The checksum loop of both directions. */
  method XorBlock(a: array<byte>, at: nat, n: nat) returns (checksum: byte)
    requires at + n <= a.Length
    ensures checksum == XorAll(a[at..at + n])
  {
    checksum := 0;
    for i := 0 to n
      invariant checksum == XorAll(a[at..at + i])
    {
      assert a[at..at + i + 1][..i] == a[at..at + i];
      checksum := Xor(checksum, a[at + i]);
    }
  }

  /** The stores of the encoder, one after the other, add up to the packet's parts. */
  lemma StoresBuildPacket(filler: Packet, magic: seq<byte>, size: seq<byte>, data: seq<byte>, sum: byte)
    requires |magic| == |size| == 4 && |data| <= MAX_DATA_SIZE
    ensures var a := magic + filler[4..];
            var b := a[..DATA_AT] + data + a[DATA_AT + |data|..];
            var c := b[CHECKSUM_AT := sum];
            c[..4] + size + c[8..] ==
              magic + size + data + filler[DATA_AT + |data|..CHECKSUM_AT] + [sum] + filler[CHECKSUM_AT + 1..]
  {
    var a := magic + filler[4..];
    var b := a[..DATA_AT] + data + a[DATA_AT + |data|..];
    assert b == magic + filler[4..8] + data + filler[DATA_AT + |data|..];
    var c := b[CHECKSUM_AT := sum];
    assert c[..CHECKSUM_AT] == magic + filler[4..8] + data + filler[DATA_AT + |data|..CHECKSUM_AT];
    assert c[CHECKSUM_AT + 1..] == filler[CHECKSUM_AT + 1..];
  }

  /** Builds a packet in a local struct that starts out as `filler`, and copies it to the buffer. */
  method Serialize(buffer: array<byte>, data: array<byte>, size: nat, filler: Packet) returns (length: nat)
    requires size <= data.Length && size <= MAX_DATA_SIZE && PACKET_SIZE <= buffer.Length && data != buffer
    modifies buffer
    ensures length == PACKET_SIZE
    ensures buffer[..] == PacketOf(old(data[..size]), filler) + old(buffer[PACKET_SIZE..])
  {
    hide XorAll, Bytes32;
    var comms := filler;
    comms := Bytes32(MAGIC_NUMBER) + comms[4..];
    comms := comms[..DATA_AT] + data[..size] + comms[DATA_AT + size..];
    var checksum := XorBlock(data, 0, size);
    comms := comms[CHECKSUM_AT := checksum];
    comms := comms[..4] + Bytes32(size) + comms[8..];
    assert data[0..0 + size] == data[..size];
    StoresBuildPacket(filler, Bytes32(MAGIC_NUMBER), Bytes32(size), data[..size], checksum);
    assert comms == PacketOf(data[..size], filler);
    forall i | 0 <= i < PACKET_SIZE {
      buffer[i] := comms[i];
    }
    return PACKET_SIZE;
  }
}
