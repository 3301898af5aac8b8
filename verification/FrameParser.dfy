// The resynchronising frame parsers, as a byte-at-a-time automaton and as the chunked read loop
// that refines it. One loop serves the three frame formats.
module FrameParser {
  import opened Bytes
  import opened LidarFrames

  datatype FrameFormat = MeasurementFrame | CapsuleFrame | HeaderFrame {
    function Size(): (n: nat)
      ensures n >= 2
    {
      match this
      case MeasurementFrame => NODE_SIZE
      case CapsuleFrame => CAPSULE_SIZE
      case HeaderFrame => HEADER_SIZE
    }

    /** May `b` stand at offset `pos` of a frame? Only the first two offsets are tested. */
    predicate Accepts(pos: nat, b: byte) {
      if pos >= 2 then true
      else match this
        case MeasurementFrame => if pos == 0 then b / 2 % 2 != b % 2 else b % 2 == 1
        case CapsuleFrame => b / 0x10 == if pos == 0 then 0xA else 0x5
        case HeaderFrame => b == if pos == 0 then 0xA5 else 0x5A
    }
  }

  // ----- the byte-at-a-time automaton -----

  /** One byte: kept, or dropped together with whatever was collected. */
  function Push(fmt: FrameFormat, buf: seq<byte>, b: byte): seq<byte> {
    if fmt.Accepts(|buf|, b) then buf + [b] else []
  }

  datatype Parse = Partial(buf: seq<byte>) | Complete(frame: seq<byte>, rest: seq<byte>)

  function ParseFrom(fmt: FrameFormat, buf: seq<byte>, bytes: seq<byte>): Parse
    decreases |bytes|
  {
    if bytes == [] then Partial(buf)
    else
      var buf' := Push(fmt, buf, bytes[0]);
      if |buf'| == fmt.Size() then Complete(buf', bytes[1..]) else ParseFrom(fmt, buf', bytes[1..])
  }

  predicate WellBegun(fmt: FrameFormat, buf: seq<byte>) {
    |buf| < fmt.Size() && forall i | 0 <= i < |buf| :: fmt.Accepts(i, buf[i])
  }

  /** Parsing a concatenation is parsing its parts in turn. */
  lemma {:induction false} ParseAppend(fmt: FrameFormat, buf: seq<byte>, a: seq<byte>, b: seq<byte>)
    ensures ParseFrom(fmt, buf, a + b) ==
            match ParseFrom(fmt, buf, a)
            case Partial(buf') => ParseFrom(fmt, buf', b)
            case Complete(frame, rest) => Complete(frame, rest + b)
    decreases |a|
  {
    if a == [] {
      assert a + b == b;
    } else {
      assert (a + b)[1..] == a[1..] + b;
      ParseAppend(fmt, Push(fmt, buf, a[0]), a[1..], b);
    }
  }

  /** A chunk no longer than what is missing can only complete a frame with its last byte. */
  lemma {:induction false} CompletesOnLastByte(fmt: FrameFormat, buf: seq<byte>, chunk: seq<byte>)
    requires |buf| + |chunk| <= fmt.Size()
    ensures var p := ParseFrom(fmt, buf, chunk);
            p.Complete? ==> p.rest == [] && p.frame == buf + chunk && |p.frame| == fmt.Size()
    ensures var p := ParseFrom(fmt, buf, chunk);
            p.Partial? && |buf| < fmt.Size() ==> |p.buf| < fmt.Size()
    decreases |chunk|
  {
    if chunk != [] {
      var buf' := Push(fmt, buf, chunk[0]);
      if |buf'| == fmt.Size() {
        assert chunk == [chunk[0]];
      } else {
        CompletesOnLastByte(fmt, buf', chunk[1..]);
        assert buf + chunk == buf + [chunk[0]] + chunk[1..];
        CompleteIsLong(fmt, buf', chunk[1..]);
      }
    }
  }

  /** Completing a frame takes at least the missing bytes. */
  lemma {:induction false} CompleteIsLong(fmt: FrameFormat, buf: seq<byte>, bytes: seq<byte>)
    requires |buf| < fmt.Size()
    ensures var p := ParseFrom(fmt, buf, bytes);
            p.Complete? ==> |buf| + |bytes| >= fmt.Size() + |p.rest|
    ensures var p := ParseFrom(fmt, buf, bytes); p.Partial? ==> |p.buf| <= |buf| + |bytes| && |p.buf| < fmt.Size()
    decreases |bytes|
  {
    if bytes != [] {
      var buf' := Push(fmt, buf, bytes[0]);
      if |buf'| < fmt.Size() {
        CompleteIsLong(fmt, buf', bytes[1..]);
      }
    }
  }

  predicate EndsWith(s: seq<byte>, t: seq<byte>) {
    |t| <= |s| && s[|s| - |t|..] == t
  }

  lemma EndsWithDrop(s: seq<byte>, n: nat, t: seq<byte>)
    requires n <= |s| && EndsWith(s[n..], t)
    ensures EndsWith(s, t)
  {
  }

  lemma {:induction false} ParseTested(fmt: FrameFormat, buf: seq<byte>, bytes: seq<byte>)
    requires WellBegun(fmt, buf)
    ensures match ParseFrom(fmt, buf, bytes)
            case Partial(b) => WellBegun(fmt, b)
            case Complete(f, _) => |f| == fmt.Size() && fmt.Accepts(0, f[0]) && fmt.Accepts(1, f[1])
    decreases |bytes|
  {
    if bytes != [] {
      var buf' := Push(fmt, buf, bytes[0]);
      if |buf'| < fmt.Size() {
        ParseTested(fmt, buf', bytes[1..]);
      }
    }
  }

  lemma PushIsSuffix(fmt: FrameFormat, buf: seq<byte>, bytes: seq<byte>)
    requires bytes != []
    ensures EndsWith(buf + bytes, Push(fmt, buf, bytes[0]) + bytes[1..])
  {
  }

  lemma EndsWithTransitive(s: seq<byte>, t: seq<byte>, u: seq<byte>)
    requires EndsWith(s, t) && EndsWith(t, u)
    ensures EndsWith(s, u)
  {
    EndsWithDrop(s, |s| - |t|, u);
  }

  /** Whatever is held, or returned, is the last stretch of consecutive bytes consumed. */
  lemma {:induction false} ParseConsecutive(fmt: FrameFormat, buf: seq<byte>, bytes: seq<byte>)
    ensures match ParseFrom(fmt, buf, bytes)
            case Partial(b) => EndsWith(buf + bytes, b)
            case Complete(f, rest) => EndsWith(buf + bytes, f + rest)
    decreases |bytes|
  {
    if bytes == [] {
      assert buf + bytes == buf;
    } else {
      var buf' := Push(fmt, buf, bytes[0]);
      PushIsSuffix(fmt, buf, bytes);
      if |buf'| != fmt.Size() {
        ParseConsecutive(fmt, buf', bytes[1..]);
        match ParseFrom(fmt, buf', bytes[1..]) {
          case Partial(b) => EndsWithTransitive(buf + bytes, buf' + bytes[1..], b);
          case Complete(f, rest) => EndsWithTransitive(buf + bytes, buf' + bytes[1..], f + rest);
        }
      }
    }
  }

  /** From an empty buffer a complete frame is taken byte for byte. */
  lemma {:induction false} ParseFrame(fmt: FrameFormat, buf: seq<byte>, tail: seq<byte>, rest: seq<byte>)
    requires |buf| < |buf + tail| == fmt.Size()
    requires forall i | |buf| <= i < fmt.Size() :: fmt.Accepts(i, (buf + tail)[i])
    ensures ParseFrom(fmt, buf, tail + rest) == Complete(buf + tail, rest)
    decreases |tail|
  {
    var buf' := buf + [tail[0]];
    assert (buf + tail)[|buf|] == tail[0];
    assert Push(fmt, buf, (tail + rest)[0]) == buf';
    assert (tail + rest)[1..] == tail[1..] + rest;
    assert buf' + tail[1..] == buf + tail;
    if |buf'| == fmt.Size() {
      assert tail[1..] == [];
      assert tail[1..] + rest == rest;
      assert buf + tail == buf';
    } else {
      ParseFrame(fmt, buf', tail[1..], rest);
    }
  }

  /** Fewer bytes are held. */
  lemma {:induction false} ParsePartial(fmt: FrameFormat, buf: seq<byte>, tail: seq<byte>)
    requires |buf + tail| < fmt.Size()
    requires forall i | |buf| <= i < |buf + tail| :: fmt.Accepts(i, (buf + tail)[i])
    ensures ParseFrom(fmt, buf, tail) == Partial(buf + tail)
    decreases |tail|
  {
    if tail == [] {
      assert buf + tail == buf;
    } else {
      assert (buf + tail)[|buf|] == tail[0];
      assert buf + [tail[0]] + tail[1..] == buf + tail;
      ParsePartial(fmt, buf + [tail[0]], tail[1..]);
    }
  }

  /** Bytes the parser drops without holding on to any: each byte that could start a frame is
      followed by one that cannot continue it, and goes down with it. */
  predicate Skipped(fmt: FrameFormat, junk: seq<byte>)
    decreases |junk|
  {
    if junk == [] then true
    else if !fmt.Accepts(0, junk[0]) then Skipped(fmt, junk[1..])
    else |junk| >= 2 && !fmt.Accepts(1, junk[1]) && Skipped(fmt, junk[2..])
  }

  lemma {:induction false} HeldForGood(fmt: FrameFormat, buf: seq<byte>, bytes: seq<byte>)
    requires |buf| >= 2
    ensures ParseFrom(fmt, buf, bytes) != Partial([])
    decreases |bytes|
  {
    if bytes != [] {
      HeldForGood(fmt, buf + [bytes[0]], bytes[1..]);
    }
  }

  /** After these bytes, and no others, the parser is empty and has not found a frame. */
  lemma {:induction false} SkippedIff(fmt: FrameFormat, junk: seq<byte>)
    ensures ParseFrom(fmt, [], junk) == Partial([]) <==> Skipped(fmt, junk)
    decreases |junk|
  {
    if junk != [] {
      if !fmt.Accepts(0, junk[0]) {
        SkippedIff(fmt, junk[1..]);
      } else if |junk| >= 2 {
        assert junk[1..][1..] == junk[2..];
        assert [] + [junk[0]] == [junk[0]];
        if fmt.Accepts(1, junk[1]) {
          HeldForGood(fmt, [junk[0]] + [junk[1]], junk[2..]);
        } else {
          SkippedIff(fmt, junk[2..]);
        }
      }
    }
  }

  /** Bytes that cannot start a frame are skipped. */
  lemma {:induction false} JunkIsSkipped(fmt: FrameFormat, junk: seq<byte>)
    requires forall b <- junk :: !fmt.Accepts(0, b)
    ensures Skipped(fmt, junk)
    decreases |junk|
  {
    if junk != [] {
      assert junk[0] in junk;
      JunkIsSkipped(fmt, junk[1..]);
    }
  }

  /** Behind any bytes, the next frame is the first one found exactly when those bytes are skipped:
      a byte rejected at the second offset is not reconsidered as a first byte. */
  lemma ResyncIff(fmt: FrameFormat, junk: seq<byte>, frame: seq<byte>, rest: seq<byte>)
    requires |frame| == fmt.Size() && fmt.Accepts(0, frame[0]) && fmt.Accepts(1, frame[1])
    ensures ParseFrom(fmt, [], junk + (frame + rest)) == Complete(frame, rest) <==> Skipped(fmt, junk)
  {
    SkippedIff(fmt, junk);
    ParseAppend(fmt, [], junk, frame + rest);
    match ParseFrom(fmt, [], junk) {
      case Complete(_, later) =>
        assert |later + (frame + rest)| > |rest|;
      case Partial(held) =>
        if held == [] {
          assert [] + frame == frame;
          ParseFrame(fmt, [], frame, rest);
        } else {
          ParseTested(fmt, [], junk);
          HeldBytesMisframe(fmt, held, frame, rest);
        }
    }
  }

  /** A parser that holds bytes does not find the next frame in its place. */
  lemma HeldBytesMisframe(fmt: FrameFormat, held: seq<byte>, frame: seq<byte>, rest: seq<byte>)
    requires WellBegun(fmt, held) && held != [] && |frame| == fmt.Size()
    ensures ParseFrom(fmt, held, frame + rest) != Complete(frame, rest)
  {
    if fmt.Accepts(|held|, frame[0]) {
      HeldFrameEndsEarly(fmt, held, frame, rest);
    } else {
      // the held byte and frame[0] are both dropped, so too few bytes are left
      assert (frame + rest)[1..] == frame[1..] + rest;
      CompleteIsLong(fmt, [], frame[1..] + rest);
    }
  }

  /** With two good bytes held, the next frame completes before `frame` ends. */
  lemma HeldFrameEndsEarly(fmt: FrameFormat, held: seq<byte>, frame: seq<byte>, rest: seq<byte>)
    requires WellBegun(fmt, held) && held != []
    requires |frame| == fmt.Size() && fmt.Accepts(|held|, frame[0])
    ensures ParseFrom(fmt, held, frame + rest) != Complete(frame, rest)
  {
    var missing := fmt.Size() - |held|;
    assert frame + rest == frame[..missing] + (frame[missing..] + rest);
    forall i | |held| <= i < fmt.Size() ensures fmt.Accepts(i, (held + frame[..missing])[i]) {
      if i == 1 {
        assert (held + frame[..missing])[1] == frame[0];
      }
    }
    ParseFrame(fmt, held, frame[..missing], frame[missing..] + rest);
    hide ParseFrom;
    assert |frame[missing..] + rest| > |rest|;
  }

  // ----- the three parsers on their bytes -----

  /** From an empty buffer a parser drops one byte, drops two, takes a frame, or runs out of bytes. */
  lemma ParserStep(fmt: FrameFormat, bytes: seq<byte>)
    requires bytes != []
    ensures !fmt.Accepts(0, bytes[0]) ==> ParseFrom(fmt, [], bytes) == ParseFrom(fmt, [], bytes[1..])
    ensures fmt.Accepts(0, bytes[0]) && |bytes| >= 2 && !fmt.Accepts(1, bytes[1]) ==>
              ParseFrom(fmt, [], bytes) == ParseFrom(fmt, [], bytes[2..])
    ensures fmt.Accepts(0, bytes[0]) && |bytes| >= fmt.Size() && fmt.Accepts(1, bytes[1]) ==>
              ParseFrom(fmt, [], bytes) == Complete(bytes[..fmt.Size()], bytes[fmt.Size()..])
    ensures fmt.Accepts(0, bytes[0]) && |bytes| < fmt.Size() && (|bytes| >= 2 ==> fmt.Accepts(1, bytes[1])) ==>
              ParseFrom(fmt, [], bytes) == Partial(bytes)
  {
    assert [] + bytes == bytes;
    if fmt.Accepts(0, bytes[0]) {
      if |bytes| >= 2 && !fmt.Accepts(1, bytes[1]) {
        PairDropped(fmt, bytes);
      } else if |bytes| < fmt.Size() {
        ParsePartial(fmt, [], bytes);
      } else {
        var frame := bytes[..fmt.Size()];
        assert [] + frame == frame && frame + bytes[fmt.Size()..] == bytes;
        ParseFrame(fmt, [], frame, bytes[fmt.Size()..]);
      }
    }
  }

  lemma PairDropped(fmt: FrameFormat, bytes: seq<byte>)
    requires |bytes| >= 2 && fmt.Accepts(0, bytes[0]) && !fmt.Accepts(1, bytes[1])
    ensures ParseFrom(fmt, [], bytes) == ParseFrom(fmt, [], bytes[2..])
  {
    assert [] + [bytes[0]] == [bytes[0]] && bytes[1..][1..] == bytes[2..];
    assert Push(fmt, [], bytes[0]) == [bytes[0]];
    assert Push(fmt, [bytes[0]], bytes[1..][0]) == [];
  }

  /** The node parser: in the first byte bits 0 and 1 differ, in the second bit 0 is set; five bytes. */
  lemma NodeParser(bytes: seq<byte>)
    requires bytes != []
    ensures var begins, next := bytes[0] % 2 != bytes[0] / 2 % 2, |bytes| >= 2 && bytes[1] % 2 == 1;
            ParseFrom(MeasurementFrame, [], bytes) ==
            if !begins then ParseFrom(MeasurementFrame, [], bytes[1..])
            else if |bytes| == 1 then Partial(bytes)
            else if !next then ParseFrom(MeasurementFrame, [], bytes[2..])
            else if |bytes| < 5 then Partial(bytes)
            else Complete(bytes[..5], bytes[5..])
  {
    hide ParseFrom;
    ParserStep(MeasurementFrame, bytes);
  }

  /** The capsule parser: high nibbles 0xA and 0x5; 84 bytes. */
  lemma CapsuleParser(bytes: seq<byte>)
    requires bytes != []
    ensures var begins, next := 0xA0 <= bytes[0] < 0xB0, |bytes| >= 2 && 0x50 <= bytes[1] < 0x60;
            ParseFrom(CapsuleFrame, [], bytes) ==
            if !begins then ParseFrom(CapsuleFrame, [], bytes[1..])
            else if |bytes| == 1 then Partial(bytes)
            else if !next then ParseFrom(CapsuleFrame, [], bytes[2..])
            else if |bytes| < 84 then Partial(bytes)
            else Complete(bytes[..84], bytes[84..])
  {
    hide ParseFrom;
    ParserStep(CapsuleFrame, bytes);
  }

  /** The response header parser: bytes 0xA5 and 0x5A; seven bytes. */
  lemma HeaderParser(bytes: seq<byte>)
    requires bytes != []
    ensures var begins, next := bytes[0] == 0xA5, |bytes| >= 2 && bytes[1] == 0x5A;
            ParseFrom(HeaderFrame, [], bytes) ==
            if !begins then ParseFrom(HeaderFrame, [], bytes[1..])
            else if |bytes| == 1 then Partial(bytes)
            else if !next then ParseFrom(HeaderFrame, [], bytes[2..])
            else if |bytes| < 7 then Partial(bytes)
            else Complete(bytes[..7], bytes[7..])
  {
    hide ParseFrom;
    ParserStep(HeaderFrame, bytes);
  }

  // ----- the chunked read loop -----

  /** One pass through the read loop: bytes are waiting, the link times out or fails, or the
      clock test at the head of the loop ends the wait. */
  datatype Arrival = Available(size: nat) | Silence | Fault | Expiry

  /** The serial line: the bytes still to be delivered and how they will arrive. */
  datatype Line = Line(pending: seq<byte>, schedule: seq<Arrival>)

  datatype WaitOutcome = Framed | LinkTimeout | LinkError | ClockExpired

  datatype Wait = Wait(outcome: WaitOutcome, buf: seq<byte>, line: Line)

  function Min(a: nat, b: nat): nat { if a < b then a else b }

  /** How much one pass reads: never more than the frame still needs. */
  function ChunkSize(fmt: FrameFormat, buf: seq<byte>, pending: seq<byte>, size: nat): (k: nat)
    requires |buf| < fmt.Size()
    ensures k <= |pending| && k <= size && |buf| + k <= fmt.Size()
  {
    Min(Min(size, |pending|), fmt.Size() - |buf|)
  }

  function WaitFrom(fmt: FrameFormat, buf: seq<byte>, line: Line): (w: Wait)
    requires |buf| < fmt.Size()
    ensures if w.outcome.Framed? then |w.buf| == fmt.Size() else |w.buf| < fmt.Size()
    ensures |w.line.pending| <= |line.pending|
    decreases |line.schedule|
  {
    if line.schedule == [] then Wait(ClockExpired, buf, line)
    else
      var next := Line(line.pending, line.schedule[1..]);
      match line.schedule[0]
      case Expiry => Wait(ClockExpired, buf, next)
      case Silence => Wait(LinkTimeout, buf, next)
      case Fault => Wait(LinkError, buf, next)
      case Available(size) =>
        var k := ChunkSize(fmt, buf, line.pending, size);
        var after := Line(line.pending[k..], line.schedule[1..]);
        CompletesOnLastByte(fmt, buf, line.pending[..k]);
        match ParseFrom(fmt, buf, line.pending[..k])
        case Complete(frame, _) => Wait(Framed, frame, after)
        case Partial(buf') => WaitFrom(fmt, buf', after)
  }

  lemma WaitOnChunk(fmt: FrameFormat, buf: seq<byte>, line: Line)
    requires |buf| < fmt.Size() && line.schedule != [] && line.schedule[0].Available?
    ensures var k := ChunkSize(fmt, buf, line.pending, line.schedule[0].size);
            var after := Line(line.pending[k..], line.schedule[1..]);
            match ParseFrom(fmt, buf, line.pending[..k])
            case Complete(f, rest) => rest == [] && WaitFrom(fmt, buf, line) == Wait(Framed, f, after)
            case Partial(b) => |b| < fmt.Size() && WaitFrom(fmt, buf, line) == WaitFrom(fmt, b, after)
  {
    var k := ChunkSize(fmt, buf, line.pending, line.schedule[0].size);
    CompletesOnLastByte(fmt, buf, line.pending[..k]);
  }

  /** What a wait from `buf` may report about the bytes that were pending: a framed wait agrees
      with the automaton on all of them, any other wait on those it took off the line. */
  predicate Agrees(fmt: FrameFormat, buf: seq<byte>, pending: seq<byte>, w: Wait) {
    && EndsWith(pending, w.line.pending)
    && var taken := pending[..|pending| - |w.line.pending|];
    if w.outcome.Framed? then ParseFrom(fmt, buf, pending) == Complete(w.buf, w.line.pending)
    else ParseFrom(fmt, buf, taken) == Partial(w.buf)
  }

  lemma AgreesAfterChunk(fmt: FrameFormat, buf: seq<byte>, pending: seq<byte>, k: nat, w: Wait)
    requires k <= |pending| && ParseFrom(fmt, buf, pending[..k]).Partial?
    requires Agrees(fmt, ParseFrom(fmt, buf, pending[..k]).buf, pending[k..], w)
    ensures Agrees(fmt, buf, pending, w)
  {
    EndsWithDrop(pending, k, w.line.pending);
    var tail := pending[k..];
    var taken := tail[..|tail| - |w.line.pending|];
    if w.outcome.Framed? {
      assert pending == pending[..k] + tail;
      ParseAppend(fmt, buf, pending[..k], tail);
    } else {
      assert pending[..|pending| - |w.line.pending|] == pending[..k] + taken;
      ParseAppend(fmt, buf, pending[..k], taken);
    }
  }

  lemma AgreesOnFrame(fmt: FrameFormat, buf: seq<byte>, line: Line, k: nat, w: Wait)
    requires k <= |line.pending| && ParseFrom(fmt, buf, line.pending[..k]) == Complete(w.buf, [])
    requires w.outcome.Framed? && w.line.pending == line.pending[k..]
    ensures Agrees(fmt, buf, line.pending, w)
  {
    assert line.pending == line.pending[..k] + line.pending[k..];
    ParseAppend(fmt, buf, line.pending[..k], line.pending[k..]);
    assert [] + line.pending[k..] == line.pending[k..];
  }

  lemma AgreesWhenIdle(fmt: FrameFormat, buf: seq<byte>, line: Line)
    requires |buf| < fmt.Size() && (line.schedule == [] || !line.schedule[0].Available?)
    ensures Agrees(fmt, buf, line.pending, WaitFrom(fmt, buf, line))
  {
    assert line.pending[..0] == [];
  }

  /** Chunking is invisible: every schedule of arrivals agrees with the automaton. */
  lemma {:induction false} WaitAgrees(fmt: FrameFormat, buf: seq<byte>, line: Line)
    requires |buf| < fmt.Size()
    ensures Agrees(fmt, buf, line.pending, WaitFrom(fmt, buf, line))
    decreases |line.schedule|
  {
    hide Agrees, ParseFrom, WaitFrom, ChunkSize;
    if line.schedule == [] || !line.schedule[0].Available? {
      AgreesWhenIdle(fmt, buf, line);
    } else {
      var k := ChunkSize(fmt, buf, line.pending, line.schedule[0].size);
      WaitOnChunk(fmt, buf, line);
      var p := ParseFrom(fmt, buf, line.pending[..k]);
      if p.Partial? {
        WaitAgrees(fmt, p.buf, Line(line.pending[k..], line.schedule[1..]));
        AgreesAfterChunk(fmt, buf, line.pending, k, WaitFrom(fmt, buf, line));
      } else {
        AgreesOnFrame(fmt, buf, line, k, WaitFrom(fmt, buf, line));
      }
    }
  }

  /** Two schedules that both deliver a frame deliver the same frame and leave the same bytes. */
  lemma ChunkInvariance(fmt: FrameFormat, pending: seq<byte>, s1: seq<Arrival>, s2: seq<Arrival>)
    requires WaitFrom(fmt, [], Line(pending, s1)).outcome.Framed?
    requires WaitFrom(fmt, [], Line(pending, s2)).outcome.Framed?
    ensures WaitFrom(fmt, [], Line(pending, s1)).buf == WaitFrom(fmt, [], Line(pending, s2)).buf
    ensures WaitFrom(fmt, [], Line(pending, s1)).line.pending == WaitFrom(fmt, [], Line(pending, s2)).line.pending
  {
    WaitAgrees(fmt, [], Line(pending, s1));
    WaitAgrees(fmt, [], Line(pending, s2));
  }

  /** Every pass finds at least one byte. */
  predicate Patient(schedule: seq<Arrival>) {
    forall a <- schedule :: a.Available? && a.size > 0
  }

  lemma PatientStep(fmt: FrameFormat, buf: seq<byte>, line: Line)
    requires |buf| < fmt.Size() && line.pending != [] && Patient(line.schedule)
    requires |line.schedule| >= |line.pending|
    ensures line.schedule[0].Available?
    ensures var k := ChunkSize(fmt, buf, line.pending, line.schedule[0].size);
            k > 0 && Patient(line.schedule[1..]) && |line.schedule[1..]| >= |line.pending[k..]|
  {
    assert line.schedule[0] in line.schedule;
  }

  /** If the pending bytes hold a frame and the line keeps delivering, the wait does not end
      without it. */
  lemma {:induction false} PatientWaitFrames(fmt: FrameFormat, buf: seq<byte>, line: Line)
    requires |buf| < fmt.Size() && ParseFrom(fmt, buf, line.pending).Complete?
    requires |line.schedule| >= |line.pending|
    requires Patient(line.schedule)
    ensures var w := WaitFrom(fmt, buf, line);
            w.outcome.Framed? && Patient(w.line.schedule) && |w.line.schedule| >= |w.line.pending|
    decreases |line.schedule|
  {
    assert line.pending != [];
    hide ParseFrom, WaitFrom, Patient, ChunkSize;
    PatientStep(fmt, buf, line);
    var k := ChunkSize(fmt, buf, line.pending, line.schedule[0].size);
    WaitOnChunk(fmt, buf, line);
    var p := ParseFrom(fmt, buf, line.pending[..k]);
    if p.Partial? {
      StillComplete(fmt, buf, line.pending, k);
      PatientWaitFrames(fmt, p.buf, Line(line.pending[k..], line.schedule[1..]));
    }
  }

  lemma StillComplete(fmt: FrameFormat, buf: seq<byte>, pending: seq<byte>, k: nat)
    requires k <= |pending| && ParseFrom(fmt, buf, pending).Complete? && ParseFrom(fmt, buf, pending[..k]).Partial?
    ensures ParseFrom(fmt, ParseFrom(fmt, buf, pending[..k]).buf, pending[k..]).Complete?
  {
    hide ParseFrom;
    assert pending == pending[..k] + pending[k..];
    ParseAppend(fmt, buf, pending[..k], pending[k..]);
  }

  /** A frame behind bytes that are skipped is delivered if bytes keep coming. */
  lemma WaitDelivers(fmt: FrameFormat, line: Line, junk: seq<byte>, frame: seq<byte>, rest: seq<byte>)
    requires line.pending == junk + (frame + rest) && Skipped(fmt, junk)
    requires |frame| == fmt.Size() && fmt.Accepts(0, frame[0]) && fmt.Accepts(1, frame[1])
    requires Patient(line.schedule) && |line.schedule| >= |line.pending|
    ensures var w := WaitFrom(fmt, [], line);
            w.outcome.Framed? && w.buf == frame && w.line.pending == rest
  {
    hide Skipped, ParseFrom, WaitFrom, Patient;
    ResyncIff(fmt, junk, frame, rest);
    PatientWaitFrames(fmt, [], line);
    WaitAgrees(fmt, [], line);
  }

  /** Behind bytes that are not 0xA5, a patient wait delivers every response header. */
  lemma HeaderDelivered(line: Line, junk: seq<byte>, tail: seq<byte>, rest: seq<byte>)
    requires line.pending == junk + ([0xA5, 0x5A] + tail + rest) && |tail| == 5 && 0xA5 !in junk
    requires (forall a <- line.schedule :: a.Available? && a.size > 0) && |line.schedule| >= |line.pending|
    ensures var w := WaitFrom(HeaderFrame, [], line);
            w.outcome.Framed? && w.buf == [0xA5, 0x5A] + tail && w.line.pending == rest
  {
    hide Skipped, WaitFrom;
    JunkIsSkipped(HeaderFrame, junk);
    WaitDelivers(HeaderFrame, line, junk, [0xA5, 0x5A] + tail, rest);
  }

  /** Behind bytes with bits 0 and 1 alike, it delivers any five bytes that pass the node tests. */
  lemma NodeDelivered(line: Line, junk: seq<byte>, frame: seq<byte>, rest: seq<byte>)
    requires line.pending == junk + (frame + rest) && forall b <- junk :: b % 4 == 0 || b % 4 == 3
    requires |frame| == 5 && (frame[0] % 4 == 1 || frame[0] % 4 == 2) && frame[1] % 2 == 1
    requires (forall a <- line.schedule :: a.Available? && a.size > 0) && |line.schedule| >= |line.pending|
    ensures var w := WaitFrom(MeasurementFrame, [], line);
            w.outcome.Framed? && w.buf == frame && w.line.pending == rest
  {
    hide Skipped, WaitFrom;
    JunkIsSkipped(MeasurementFrame, junk);
    WaitDelivers(MeasurementFrame, line, junk, frame, rest);
  }

  /** No other frame is ever delivered, on any line. */
  lemma DeliveredFramesTested(fmt: FrameFormat, line: Line)
    requires WaitFrom(fmt, [], line).outcome.Framed?
    ensures var f := WaitFrom(fmt, [], line).buf;
            match fmt
            case MeasurementFrame => |f| == 5 && f[0] % 2 != f[0] / 2 % 2 && f[1] % 2 == 1
            case CapsuleFrame => |f| == 84 && 0xA0 <= f[0] < 0xB0 && 0x50 <= f[1] < 0x60
            case HeaderFrame => |f| == 7 && f[0] == 0xA5 && f[1] == 0x5A
  {
    hide WaitFrom, ParseFrom;
    WaitAgrees(fmt, [], line);
    ParseTested(fmt, [], line.pending);
  }

  predicate AllAvailable(schedule: seq<Arrival>) { forall a <- schedule :: a.Available? }

  /** A wait uses up its schedule one pass at a time, and the last pass tells how it ends. */
  lemma {:induction false} WaitStops(fmt: FrameFormat, buf: seq<byte>, line: Line) returns (n: nat)
    requires |buf| < fmt.Size()
    ensures var w := WaitFrom(fmt, buf, line);
            && n <= |line.schedule| && w.line.schedule == line.schedule[n..]
            && match w.outcome
               case Framed => n > 0 && AllAvailable(line.schedule[..n])
               case LinkTimeout => n > 0 && AllAvailable(line.schedule[..n - 1]) && line.schedule[n - 1].Silence?
               case LinkError => n > 0 && AllAvailable(line.schedule[..n - 1]) && line.schedule[n - 1].Fault?
               case ClockExpired =>
                 if n < |line.schedule| || (n > 0 && !line.schedule[n - 1].Available?) then
                   n > 0 && AllAvailable(line.schedule[..n - 1]) && line.schedule[n - 1].Expiry?
                 else AllAvailable(line.schedule)
    decreases |line.schedule|
  {
    hide ParseFrom, ChunkSize;
    if line.schedule == [] {
      n := 0;
    } else if !line.schedule[0].Available? {
      n := 1;
      assert line.schedule[..0] == [];
    } else {
      var k := ChunkSize(fmt, buf, line.pending, line.schedule[0].size);
      var chunk := line.pending[..k];
      WaitOnChunk(fmt, buf, line);
      var p := ParseFrom(fmt, buf, chunk);
      if p.Complete? {
        n := 1;
      } else {
        var m := WaitStops(fmt, p.buf, Line(line.pending[k..], line.schedule[1..]));
        hide WaitFrom;
        n := m + 1;
        assert line.schedule[1..][m..] == line.schedule[n..];
        assert line.schedule[..n] == [line.schedule[0]] + line.schedule[1..][..m];
        assert line.schedule == [line.schedule[0]] + line.schedule[1..];
        if m > 0 {
          assert line.schedule[..n - 1] == [line.schedule[0]] + line.schedule[1..][..m - 1];
        }
      }
    }
  }

  // ----- the read loop itself -----

  class SerialLine {
    var pending: seq<byte>
    var schedule: seq<Arrival>

    constructor (pending: seq<byte>, schedule: seq<Arrival>)
      ensures State() == Line(pending, schedule)
    {
      this.pending, this.schedule := pending, schedule;
    }

    function State(): Line
      reads this
    {
      Line(pending, schedule)
    }

    /** The clock test and the wait for bytes at the head of one pass; at most the pending
        bytes are reported as available. */
    method WaitForData() returns (arrival: Arrival)
      modifies this`schedule
      ensures old(schedule) == [] ==> arrival == Expiry && schedule == []
      ensures old(schedule) != [] ==> schedule == old(schedule)[1..]
      ensures old(schedule) != [] ==>
                match old(schedule)[0]
                case Available(n) => arrival == Available(Min(n, |pending|))
                case _ => arrival == old(schedule)[0]
    {
      if schedule == [] { return Expiry; }
      arrival := schedule[0];
      schedule := schedule[1..];
      if arrival.Available? {
        arrival := Available(Min(arrival.size, |pending|));
      }
    }

    method ReceiveData(size: nat) returns (data: seq<byte>)
      requires size <= |pending|
      modifies this`pending
      ensures data == old(pending)[..size] && pending == old(pending)[size..]
    {
      data := pending[..size];
      pending := pending[size..];
    }
  }

  /** The inner loop: one chunk, byte by byte. `rejected` tells whether any byte was dropped. */
  method TakeChunk(fmt: FrameFormat, nodeBuffer: array<byte>, held: nat, recvBuffer: seq<byte>)
    returns (recvPos: nat, rejected: bool)
    requires held < nodeBuffer.Length == fmt.Size() && held + |recvBuffer| <= fmt.Size()
    modifies nodeBuffer
    ensures recvPos <= fmt.Size()
    ensures ParseFrom(fmt, old(nodeBuffer[..held]), recvBuffer) ==
            if recvPos == fmt.Size() then Complete(nodeBuffer[..], []) else Partial(nodeBuffer[..recvPos])
    ensures recvPos <= held + |recvBuffer| && (rejected <==> recvPos != held + |recvBuffer|)
  {
    recvPos, rejected := held, false;
    for pos := 0 to |recvBuffer|
      invariant recvPos < nodeBuffer.Length
      invariant recvPos <= held + pos && (rejected <==> recvPos != held + pos)
      invariant ParseFrom(fmt, nodeBuffer[..recvPos], recvBuffer[pos..]) ==
                old(ParseFrom(fmt, nodeBuffer[..held], recvBuffer))
    {
      var currentByte := recvBuffer[pos];
      ghost var was := nodeBuffer[..recvPos];
      assert recvBuffer[pos..][1..] == recvBuffer[pos + 1..];
      if !fmt.Accepts(recvPos, currentByte) {
        recvPos, rejected := 0, true;
        assert nodeBuffer[..recvPos] == Push(fmt, was, currentByte);
        continue;
      }
      nodeBuffer[recvPos] := currentByte;
      recvPos := recvPos + 1;
      assert nodeBuffer[..recvPos] == was + [currentByte];
      if recvPos == fmt.Size() {
        assert pos + 1 == |recvBuffer|;
        assert nodeBuffer[..] == nodeBuffer[..recvPos];
        return;
      }
    }
  }

  /** The read loop shared by the node, capsule and response header parsers. `resynced` tells
      whether any byte was rejected: exactly when more bytes were taken than are held. */
  method WaitFrame(fmt: FrameFormat, line: SerialLine)
    returns (outcome: WaitOutcome, buf: seq<byte>, resynced: bool)
    modifies line
    ensures Wait(outcome, buf, line.State()) == old(WaitFrom(fmt, [], line.State()))
    ensures resynced <==> |old(line.pending)| - |line.pending| != |buf|
  {
    var nodeBuffer := new byte[fmt.Size()];
    var recvPos: nat := 0;
    resynced := false;
    ghost var target := WaitFrom(fmt, [], line.State());
    assert nodeBuffer[..0] == [];
    while true
      invariant recvPos < nodeBuffer.Length == fmt.Size()
      invariant recvPos <= |old(line.pending)| - |line.pending|
      invariant resynced <==> |old(line.pending)| - |line.pending| != recvPos
      invariant WaitFrom(fmt, nodeBuffer[..recvPos], line.State()) == target
      decreases |line.schedule|
    {
      ghost var held, before := nodeBuffer[..recvPos], line.State();
      var remainSize := fmt.Size() - recvPos;
      var arrival := line.WaitForData();
      match arrival {
        case Fault => return LinkError, nodeBuffer[..recvPos], resynced;
        case Silence => return LinkTimeout, nodeBuffer[..recvPos], resynced;
        case Expiry => return ClockExpired, nodeBuffer[..recvPos], resynced;
        case Available(size) =>
          var recvSize := Min(size, remainSize);
          assert recvSize == ChunkSize(fmt, held, before.pending, before.schedule[0].size);
          var recvBuffer := line.ReceiveData(recvSize);
          WaitOnChunk(fmt, held, before);
          var rejected;
          recvPos, rejected := TakeChunk(fmt, nodeBuffer, recvPos, recvBuffer);
          resynced := resynced || rejected;
          if recvPos == fmt.Size() {
            return Framed, nodeBuffer[..], resynced;
          }
      }
    }
  }
}
