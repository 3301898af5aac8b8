// Receiving capsules: one call of the capsule parser with its checksum and ready flag, and the
// sequence of calls a scanning session makes.
module CapsuleReceiver {
  import opened Bytes
  import opened LidarFrames
  import opened FrameParser
  import opened Revolution

  datatype Answer = ResultOk | OperationTimeout | OperationFail | InvalidData

  /** One call: its answer, the bytes left in its frame buffer, the stretch of the byte stream it
      consumed, the ready flag it leaves behind and the line after it. */
  datatype CallData = Call(answer: Answer, frame: seq<byte>, from: nat, to: nat, ready: bool, line: Line)

  type Call = c: CallData | c.answer.ResultOk? ==> |c.frame| == CAPSULE_SIZE
    witness CallData.Call(OperationFail, [], 0, 0, false, Line([], []))

  /** The flag survives only if no byte was rejected: every byte taken is still held. */
  function WaitCapsule(line: Line, ready: bool, at: nat): Call {
    var w := WaitFrom(CapsuleFrame, [], line);
    var used := |line.pending| - |w.line.pending|;
    var kept := ready && used == |w.buf|;
    match w.outcome
    case LinkError => CallData.Call(OperationFail, w.buf, at, at + used, kept, w.line)
    case LinkTimeout => CallData.Call(OperationTimeout, w.buf, at, at + used, kept, w.line)
    case ClockExpired => CallData.Call(OperationTimeout, w.buf, at, at + used, false, w.line)
    case Framed =>
      if ChecksumMatches(w.buf) then
        CallData.Call(ResultOk, w.buf, at, at + used, kept && !DecodeCapsule(w.buf).IsFirst(), w.line)
      else
        CallData.Call(InvalidData, w.buf, at, at + used, false, w.line)
  }

  // ----- one call -----

  lemma ParsedCapsule(pending: seq<byte>, frame: seq<byte>, rest: seq<byte>)
    requires ParseFrom(CapsuleFrame, [], pending) == Complete(frame, rest)
    ensures |frame| == CAPSULE_SIZE && CAPSULE_SIZE + |rest| <= |pending|
    ensures var used := |pending| - |rest|; frame == pending[used - CAPSULE_SIZE..used] && rest == pending[used..]
    ensures frame[0] / 0x10 == 0xA && frame[1] / 0x10 == 0x5
  {
    ParseTested(CapsuleFrame, [], pending);
    ParseConsecutive(CapsuleFrame, [], pending);
    assert [] + pending == pending;
    var start := |pending| - |frame + rest|;
    assert pending[start..] == frame + rest;
    assert pending[start..start + CAPSULE_SIZE] == pending[start..][..CAPSULE_SIZE] == frame;
    assert pending[start + CAPSULE_SIZE..] == pending[start..][CAPSULE_SIZE..] == rest;
  }

  /** A good answer returns the last 84 consecutive bytes consumed, with both sync nibbles and a
      matching checksum; with the flag still set it consumed nothing else. */
  lemma CapsuleSound(line: Line, ready: bool, at: nat)
    ensures var c := WaitCapsule(line, ready, at);
            var used := c.to - at;
            && 0 <= used <= |line.pending| && c.line.pending == line.pending[used..]
            && (c.answer.ResultOk? ==>
                  && CAPSULE_SIZE <= used && c.frame == line.pending[used - CAPSULE_SIZE..used]
                  && c.frame[0] / 0x10 == 0xA && c.frame[1] / 0x10 == 0x5 && ChecksumMatches(c.frame)
                  && (c.ready ==> used == CAPSULE_SIZE))
  {
    hide WaitFrom, ParseFrom, ChecksumMatches, DecodeCapsule;
    var w := WaitFrom(CapsuleFrame, [], line);
    WaitAgrees(CapsuleFrame, [], line);
    if w.outcome.Framed? {
      ParsedCapsule(line.pending, w.buf, w.line.pending);
    }
  }

  /** The whole outcome of a call, told from the schedule and the bytes. It uses up `n` passes, and
      the last of them decides: a fault fails; a silence times out and keeps the flag if every byte
      taken is still held; the clock times out and clears it; and if a frame is complete, its
      checksum decides, and then the flag survives if nothing else was taken and the top bit of
      the start angle is clear. */
  lemma CallOutcome(line: Line, ready: bool, at: nat) returns (n: nat)
    ensures n <= |line.schedule| && (n > 0 ==> AllAvailable(line.schedule[..n - 1]))
    ensures var c := WaitCapsule(line, ready, at);
            var used, f := c.to - at, c.frame;
            && used == |line.pending| - |c.line.pending| && c.line.schedule == line.schedule[n..]
            && if n == 0 || (line.schedule[n - 1].Available? && |f| < 84) then
                 n == |line.schedule| && c.answer.OperationTimeout? && !c.ready
               else
                 match line.schedule[n - 1]
                 case Fault => c.answer.OperationFail?
                 case Silence => c.answer.OperationTimeout? && (c.ready <==> ready && used == |f|)
                 case Expiry => c.answer.OperationTimeout? && !c.ready
                 case Available(_) =>
                   && |f| == 84
                   && if f[0] % 0x10 + f[1] as int % 0x10 * 0x10 == XorAll(f[2..]) then
                        c.answer.ResultOk? && (c.ready <==> ready && used == 84 && f[3] < 0x80)
                      else c.answer.InvalidData? && !c.ready
  {
    hide WaitFrom, XorAll;
    n := WaitStops(CapsuleFrame, [], line);
    var w := WaitFrom(CapsuleFrame, [], line);
    if n > 0 {
      AllButLast(line.schedule[..n]);
      assert line.schedule[..n][..n - 1] == line.schedule[..n - 1];
      AllButLast(line.schedule);
    }
    if w.outcome.Framed? {
      assert line.schedule[n - 1] in line.schedule[..n];
      CapsuleFields(w.buf, 0);
    }
  }

  /** The flag after a good answer. */
  lemma GoodAnswerFlag(line: Line, ready: bool, at: nat)
    requires WaitCapsule(line, ready, at).answer.ResultOk?
    ensures var c := WaitCapsule(line, ready, at);
            c.ready <==> ready && |line.pending| - |c.line.pending| == 84 && c.frame[3] < 0x80
  {
    hide WaitCapsule;
    var n := CallOutcome(line, ready, at);
  }

  lemma AllButLast(schedule: seq<Arrival>)
    requires schedule != []
    ensures AllAvailable(schedule) ==> AllAvailable(schedule[..|schedule| - 1]) && schedule[|schedule| - 1].Available?
  {
  }

  lemma FrameBehindJunk(line: Line, junk: seq<byte>, frame: seq<byte>, rest: seq<byte>)
    requires line.pending == junk + (frame + rest)
    requires |frame| == CAPSULE_SIZE && frame[0] / 0x10 == 0xA && frame[1] / 0x10 == 0x5
    requires WaitFrom(CapsuleFrame, [], line).outcome.Framed?
    ensures var w := WaitFrom(CapsuleFrame, [], line);
            w.buf == frame && w.line.pending == rest <==> Skipped(CapsuleFrame, junk)
  {
    ResyncIff(CapsuleFrame, junk, frame, rest);
    WaitAgrees(CapsuleFrame, [], line);
  }

  /** Bytes without a high nibble 0xA are skipped. */
  lemma NoFirstNibbleIsSkipped(junk: seq<byte>)
    requires forall b <- junk :: b / 0x10 != 0xA
    ensures Skipped(CapsuleFrame, junk)
  {
    JunkIsSkipped(CapsuleFrame, junk);
  }

  /** Behind bytes that are skipped, an encoded capsule is accepted and decoded. */
  lemma EncodedCapsuleAccepted(line: Line, ready: bool, at: nat, junk: seq<byte>, c: Capsule, rest: seq<byte>)
    requires line.pending == junk + (EncodeCapsule(c) + rest) && Skipped(CapsuleFrame, junk)
    requires WaitFrom(CapsuleFrame, [], line).outcome.Framed?
    ensures var r := WaitCapsule(line, ready, at);
            && r.answer.ResultOk? && DecodeCapsule(r.frame) == c && r.line.pending == rest
            && r.to == at + |junk| + CAPSULE_SIZE
            && r.ready == (ready && junk == [] && !c.IsFirst())
  {
    EncodedChecksumMatches(c);
    CapsuleRoundTrip(c);
    FrameBehindJunk(line, junk, EncodeCapsule(c), rest);
  }

  /** With one body byte changed it is rejected, and the flag is cleared. */
  lemma CorruptedCapsuleRejected(line: Line, ready: bool, at: nat, junk: seq<byte>, c: Capsule, rest: seq<byte>,
                                 i: nat, v: byte)
    requires 2 <= i < CAPSULE_SIZE && v != EncodeCapsule(c)[i]
    requires line.pending == junk + (EncodeCapsule(c)[i := v] + rest) && Skipped(CapsuleFrame, junk)
    requires WaitFrom(CapsuleFrame, [], line).outcome.Framed?
    ensures var r := WaitCapsule(line, ready, at);
            r.answer.InvalidData? && !r.ready && r.to == at + |junk| + CAPSULE_SIZE && r.line.pending == rest
  {
    var frame := EncodeCapsule(c);
    EncodedChecksumMatches(c);
    BodyErrorDetected(frame, i, v);
    FrameBehindJunk(line, junk, frame[i := v], rest);
  }

  // ----- a session -----

  /** The calls of at most `n` passes of the caching loop. A good capsule goes through the
      expander, which sets the flag; a failed link ends the loop. */
  function Session(line: Line, ready: bool, at: nat, n: nat): seq<Call>
    decreases n
  {
    if n == 0 then []
    else
      var c := WaitCapsule(line, ready, at);
      [c] + if c.answer.OperationFail? then [] else Session(c.line, FlagAfter(c), c.to, n - 1)
  }

  predicate FlagAfter(c: Call) { c.answer.ResultOk? || c.ready }

  /** What the expander is given, in order. */
  function Receptions(calls: seq<Call>): seq<Reception> {
    if calls == [] then []
    else
      var n := |calls| - 1;
      Receptions(calls[..n]) +
        if calls[n].answer.ResultOk? then [Reception(DecodeCapsule(calls[n].frame), calls[n].ready)] else []
  }

  lemma ReceptionsSnoc(calls: seq<Call>, c: Call)
    ensures Receptions(calls + [c]) == Receptions(calls) +
              if c.answer.ResultOk? then [Reception(DecodeCapsule(c.frame), c.ready)] else []
  {
    assert (calls + [c])[..|calls|] == calls;
  }

  /** What one call tells about the flag it leaves set. */
  predicate FlagExplained(ready: bool, c: Call) {
    c.ready ==> ready && c.to == c.from + |c.frame| && (c.answer.ResultOk? || c.answer.OperationTimeout? || c.answer.OperationFail?)
                && (!c.answer.ResultOk? ==> |c.frame| < CAPSULE_SIZE)
  }

  lemma CallExplained(line: Line, ready: bool, at: nat)
    ensures var c := WaitCapsule(line, ready, at);
            at == c.from <= c.to && FlagExplained(ready, c)
  {
  }

  /** Each call of a session starts where the one before it stopped, with the flag it left. */
  lemma {:induction false} SessionLinked(line: Line, ready: bool, at: nat, n: nat, k: nat)
    requires k < |Session(line, ready, at, n)|
    ensures var calls := Session(line, ready, at, n);
            && calls[k].from <= calls[k].to
            && calls[k].from == (if k == 0 then at else calls[k - 1].to)
            && FlagExplained(if k == 0 then ready else FlagAfter(calls[k - 1]), calls[k])
            && (k > 0 ==> !calls[k - 1].answer.OperationFail?)
    decreases n
  {
    hide WaitCapsule, FlagExplained;
    var c := WaitCapsule(line, ready, at);
    SessionStep(line, ready, at, n - 1);
    CallExplained(line, ready, at);
    if k > 0 {
      SessionLinked(c.line, FlagAfter(c), c.to, n - 1, k - 1);
    }
  }

  /** Two good calls with none between them. */
  predicate Successive(calls: seq<Call>, i: nat, j: nat) {
    && i < j < |calls| && calls[i].answer.ResultOk? && calls[j].answer.ResultOk?
    && forall k | i < k < j :: !calls[k].answer.ResultOk?
  }

  /** The bytes lost between two capsules that the expander pairs: each call in between timed out
      on the line, still holding every byte it took. The two frames are adjacent in the byte
      stream exactly when none of those calls held any. */
  lemma Adjacency(line: Line, ready: bool, at: nat, n: nat, i: nat, j: nat)
    requires Successive(Session(line, ready, at, n), i, j)
    requires Session(line, ready, at, n)[j].ready
    ensures var calls := Session(line, ready, at, n);
            && calls[j].to == calls[j].from + CAPSULE_SIZE
            && (forall k | i < k < j :: calls[k].answer.OperationTimeout? && calls[k].to == calls[k].from + |calls[k].frame|)
            && (calls[j].from == calls[i].to <==> forall k | i < k < j :: calls[k].frame == [])
  {
    hide Session, WaitCapsule;
    SessionLinked(line, ready, at, n, j);
    LostBytes(line, ready, at, n, i, j);
  }

  lemma {:induction false} LostBytes(line: Line, ready: bool, at: nat, n: nat, i: nat, j: nat)
    requires var calls := Session(line, ready, at, n);
             i < j < |calls| && calls[i].answer.ResultOk? && forall k | i < k < j :: !calls[k].answer.ResultOk?
    requires FlagAfter(Session(line, ready, at, n)[j - 1])
    ensures var calls := Session(line, ready, at, n);
            && calls[i].to <= calls[j].from
            && (forall k | i < k < j :: calls[k].answer.OperationTimeout? && calls[k].to == calls[k].from + |calls[k].frame|)
            && (calls[j].from == calls[i].to <==> forall k | i < k < j :: calls[k].frame == [])
    decreases j
  {
    hide Session, WaitCapsule;
    SessionLinked(line, ready, at, n, j);
    if i + 1 < j {
      SessionLinked(line, ready, at, n, j - 1);
      LostBytes(line, ready, at, n, i, j - 1);
    }
  }

  // ----- sessions on a clean byte stream -----

  function EncodeAll(cs: seq<Capsule>): seq<byte> {
    if cs == [] then [] else EncodeCapsule(cs[0]) + EncodeAll(cs[1..])
  }

  /** Does capsule `i` find the flag set? Every capsule before it left it set; a capsule marked as
      the first of a session clears it. */
  predicate FlagAt(cs: seq<Capsule>, ready: bool, i: nat)
    requires i < |cs|
  {
    (ready || i > 0) && !cs[i].IsFirst()
  }

  /** One reception per capsule. */
  function FlaggedRun(cs: seq<Capsule>, ready: bool): (run: seq<Reception>)
    ensures |run| == |cs|
  {
    seq(|cs|, i requires 0 <= i < |cs| => Reception(cs[i], FlagAt(cs, ready, i)))
  }

  lemma CleanWait(c: Capsule, rest: seq<byte>, line: Line, ready: bool, at: nat)
    requires line.pending == EncodeCapsule(c) + rest
    requires Patient(line.schedule) && |line.schedule| >= |line.pending|
    ensures var r := WaitCapsule(line, ready, at);
            && r.answer.ResultOk? && DecodeCapsule(r.frame) == c && r.ready == (ready && !c.IsFirst())
            && r.line.pending == rest && Patient(r.line.schedule) && |r.line.schedule| >= |rest|
  {
    var frame := EncodeCapsule(c);
    assert [] + frame == frame && [] + (frame + rest) == frame + rest;
    ParseFrame(CapsuleFrame, [], frame, rest);
    PatientWaitFrames(CapsuleFrame, [], line);
    EncodedCapsuleAccepted(line, ready, at, [], c, rest);
  }

  predicate AreCapsules(calls: seq<Call>, cs: seq<Capsule>, ready: bool) {
    && |calls| <= |cs|
    && forall k | 0 <= k < |calls| ::
         calls[k].answer.ResultOk? && DecodeCapsule(calls[k].frame) == cs[k] && calls[k].ready == FlagAt(cs, ready, k)
  }

  lemma {:induction false} ReceptionsOfCapsules(calls: seq<Call>, cs: seq<Capsule>, ready: bool)
    requires AreCapsules(calls, cs, ready)
    ensures Receptions(calls) == FlaggedRun(cs[..|calls|], ready)
    decreases |calls|
  {
    if calls != [] {
      var n := |calls| - 1;
      ReceptionsOfCapsules(calls[..n], cs, ready);
      assert FlaggedRun(cs[..n + 1], ready) == FlaggedRun(cs[..n], ready) + [Reception(cs[n], FlagAt(cs, ready, n))];
    }
  }

  lemma AreCapsulesCons(c: Call, rest: seq<Call>, cs: seq<Capsule>, ready: bool)
    requires cs != [] && AreCapsules(rest, cs[1..], true)
    requires c.answer.ResultOk? && DecodeCapsule(c.frame) == cs[0] && c.ready == FlagAt(cs, ready, 0)
    ensures AreCapsules([c] + rest, cs, ready)
  {
    forall k | 1 <= k < |[c] + rest| ensures ([c] + rest)[k] == rest[k - 1] && cs[k] == cs[1..][k - 1] {
    }
  }

  /** The line carries the frames of `cs` and keeps delivering, in whatever pieces. */
  predicate CleanFrom(line: Line, cs: seq<Capsule>) {
    && line.pending == EncodeAll(cs)
    && Patient(line.schedule) && |line.schedule| >= |line.pending|
  }

  lemma CleanFirst(line: Line, cs: seq<Capsule>, ready: bool, at: nat)
    requires CleanFrom(line, cs) && cs != []
    ensures var r := WaitCapsule(line, ready, at);
            && r.answer.ResultOk? && FlagAfter(r) && DecodeCapsule(r.frame) == cs[0] && r.ready == FlagAt(cs, ready, 0)
            && CleanFrom(r.line, cs[1..])
  {
    hide WaitCapsule, Patient;
    CleanWait(cs[0], EncodeAll(cs[1..]), line, ready, at);
  }

  lemma NoCallsYet(cs: seq<Capsule>, ready: bool)
    ensures AreCapsules([], cs, ready)
  {
  }

  lemma {:induction false} CleanCalls(cs: seq<Capsule>, line: Line, ready: bool, at: nat, n: nat)
    requires CleanFrom(line, cs) && n <= |cs|
    ensures |Session(line, ready, at, n)| == n && AreCapsules(Session(line, ready, at, n), cs, ready)
    decreases n
  {
    hide *;
    if n == 0 {
      SessionEnd(line, ready, at);
      NoCallsYet(cs, ready);
    } else {
      CleanFirst(line, cs, ready, at);
      SessionStep(line, ready, at, n - 1);
      var c := WaitCapsule(line, ready, at);
      CleanCalls(cs[1..], c.line, true, c.to, n - 1);
      AreCapsulesCons(c, Session(c.line, true, c.to, n - 1), cs, ready);
    }
  }

  /** On a line that keeps delivering, however it cuts the bytes of `cs` into chunks, a session
      receives exactly those capsules; each but the first finds the flag set, unless it is itself
      marked as the first of a session. */
  lemma CleanSession(cs: seq<Capsule>, line: Line, ready: bool, at: nat, n: nat)
    requires CleanFrom(line, cs) && n <= |cs|
    ensures Receptions(Session(line, ready, at, n)) == FlaggedRun(cs[..n], ready)
  {
    CleanCalls(cs, line, ready, at, n);
    ReceptionsOfCapsules(Session(line, ready, at, n), cs, ready);
  }

  // ----- sessions on frames that may be corrupted -----

  predicate IsFramed(f: seq<byte>) { |f| == 84 && 0xA0 <= f[0] < 0xB0 && 0x50 <= f[1] < 0x60 }

  predicate AllFramed(fs: seq<seq<byte>>) { forall i | 0 <= i < |fs| :: IsFramed(fs[i]) }

  function Joined(fs: seq<seq<byte>>): seq<byte> {
    if fs == [] then [] else fs[0] + Joined(fs[1..])
  }

  /** What should come of frames sent back to back: those with a matching checksum are received, and
      find the flag set if the one before was received too and they are not marked as first. */
  function Salvaged(fs: seq<seq<byte>>, ready: bool): seq<Reception>
    requires AllFramed(fs)
  {
    if fs == [] then []
    else if ChecksumMatches(fs[0]) then
      [Reception(DecodeCapsule(fs[0]), ready && fs[0][3] < 0x80)] + Salvaged(fs[1..], true)
    else Salvaged(fs[1..], false)
  }

  lemma FramedCall(line: Line, f: seq<byte>, rest: seq<byte>, ready: bool, at: nat)
    requires line.pending == f + rest && IsFramed(f) && Patient(line.schedule) && |line.schedule| >= |line.pending|
    ensures var r := WaitCapsule(line, ready, at);
            && r.frame == f && r.line.pending == rest
            && (if ChecksumMatches(f) then r.answer.ResultOk? && r.ready == (ready && f[3] < 0x80)
                else r.answer.InvalidData? && !r.ready)
            && Patient(r.line.schedule) && |r.line.schedule| >= |rest|
  {
    hide ChecksumMatches, WaitFrom, Patient;
    assert [] + (f + rest) == f + rest;
    ParserStep(CapsuleFrame, f + rest);
    assert (f + rest)[..84] == f && (f + rest)[84..] == rest;
    WaitDelivers(CapsuleFrame, line, [], f, rest);
    PatientWaitFrames(CapsuleFrame, [], line);
    CapsuleFields(f, 0);
  }

  lemma {:induction false} ReceptionsConcat(a: seq<Call>, b: seq<Call>)
    ensures Receptions(a + b) == Receptions(a) + Receptions(b)
    decreases |b|
  {
    if b == [] {
      assert a + b == a;
    } else {
      var n := |b| - 1;
      assert a + b == a + b[..n] + [b[n]] && b == b[..n] + [b[n]];
      ReceptionsConcat(a, b[..n]);
      ReceptionsSnoc(a + b[..n], b[n]);
      ReceptionsSnoc(b[..n], b[n]);
    }
  }

  lemma OneReceived(c: Call)
    ensures Receptions([c]) == if c.answer.ResultOk? then [Reception(DecodeCapsule(c.frame), c.ready)] else []
  {
    hide DecodeCapsule;
    ReceptionsSnoc([], c);
    assert [] + [c] == [c];
  }

  /** On a line that keeps delivering, a session receives exactly the frames whose checksum matches. A
      corrupted one is left out, and opens a gap. */
  lemma {:induction false} FramedSession(fs: seq<seq<byte>>, rest: seq<byte>, line: Line, ready: bool, at: nat)
    requires AllFramed(fs) && line.pending == Joined(fs) + rest
    requires Patient(line.schedule) && |line.schedule| >= |line.pending|
    ensures Receptions(Session(line, ready, at, |fs|)) == Salvaged(fs, ready)
    decreases |fs|
  {
    hide WaitCapsule, Patient, Receptions, ChecksumMatches, DecodeCapsule, IsFramed;
    if fs == [] {
      SessionEnd(line, ready, at);
      assert Receptions([]) == [] by { NoneReceived(); }
    } else {
      var c := WaitCapsule(line, ready, at);
      assert line.pending == fs[0] + (Joined(fs[1..]) + rest);
      FramedCall(line, fs[0], Joined(fs[1..]) + rest, ready, at);
      FramedSession(fs[1..], rest, c.line, FlagAfter(c), c.to);
      SessionStep(line, ready, at, |fs| - 1);
      ReceptionsConcat([c], Session(c.line, FlagAfter(c), c.to, |fs| - 1));
      OneReceived(c);
    }
  }

  lemma NoneReceived()
    ensures Receptions([]) == []
  {
  }

  // ----- timeouts -----

  lemma WholeFrameChunk(frame: seq<byte>, rest: seq<byte>, later: seq<Arrival>)
    requires |frame| == CAPSULE_SIZE && frame[0] / 0x10 == 0xA && frame[1] / 0x10 == 0x5
    ensures WaitFrom(CapsuleFrame, [], Line(frame + rest, [Available(84)] + later)) == Wait(Framed, frame, Line(rest, later))
  {
    var line := Line(frame + rest, [Available(84)] + later);
    assert [] + frame == frame && frame + [] == frame;
    ParseFrame(CapsuleFrame, [], frame, []);
    assert line.pending[..84] == frame && line.pending[84..] == rest && line.schedule[1..] == later;
    WaitOnChunk(CapsuleFrame, [], line);
  }

  lemma StrayByteThenSilence(stray: byte, rest: seq<byte>, later: seq<Arrival>)
    requires stray / 0x10 == 0xA
    ensures WaitFrom(CapsuleFrame, [], Line([stray] + rest, [Available(1), Silence] + later)) ==
            Wait(LinkTimeout, [stray], Line(rest, later))
  {
    var line := Line([stray] + rest, [Available(1), Silence] + later);
    assert line.pending[..1] == [stray] && line.pending[1..] == rest && [stray][1..] == [];
    assert line.schedule[1..] == [Silence] + later && line.schedule[1..][1..] == later;
    assert ParseFrom(CapsuleFrame, [], [stray]) == Partial([stray]);
    WaitOnChunk(CapsuleFrame, [], line);
  }

  lemma WholeFrameCall(c: Capsule, rest: seq<byte>, later: seq<Arrival>, ready: bool, at: nat)
    ensures WaitCapsule(Line(EncodeCapsule(c) + rest, [Available(84)] + later), ready, at) ==
            CallData.Call(ResultOk, EncodeCapsule(c), at, at + 84, ready && !c.IsFirst(), Line(rest, later))
  {
    EncodedChecksumMatches(c);
    CapsuleRoundTrip(c);
    WholeFrameChunk(EncodeCapsule(c), rest, later);
  }

  lemma StrayByteCall(stray: byte, rest: seq<byte>, later: seq<Arrival>, ready: bool, at: nat)
    requires stray / 0x10 == 0xA
    ensures WaitCapsule(Line([stray] + rest, [Available(1), Silence] + later), ready, at) ==
            CallData.Call(OperationTimeout, [stray], at, at + 1, ready, Line(rest, later))
  {
    StrayByteThenSilence(stray, rest, later);
  }

  lemma SessionStep(line: Line, ready: bool, at: nat, n: nat)
    ensures var c := WaitCapsule(line, ready, at);
            !c.answer.OperationFail? ==>
              Session(line, ready, at, n + 1) == [c] + Session(c.line, FlagAfter(c), c.to, n)
  {
  }

  lemma SessionEnd(line: Line, ready: bool, at: nat)
    ensures Session(line, ready, at, 0) == []
  {
  }

  lemma SessionAdvance(done: seq<Call>, line: Line, ready: bool, at: nat, n: nat)
    requires n > 0
    ensures var c := WaitCapsule(line, ready, at);
            done + Session(line, ready, at, n) ==
            done + [c] + if c.answer.OperationFail? then [] else Session(c.line, FlagAfter(c), c.to, n - 1)
  {
  }

  /** A timeout that swallows part of a frame does not clear the flag: the next capsule is paired
      with the one before the timeout although a byte between them was lost. */
  lemma PartialTimeoutBreaksAdjacency(a: Capsule, b: Capsule, stray: byte, at: nat)
    requires stray / 0x10 == 0xA && !b.IsFirst()
    ensures var line := Line(EncodeCapsule(a) + ([stray] + (EncodeCapsule(b) + [])),
                             [Available(84)] + ([Available(1), Silence] + ([Available(84)] + [])));
            var calls := Session(line, false, at, 3);
            Successive(calls, 0, 2) && calls[2].ready && calls[2].from == calls[0].to + 1
  {
    var tail, s2 := EncodeCapsule(b) + [], [Available(84)] + [];
    var s1 := [Available(1), Silence] + s2;
    WholeFrameCall(a, [stray] + tail, [Available(1), Silence] + s2, false, at);
    StrayByteCall(stray, tail, s2, true, at + 84);
    WholeFrameCall(b, [], [], true, at + 85);
    SessionStep(Line(EncodeCapsule(a) + ([stray] + tail), [Available(84)] + s1), false, at, 2);
    SessionStep(Line([stray] + tail, s1), true, at + 84, 1);
    SessionStep(Line(tail, s2), true, at + 85, 0);
  }
}
