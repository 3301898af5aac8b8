// The serial driver: its fields, the two caching loops that fill them, and the grabber.
module LidarDriver {
  import opened Bytes
  import opened LidarFrames
  import opened FrameParser
  import opened CapsuleExpander
  import opened ScanSplit
  import opened Revolution
  import opened CapsuleReceiver
  import opened NormalBatches

  datatype EventResult = EventOk | EventTimeout | EventFailed

  /** How a wait on the condition variable ends. */
  datatype Wake = SetMeanwhile | TimedOut | Failed

  /** An auto-reset event on a condition variable. */
  class Event {
    var isSignalled: bool
    const isAutoReset: bool

    constructor (isAutoReset: bool, isSignal: bool)
      ensures this.isAutoReset == isAutoReset && isSignalled == isSignal
    {
      this.isAutoReset, isSignalled := isAutoReset, isSignal;
    }

    method Set(isSignal: bool)
      modifies this
      ensures isSignalled == isSignal
    {
      if isSignal {
        if !isSignalled {
          isSignalled := true;
        }
      } else {
        isSignalled := false;
      }
    }

    /** `wake` counts only if the event is not signalled yet; another thread may set it then. */
    method Wait(wake: Wake) returns (r: EventResult)
      modifies this
      ensures old(isSignalled) || wake.SetMeanwhile? ==> r.EventOk? && isSignalled == !isAutoReset
      ensures !old(isSignalled) && !wake.SetMeanwhile? ==>
                !isSignalled && r == if wake.TimedOut? then EventTimeout else EventFailed
    {
      if !isSignalled {
        match wake {
          case SetMeanwhile => isSignalled := true;
          case TimedOut => return EventTimeout;
          case Failed => return EventFailed;
        }
      }
      assert isSignalled;
      if isAutoReset {
        isSignalled := false;
      }
      return EventOk;
    }
  }

  class Driver {
    const maxScanNodes: ScanCapacity
    const cachedScanNodeBuf: array<Node>
    const dataEvt: Event
    var cachedScanNodeCount: nat
    var isPreviousCapsuleReady: bool
    var cachedPreviousCapsule: Capsule
    var isScanning: bool
    var isConnected: bool
    ghost var published: seq<seq<Node>>  // every scan handed over so far

    ghost predicate Valid()
      reads this`cachedScanNodeCount, this`published, cachedScanNodeBuf
    {
      && cachedScanNodeBuf.Length == maxScanNodes
      && cachedScanNodeCount <= maxScanNodes && dataEvt.isAutoReset
      && (cachedScanNodeCount > 0 ==>
            published != [] && cachedScanNodeBuf[..cachedScanNodeCount] == published[|published| - 1])
    }

    /** The ready flag, the cached capsule and the scan buffer are not initialised: they start out
        as whatever the memory holds. */
    constructor (maxScanNodes: ScanCapacity, heldFlag: bool, heldCapsule: Capsule)
      ensures Valid() && fresh(cachedScanNodeBuf) && fresh(dataEvt)
      ensures this.maxScanNodes == maxScanNodes && published == []
      ensures isPreviousCapsuleReady == heldFlag && cachedPreviousCapsule == heldCapsule
      ensures !isScanning && !isConnected && cachedScanNodeCount == 0 && !dataEvt.isSignalled
    {
      this.maxScanNodes := maxScanNodes;
      cachedScanNodeBuf := new Node[maxScanNodes];
      dataEvt := new Event(true, false);
      cachedScanNodeCount, published := 0, [];
      isScanning, isConnected := false, false;
      isPreviousCapsuleReady, cachedPreviousCapsule := heldFlag, heldCapsule;
    }

    // ----- receiving -----

    method WaitNode(line: SerialLine) returns (outcome: WaitOutcome, node: Node)
      modifies line
      ensures var w := old(WaitFrom(MeasurementFrame, [], line.State()));
              outcome == w.outcome && line.State() == w.line && (outcome.Framed? ==> node == DecodeNode(w.buf))
      ensures outcome.Framed? ==> node.CheckBit() == 1 && (node.IsSync() <==> node.syncQuality / 2 % 2 == 0)
    {
      hide WaitFrom;
      if WaitFrom(MeasurementFrame, [], line.State()).outcome.Framed? {
        DeliveredFramesTested(MeasurementFrame, line.State());
        NodeFields(WaitFrom(MeasurementFrame, [], line.State()).buf);
      }
      var buf, resynced;
      outcome, buf, resynced := WaitFrame(MeasurementFrame, line);
      node := if outcome.Framed? then DecodeNode(buf) else Node(0, 0, 0);
    }

    method WaitResponseHeader(line: SerialLine) returns (outcome: WaitOutcome, header: seq<byte>)
      modifies line
      ensures var w := old(WaitFrom(HeaderFrame, [], line.State()));
              outcome == w.outcome && line.State() == w.line && header == w.buf
      ensures outcome.Framed? ==> |header| == HEADER_SIZE && header[0] == 0xA5 && header[1] == 0x5A
    {
      WaitAgrees(HeaderFrame, [], line.State());
      ParseTested(HeaderFrame, [], line.pending);
      var resynced;
      outcome, header, resynced := WaitFrame(HeaderFrame, line);
    }

    /** The capsule parser: rejected bytes, a clock timeout, a bad checksum and the first capsule
        of a session clear the ready flag; a link timeout or failure does not. */
    method WaitCapsuledNode(line: SerialLine, ghost at: nat)
      returns (answer: Answer, frame: seq<byte>, ghost call: Call)
      modifies line, this`isPreviousCapsuleReady
      ensures call == old(WaitCapsule(line.State(), isPreviousCapsuleReady, at))
      ensures answer == call.answer && frame == call.frame
      ensures line.State() == call.line && isPreviousCapsuleReady == call.ready
      ensures answer == ResultOk ==>
                && |frame| == 84
                && (isPreviousCapsuleReady <==>
                      old(isPreviousCapsuleReady) && |old(line.pending)| - |line.pending| == 84 && frame[3] < 0x80)
    {
      ghost var before, wasReady := line.State(), isPreviousCapsuleReady;
      hide WaitFrom, DecodeCapsule;
      call := WaitCapsule(line.State(), isPreviousCapsuleReady, at);
      var outcome, buf, resynced := WaitFrame(CapsuleFrame, line);
      if resynced {
        isPreviousCapsuleReady := false;
      }
      match outcome {
        case LinkError => return OperationFail, buf, call;
        case LinkTimeout => return OperationTimeout, buf, call;
        case ClockExpired =>
          isPreviousCapsuleReady := false;
          return OperationTimeout, buf, call;
        case Framed =>
      }
      var recvChecksum := CarriedChecksum(buf);
      var checksum: byte := 0;
      for cpos := 2 to CAPSULE_SIZE
        invariant checksum == XorAll(buf[2..cpos])
      {
        assert buf[2..cpos + 1][..cpos - 2] == buf[2..cpos];
        checksum := Xor(checksum, buf[cpos]);
      }
      assert buf[2..CAPSULE_SIZE] == buf[2..];
      if recvChecksum == checksum {
        if DecodeCapsule(buf).IsFirst() {
          isPreviousCapsuleReady := false;
        }
        GoodAnswerFlag(before, wasReady, at);
        return ResultOk, buf, call;
      }
      isPreviousCapsuleReady := false;
      return InvalidData, buf, call;
    }

    /** Expands the previous capsule up to the new one if the flag is set, then caches the new one. */
    method CapsuleToNormal(capsule: Capsule, nodebuffer: array<Node>) returns (nodeCount: nat)
      requires NODES_PER_CAPSULE <= nodebuffer.Length
      modifies this`isPreviousCapsuleReady, this`cachedPreviousCapsule, nodebuffer
      ensures nodeCount <= nodebuffer.Length
      ensures nodebuffer[..nodeCount] ==
              if old(isPreviousCapsuleReady) then Expand(old(cachedPreviousCapsule), capsule) else []
      ensures isPreviousCapsuleReady && cachedPreviousCapsule == capsule
    {
      nodeCount := 0;
      if isPreviousCapsuleReady {
        ghost var nodes := Expand(cachedPreviousCapsule, capsule);
        var angleInc := AngleIncQ16(cachedPreviousCapsule, capsule);
        var currentAngle := 0x100 * (4 * cachedPreviousCapsule.StartQ6());
        for pos := 0 to CABIN_COUNT
          invariant nodeCount == 2 * pos
          invariant currentAngle == RawAngleQ16(cachedPreviousCapsule, capsule, nodeCount)
          invariant nodebuffer[..nodeCount] == nodes[..nodeCount]
          invariant isPreviousCapsuleReady == old(isPreviousCapsuleReady)
          invariant cachedPreviousCapsule == old(cachedPreviousCapsule)
        {
          for cpos := 0 to 2
            invariant nodeCount == 2 * pos + cpos
            invariant currentAngle == RawAngleQ16(cachedPreviousCapsule, capsule, nodeCount)
            invariant nodebuffer[..nodeCount] == nodes[..nodeCount]
            invariant isPreviousCapsuleReady == old(isPreviousCapsuleReady)
            invariant cachedPreviousCapsule == old(cachedPreviousCapsule)
          {
            var cabin, second := cachedPreviousCapsule.cabins[pos], cpos == 1;
            var angle := UncorrectedQ6(currentAngle, OffsetQ3(cabin, second));
            var syncBit := TruncatedRem(currentAngle + angleInc, FULL_TURN_Q16) < angleInc;
            nodebuffer[nodeCount] := MakeNode(syncBit, DistanceQ2(cabin, second), CorrectedQ6(angle));
            assert nodebuffer[nodeCount] == nodes[nodeCount];
            RawAngleNext(cachedPreviousCapsule, capsule, nodeCount);
            currentAngle := currentAngle + angleInc;
            nodeCount := nodeCount + 1;
            assert nodebuffer[..nodeCount] == nodes[..nodeCount];
          }
        }
        assert nodes[..nodeCount] == nodes;
      }
      cachedPreviousCapsule := capsule;
      isPreviousCapsuleReady := true;
    }

    // ----- cutting and publishing -----

    method Publish(localScan: array<Node>, scanCount: nat)
      requires Valid() && 0 < scanCount <= localScan.Length == maxScanNodes && localScan != cachedScanNodeBuf
      modifies this`cachedScanNodeCount, this`published, cachedScanNodeBuf, dataEvt
      ensures Valid() && dataEvt.isSignalled && cachedScanNodeCount == scanCount
      ensures published == old(published) + [localScan[..scanCount]]
    {
      forall i | 0 <= i < scanCount {
        cachedScanNodeBuf[i] := localScan[i];
      }
      cachedScanNodeCount := scanCount;
      dataEvt.Set(true);
      published := published + [localScan[..scanCount]];
      assert cachedScanNodeBuf[..scanCount] == localScan[..scanCount];
    }

    /** One pass of the cutting loop: a sync node publishes the open scan and starts afresh; the
        last slot of the local buffer is overwritten for ever. */
    method CutNode(localScan: array<Node>, scanCount0: nat, node: Node,
                   ghost stream: seq<Node>, ghost before: seq<seq<Node>>)
      returns (scanCount: nat)
      requires Valid() && localScan.Length == maxScanNodes && localScan != cachedScanNodeBuf
      requires CutState(stream, localScan[..], scanCount0)
      requires published == before + Scans(stream, maxScanNodes)
      modifies this`cachedScanNodeCount, this`published, cachedScanNodeBuf, dataEvt, localScan
      ensures Valid() && CutState(stream + [node], localScan[..], scanCount)
      ensures published == before + Scans(stream + [node], maxScanNodes)
    {
      hide Scans, CutState;
      scanCount := scanCount0;
      ghost var local0 := localScan[..];
      CutStep(stream, local0, scanCount0, node);
      CutPublishes(stream, local0, scanCount0, node);
      if node.IsSync() {
        if localScan[0].IsSync() {
          Publish(localScan, scanCount);
        }
        scanCount := 0;
      }
      localScan[scanCount] := node;
      assert localScan[..] == local0[NextSlot(scanCount0, node) := node];
      scanCount := scanCount + 1;
      if scanCount == maxScanNodes {
        scanCount := scanCount - 1;
      }
    }

    /** The cutting loop over one batch, `stream` being all the nodes cut before it. */
    method CutBatch(localScan: array<Node>, scanCount0: nat, localBuf: array<Node>, count: nat,
                    ghost stream: seq<Node>, ghost before: seq<seq<Node>>)
      returns (scanCount: nat)
      requires Valid() && localScan.Length == maxScanNodes && count <= localBuf.Length
      requires localScan != cachedScanNodeBuf && localBuf != cachedScanNodeBuf && localScan != localBuf
      requires CutState(stream, localScan[..], scanCount0)
      requires published == before + Scans(stream, maxScanNodes)
      modifies this`cachedScanNodeCount, this`published, cachedScanNodeBuf, dataEvt, localScan
      ensures Valid()
      ensures CutState(stream + localBuf[..count], localScan[..], scanCount)
      ensures published == before + Scans(stream + localBuf[..count], maxScanNodes)
    {
      scanCount := scanCount0;
      assert stream + localBuf[..0] == stream;
      for pos := 0 to count
        invariant Valid() && localBuf[..] == old(localBuf[..])
        invariant CutState(stream + localBuf[..pos], localScan[..], scanCount)
        invariant published == before + Scans(stream + localBuf[..pos], maxScanNodes)
      {
        assert stream + localBuf[..pos + 1] == stream + localBuf[..pos] + [localBuf[pos]];
        scanCount := CutNode(localScan, scanCount, localBuf[pos], stream + localBuf[..pos], before);
      }
    }

    // ----- the capsule caching loop -----

    /** The loop's state once the calls `done` have been dealt with. */
    ghost predicate Cached(prior: Capsule, done: seq<Call>, before: seq<seq<Node>>, localScan: array<Node>, scanCount: nat)
      reads this`cachedPreviousCapsule, this`cachedScanNodeCount, this`published, cachedScanNodeBuf, localScan
    {
      && Valid() && localScan.Length == maxScanNodes && localScan != cachedScanNodeBuf
      && var run := Receptions(done);
      && cachedPreviousCapsule == LastCapsule(prior, run)
      && CutState(NodeStream(prior, run), localScan[..], scanCount)
      && published == before + Scans(NodeStream(prior, run), maxScanNodes)
    }

    /** One pass: a failed or rejected call is skipped, a good capsule is expanded and cut. */
    method CachePass(line: SerialLine, localBuf: array<Node>, localScan: array<Node>, scanCount0: nat,
                     ghost at: nat, ghost prior: Capsule, ghost done: seq<Call>, ghost before: seq<seq<Node>>)
      returns (answer: Answer, scanCount: nat, ghost call: Call)
      requires Cached(prior, done, before, localScan, scanCount0)
      requires NODES_PER_CAPSULE <= localBuf.Length && localBuf != cachedScanNodeBuf && localBuf != localScan
      modifies line, this`isPreviousCapsuleReady, this`cachedPreviousCapsule, this`cachedScanNodeCount, this`published
      modifies cachedScanNodeBuf, dataEvt, localScan, localBuf
      ensures call == old(WaitCapsule(line.State(), isPreviousCapsuleReady, at)) && answer == call.answer
      ensures line.State() == call.line && isPreviousCapsuleReady == FlagAfter(call)
      ensures Cached(prior, done + [call], before, localScan, scanCount)
    {
      hide CutState, Scans, NodeStream, Receptions, WaitCapsule, Expand, DecodeCapsule;
      ghost var run := Receptions(done);
      scanCount := scanCount0;
      var frame;
      answer, frame, call := WaitCapsuledNode(line, at);
      ReceptionsSnoc(done, call);
      if answer != ResultOk {
        assert Receptions(done + [call]) == run;
        return;
      }
      var capsule := DecodeCapsule(frame);
      NodeStreamSnoc(prior, run, Reception(capsule, isPreviousCapsuleReady));
      var count := CapsuleToNormal(capsule, localBuf);
      scanCount := CutBatch(localScan, scanCount, localBuf, count, NodeStream(prior, run), before);
    }

    /** The loop proper; another thread clears the scanning flag before pass `passes`. */
    method CacheLoop(line: SerialLine, localBuf: array<Node>, localScan: array<Node>, passes: nat,
                     ghost at0: nat, ghost prior: Capsule, ghost before: seq<seq<Node>>)
      returns (answer: Answer, ghost scanCount: nat, ghost calls: seq<Call>)
      requires Cached(prior, [], before, localScan, 0) && isScanning
      requires NODES_PER_CAPSULE <= localBuf.Length && localBuf != cachedScanNodeBuf && localBuf != localScan
      modifies line, this, cachedScanNodeBuf, dataEvt, localScan, localBuf
      ensures calls == old(Session(line.State(), isPreviousCapsuleReady, at0, passes))
      ensures Cached(prior, calls, before, localScan, scanCount) && !isScanning
      ensures answer == if calls != [] && calls[|calls| - 1].answer.OperationFail? then OperationFail else ResultOk
    {
      hide *;
      calls := [];
      var count: nat := 0;
      ghost var at, target := at0, Session(line.State(), isPreviousCapsuleReady, at0, passes);
      var pass := 0;
      while pass < passes
        invariant 0 <= pass <= passes && isScanning
        invariant calls + Session(line.State(), isPreviousCapsuleReady, at, passes - pass) == target
        invariant calls != [] ==> !calls[|calls| - 1].answer.OperationFail?
        invariant Cached(prior, calls, before, localScan, count)
      {
        SessionAdvance(calls, line.State(), isPreviousCapsuleReady, at, passes - pass);
        ghost var call;
        answer, count, call := CachePass(line, localBuf, localScan, count, at, prior, calls, before);
        pass := pass + 1;
        calls, at := calls + [call], call.to;
        if answer == OperationFail {
          isScanning := false;
          return answer, count, calls;
        }
      }
      SessionEnd(line.State(), isPreviousCapsuleReady, at);
      isScanning := false;
      return ResultOk, count, calls;
    }

    /** The capsule caching thread. The first capsule is always discarded. */
    method CacheCapsuledScanData(line: SerialLine, passes: nat)
      returns (answer: Answer, ghost first: Call, ghost calls: seq<Call>)
      requires Valid() && isScanning
      modifies line, this, cachedScanNodeBuf, dataEvt
      ensures Valid() && !isScanning
      ensures first == old(WaitCapsule(line.State(), isPreviousCapsuleReady, 0))
      ensures calls == Session(first.line, first.ready, first.to, passes)
      ensures published == old(published) +
                Scans(NodeStream(old(cachedPreviousCapsule), Receptions(calls)), maxScanNodes)
      ensures answer == if calls != [] && calls[|calls| - 1].answer.OperationFail? then OperationFail else ResultOk
    {
      hide CutState, Scans, WaitCapsule, Session;
      var localBuf := new Node[128];
      var localScan := new Node[maxScanNodes](_ => Node(0, 0, 0));
      CutStart(localScan[..]);
      NothingReceived(cachedPreviousCapsule);
      ghost var prior, before := cachedPreviousCapsule, published;
      var ans, frame;
      ans, frame, first := WaitCapsuledNode(line, 0);
      assert before + [] == before;
      ghost var scanCount;
      answer, scanCount, calls := CacheLoop(line, localBuf, localScan, passes, first.to, prior, before);
    }
  
    // ----- the node caching loop -----

    /** Fills the front of `nodebuffer`; only this call's own clock test updates the count. */
    method WaitScanData(line: SerialLine, nodebuffer: array<Node>, count0: nat, patience: nat)
      returns (end: BatchEnd, count: nat)
      requires count0 <= nodebuffer.Length
      modifies line, nodebuffer
      ensures count <= count0
      ensures !isConnected ==> end.LinkFailed? && count == 0 && line.State() == old(line.State())
      ensures !isConnected ==> nodebuffer[..] == old(nodebuffer[..])
      ensures isConnected ==>
                var b := old(WaitBatch(line.State(), count0, patience));
                && end == b.end && line.State() == b.line && count == CountAfter(count0, b)
                && nodebuffer[..] == Overlay(old(nodebuffer[..]), b.received)
    {
      hide WaitBatch, WaitFrom, Overlay, DecodeNode;
      if !isConnected { return LinkFailed, 0; }
      var recvNodeCount := 0;
      ghost var target := WaitBatch(line.State(), count0, patience);
      ghost var received := [];
      OverlayNothing(nodebuffer[..]);
      var tests := patience;
      while tests > 0 && recvNodeCount < count0
        invariant 0 <= recvNodeCount == |received| <= count0
        invariant recvNodeCount == count0 ==> count0 == 0
        invariant nodebuffer[..] == Overlay(old(nodebuffer[..]), received)
        invariant Prefixed(received, WaitBatch(line.State(), count0 - recvNodeCount, tests)) == target
      {
        BatchStep(line.State(), count0 - recvNodeCount, tests);
        var outcome, node := WaitNode(line);
        assert received + [] == received;
        match outcome {
          case LinkError => return LinkFailed, count0;
          case LinkTimeout => return ParserTimeout, count0;
          case ClockExpired => return ParserTimeout, count0;
          case Framed =>
        }
        PrefixedSnoc(received, node, WaitBatch(line.State(), count0 - recvNodeCount - 1, tests - 1));
        OverlayStore(old(nodebuffer[..]), received, node);
        nodebuffer[recvNodeCount] := node;
        assert nodebuffer[..] == Overlay(old(nodebuffer[..]), received)[recvNodeCount := node];
        recvNodeCount := recvNodeCount + 1;
        tests := tests - 1;
        received := received + [node];
        if recvNodeCount == count0 { return Full, count0; }
      }
      assert received + [] == received;
      BatchOver(line.State(), count0 - recvNodeCount, tests);
      return ClockOut, recvNodeCount;
    }

    /** The node caching thread: one patience for the discarded first batch, one for each pass. */
    method CacheScanData(line: SerialLine, patience0: nat, patiences: seq<nat>)
      returns (answer: Answer, ghost first: Batch, ghost start: seq<Node>)
      requires Valid() && isScanning && isConnected
      modifies line, this, cachedScanNodeBuf, dataEvt
      ensures Valid() && !isScanning
      ensures first == old(WaitBatch(line.State(), 128, patience0)) && |start| == 128
      ensures published == old(published) +
                Scans(NormalFeed(first.line, start, CountAfter(128, first), patiences), maxScanNodes)
      ensures answer == if LinkFails(first.line, CountAfter(128, first), patiences) then OperationFail else ResultOk
    {
      hide *;
      var localBuf := new Node[128];
      var localScan := new Node[maxScanNodes](_ => Node(0, 0, 0));
      CutStart(localScan[..]);
      first := WaitBatch(line.State(), 128, patience0);
      ghost var before := published;
      var end, count := WaitScanData(line, localBuf, 128, patience0);
      start := localBuf[..];
      assert before + [] == before;
      answer := NormalLoop(line, localBuf, localScan, count, patiences, before);
    }

    method NormalLoop(line: SerialLine, localBuf: array<Node>, localScan: array<Node>, count0: nat,
                      patiences: seq<nat>, ghost before: seq<seq<Node>>)
      returns (answer: Answer)
      requires Valid() && isScanning && isConnected && localScan.Length == maxScanNodes
      requires localScan != cachedScanNodeBuf && localBuf != cachedScanNodeBuf && localScan != localBuf
      requires count0 <= localBuf.Length && CutState([], localScan[..], 0)
      requires published == before + Scans([], maxScanNodes)
      modifies line, this, cachedScanNodeBuf, dataEvt, localScan, localBuf
      ensures Valid() && !isScanning
      ensures published == before +
                Scans(old(NormalFeed(line.State(), localBuf[..], count0, patiences)), maxScanNodes)
      ensures answer == if old(LinkFails(line.State(), count0, patiences)) then OperationFail else ResultOk
    {
      hide *;
      var count: nat, scanCount: nat := count0, 0;
      ghost var stream, target := [], NormalFeed(line.State(), localBuf[..], count0, patiences);
      var pass := 0;
      while pass < |patiences|
        invariant 0 <= pass <= |patiences| && isConnected && Valid()
        invariant count <= localBuf.Length
        invariant stream + NormalFeed(line.State(), localBuf[..], count, patiences[pass..]) == target
        invariant LinkFails(line.State(), count, patiences[pass..]) == old(LinkFails(line.State(), count0, patiences))
        invariant CutState(stream, localScan[..], scanCount)
        invariant published == before + Scans(stream, maxScanNodes)
      {
        FeedAdvance(stream, line.State(), localBuf[..], count, patiences[pass..]);
        assert patiences[pass..][1..] == patiences[pass + 1..];
        var end;
        end, count := WaitScanData(line, localBuf, count, patiences[pass]);
        pass := pass + 1;
        if end.LinkFailed? {
          isScanning := false;
          return OperationFail;
        }
        scanCount := CutBatch(localScan, scanCount, localBuf, count, stream, before);
        stream := stream + localBuf[..count];
      }
      assert patiences[pass..] == [] && stream + [] == stream;
      FeedEnd(line.State(), localBuf[..], count);
      isScanning := false;
      return ResultOk;
    }

    // ----- grabbing -----

    /** Copies the cached scan out. A wake-up that finds no scan is reported as a timeout, and
        then the caller's count is left as it was. */
    method GrabScanData(nodebuffer: array<Node>, count0: nat, wake: Wake) returns (answer: Answer, count: nat)
      requires Valid() && count0 <= nodebuffer.Length && nodebuffer != cachedScanNodeBuf
      modifies this`cachedScanNodeCount, dataEvt, nodebuffer
      ensures Valid()
      ensures !old(dataEvt.isSignalled) && !wake.SetMeanwhile? ==>
                answer == (if wake.TimedOut? then OperationTimeout else OperationFail) && count == 0
      ensures (old(dataEvt.isSignalled) || wake.SetMeanwhile?) && old(cachedScanNodeCount) == 0 ==>
                answer == OperationTimeout && count == count0
      ensures (old(dataEvt.isSignalled) || wake.SetMeanwhile?) && old(cachedScanNodeCount) > 0 ==>
                && answer == ResultOk && count == Min(count0, old(cachedScanNodeCount))
                && cachedScanNodeCount == 0 && !dataEvt.isSignalled
                && published != [] && count <= |published[|published| - 1]|
                && nodebuffer[..] == published[|published| - 1][..count] + old(nodebuffer[..])[count..]
      ensures answer != ResultOk ==>
                cachedScanNodeCount == old(cachedScanNodeCount) && nodebuffer[..] == old(nodebuffer[..])
    {
      var r := dataEvt.Wait(wake);
      match r {
        case EventTimeout => return OperationTimeout, 0;
        case EventFailed => return OperationFail, 0;
        case EventOk =>
      }
      if cachedScanNodeCount == 0 { return OperationTimeout, count0; }
      var sizeToCopy := Min(count0, cachedScanNodeCount);
      ghost var last := published[|published| - 1];
      assert cachedScanNodeBuf[..cachedScanNodeCount] == last;
      forall i | 0 <= i < sizeToCopy {
        nodebuffer[i] := cachedScanNodeBuf[i];
      }
      assert nodebuffer[..] == last[..sizeToCopy] + old(nodebuffer[..])[sizeToCopy..];
      cachedScanNodeCount := 0;
      return ResultOk, sizeToCopy;
    }
  }

  function LastCapsule(prior: Capsule, run: seq<Reception>): Capsule {
    if run == [] then prior else run[|run| - 1].capsule
  }

  lemma NothingReceived(prior: Capsule)
    ensures Receptions([]) == [] && NodeStream(prior, []) == []
  {
  }

  lemma RawAngleNext(prev: Capsule, cur: Capsule, k: nat)
    ensures RawAngleQ16(prev, cur, k + 1) == RawAngleQ16(prev, cur, k) + AngleIncQ16(prev, cur)
  {
    NextMultiple(AngleIncQ16(prev, cur), k);
  }
}
