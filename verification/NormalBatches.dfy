// Receiving measurement nodes in batches, as the non-capsule caching loop does.
module NormalBatches {
  import opened Bytes
  import opened LidarFrames
  import opened FrameParser

  /** How one batch call ends: with all the nodes asked for, inside the node parser, on the batch's
      own clock test, or on a failed link. */
  datatype BatchEnd = Full | ParserTimeout | ClockOut | LinkFailed

  datatype Batch = Batch(end: BatchEnd, received: seq<Node>, line: Line)

  /** `patience` is the number of clock tests the batch loop passes. */
  function WaitBatch(line: Line, want: nat, patience: nat): (b: Batch)
    ensures |b.received| <= want
    ensures b.end.Full? ==> |b.received| == want
    ensures b.end.ParserTimeout? || b.end.LinkFailed? ==> |b.received| < want
    decreases want
  {
    if patience == 0 || want == 0 then Batch(ClockOut, [], line)
    else
      var w := WaitFrom(MeasurementFrame, [], line);
      match w.outcome
      case LinkError => Batch(LinkFailed, [], w.line)
      case LinkTimeout => Batch(ParserTimeout, [], w.line)
      case ClockExpired => Batch(ParserTimeout, [], w.line)
      case Framed =>
        var node := DecodeNode(w.buf);
        if want == 1 then Batch(Full, [node], w.line)
        else
          var b := WaitBatch(w.line, want - 1, patience - 1);
          Batch(b.end, [node] + b.received, b.line)
  }

  /** The buffer after a batch: new nodes in front, the rest as it was. */
  function Overlay(buf: seq<Node>, received: seq<Node>): seq<Node>
    requires |received| <= |buf|
  {
    received + buf[|received|..]
  }

  /** Only the batch's own clock test updates the count. */
  function CountAfter(count: nat, b: Batch): nat {
    if b.end.ClockOut? then |b.received| else count
  }

  /** The caching loop's nodes: after every batch it cuts the whole counted part of its buffer,
      whatever the batch reported, until the link fails. One patience per pass. */
  function NormalFeed(line: Line, buf: seq<Node>, count: nat, patiences: seq<nat>): seq<Node>
    requires count <= |buf|
    decreases |patiences|
  {
    if patiences == [] then []
    else
      var b := WaitBatch(line, count, patiences[0]);
      if b.end.LinkFailed? then []
      else
        var buf' := Overlay(buf, b.received);
        buf'[..CountAfter(count, b)] + NormalFeed(b.line, buf', CountAfter(count, b), patiences[1..])
  }

  /** The loop cuts exactly the nodes a batch received unless the node parser timed out: then it
      cuts nodes of earlier batches again. */
  lemma FedIsReceivedIff(buf: seq<Node>, line: Line, count: nat, patience: nat)
    requires count <= |buf|
    requires !WaitBatch(line, count, patience).end.LinkFailed?
    ensures var b := WaitBatch(line, count, patience);
            Overlay(buf, b.received)[..CountAfter(count, b)] == b.received <==> !b.end.ParserTimeout?
  {
    var b := WaitBatch(line, count, patience);
    if !b.end.ParserTimeout? {
      assert Overlay(buf, b.received)[..|b.received|] == b.received;
    }
  }

  /** The nodes received in a run of batches, until the link fails. */
  function NodesOf(line: Line, count: nat, patiences: seq<nat>): seq<Node>
    decreases |patiences|
  {
    if patiences == [] then []
    else
      var b := WaitBatch(line, count, patiences[0]);
      if b.end.LinkFailed? then [] else b.received + NodesOf(b.line, CountAfter(count, b), patiences[1..])
  }

  /** Before the link fails, if it does, no wait for a node times out. */
  predicate NoParserTimeout(line: Line, count: nat, patiences: seq<nat>)
    decreases |patiences|
  {
    patiences == [] ||
    var b := WaitBatch(line, count, patiences[0]);
    b.end.LinkFailed? || (!b.end.ParserTimeout? && NoParserTimeout(b.line, CountAfter(count, b), patiences[1..]))
  }

  /** Over any run the loop cuts exactly the nodes received, once each and in order, if no wait for a
      node times out; otherwise it cuts more nodes than it receives. */
  lemma {:induction false} FeedIsReceivedIff(line: Line, buf: seq<Node>, count: nat, patiences: seq<nat>)
    requires count <= |buf|
    ensures |NormalFeed(line, buf, count, patiences)| >= |NodesOf(line, count, patiences)|
    ensures NormalFeed(line, buf, count, patiences) == NodesOf(line, count, patiences) <==>
            NoParserTimeout(line, count, patiences)
    ensures !NoParserTimeout(line, count, patiences) ==>
              |NormalFeed(line, buf, count, patiences)| > |NodesOf(line, count, patiences)|
    decreases |patiences|
  {
    hide WaitBatch;
    if patiences != [] {
      var b := WaitBatch(line, count, patiences[0]);
      if !b.end.LinkFailed? {
        FedIsReceivedIff(buf, line, count, patiences[0]);
        FeedIsReceivedIff(b.line, Overlay(buf, b.received), CountAfter(count, b), patiences[1..]);
      }
    }
  }

  /** The link fails within the run. */
  predicate LinkFails(line: Line, count: nat, patiences: seq<nat>)
    decreases |patiences|
  {
    patiences != [] &&
    var b := WaitBatch(line, count, patiences[0]);
    b.end.LinkFailed? || LinkFails(b.line, CountAfter(count, b), patiences[1..])
  }

  predicate NoFault(schedule: seq<Arrival>) { forall a <- schedule :: !a.Fault? }

  lemma WaitWithoutFault(line: Line)
    requires NoFault(line.schedule)
    ensures var w := WaitFrom(MeasurementFrame, [], line);
            !w.outcome.LinkError? && NoFault(w.line.schedule)
  {
    hide WaitFrom;
    var n := WaitStops(MeasurementFrame, [], line);
  }

  lemma {:induction false} BatchWithoutFault(line: Line, want: nat, patience: nat)
    requires NoFault(line.schedule)
    ensures var b := WaitBatch(line, want, patience);
            !b.end.LinkFailed? && NoFault(b.line.schedule)
    decreases want
  {
    hide WaitFrom, NoFault, DecodeNode;
    if want > 0 && patience > 0 {
      WaitWithoutFault(line);
      var w := WaitFrom(MeasurementFrame, [], line);
      if w.outcome.Framed? && want > 1 {
        BatchWithoutFault(w.line, want - 1, patience - 1);
      }
    }
  }

  /** It does not unless the line has a fault, whatever bytes it carries and whatever times out. */
  lemma {:induction false} FailsOnlyOnFault(line: Line, count: nat, patiences: seq<nat>)
    requires NoFault(line.schedule)
    ensures !LinkFails(line, count, patiences)
    decreases |patiences|
  {
    hide WaitBatch, NoFault;
    if patiences != [] {
      BatchWithoutFault(line, count, patiences[0]);
      var b := WaitBatch(line, count, patiences[0]);
      FailsOnlyOnFault(b.line, CountAfter(count, b), patiences[1..]);
    }
  }

  // ----- a batch that ends on its clock -----

  /** A batch that asks for nodes leaves none to ask for exactly when its clock has run out before
      its first node. */
  lemma CountLostIff(line: Line, count: nat, patience: nat)
    requires count > 0
    ensures CountAfter(count, WaitBatch(line, count, patience)) == 0 <==> patience == 0
  {
  }

  lemma {:induction false} NothingAsked(line: Line, buf: seq<Node>, patiences: seq<nat>)
    ensures NormalFeed(line, buf, 0, patiences) == []
    decreases |patiences|
  {
    if patiences != [] {
      OverlayNothing(buf);
      NothingAsked(line, buf, patiences[1..]);
    }
  }

  /** The count is never restored: after such a batch no later pass cuts a node, whatever the line
      delivers. */
  lemma {:induction false} StalledForGood(line: Line, buf: seq<Node>, count: nat, before: seq<nat>, after: seq<nat>)
    requires count <= |buf|
    ensures NormalFeed(line, buf, count, before + [0] + after) == NormalFeed(line, buf, count, before)
    decreases |before|
  {
    var patiences := before + [0] + after;
    hide Overlay;
    if before == [] {
      OverlayNothing(buf);
      BatchOver(line, count, 0);
      NothingAsked(line, buf, patiences[1..]);
    } else {
      var b := WaitBatch(line, count, before[0]);
      hide WaitBatch;
      if !b.end.LinkFailed? {
        assert patiences[1..] == before[1..] + [0] + after;
        assert |Overlay(buf, b.received)| == |buf| by { OverlaySize(buf, b.received); }
        StalledForGood(b.line, Overlay(buf, b.received), CountAfter(count, b), before[1..], after);
      }
    }
  }

  lemma OverlaySize(buf: seq<Node>, received: seq<Node>)
    requires |received| <= |buf|
    ensures |Overlay(buf, received)| == |buf|
  {
  }

  // ----- clean streams -----

  /** A node the parser accepts: sync bit and its inverse differ, and the check bit is set. */
  predicate OnWire(n: Node) { n.syncQuality / 2 % 2 != n.syncQuality % 2 && n.CheckBit() == 1 }

  function EncodeNodes(ns: seq<Node>): seq<byte> {
    if ns == [] then [] else EncodeNode(ns[0]) + EncodeNodes(ns[1..])
  }

  /** The line carries the frames of `ns`, and nothing else. */
  predicate Carries(line: Line, ns: seq<Node>) {
    line.pending == EncodeNodes(ns) && forall i | 0 <= i < |ns| :: OnWire(ns[i])
  }

  /** How many nodes a schedule completes before it first times out, fails or runs out of clock, and
      whether it fails then. `avail` bytes are pending, and `held` bytes of a node have been taken. */
  datatype Horizon = Horizon(nodes: nat, fault: bool)

  function HorizonFrom(schedule: seq<Arrival>, avail: nat, held: nat): Horizon
    requires held < NODE_SIZE
    decreases |schedule|
  {
    if schedule == [] then Horizon(0, false)
    else
      match schedule[0]
      case Expiry => Horizon(0, false)
      case Silence => Horizon(0, false)
      case Fault => Horizon(0, true)
      case Available(size) =>
        var k := Min(Min(size, avail), NODE_SIZE - held);
        if held + k < NODE_SIZE then HorizonFrom(schedule[1..], avail - k, held + k)
        else
          var h := HorizonFrom(schedule[1..], avail - k, 0);
          Horizon(h.nodes + 1, h.fault)
  }

  function LineHorizon(line: Line): Horizon { HorizonFrom(line.schedule, |line.pending|, 0) }

  /** What a wait for a node reports, told from the schedule. */
  predicate Foreseen(ns: seq<Node>, h: Horizon, w: Wait) {
    if h.nodes > 0 then
      && w.outcome.Framed? && |w.buf| == NODE_SIZE && ns != [] && DecodeNode(w.buf) == ns[0]
      && Carries(w.line, ns[1..]) && LineHorizon(w.line) == Horizon(h.nodes - 1, h.fault)
    else if h.fault then w.outcome.LinkError?
    else w.outcome.LinkTimeout? || w.outcome.ClockExpired?
  }

  /** These are the nodes whose five bytes are delivered as they are. */
  lemma OnWireIff(n: Node)
    ensures OnWire(n) <==> ParseFrom(MeasurementFrame, [], EncodeNode(n)) == Complete(EncodeNode(n), [])
  {
    hide ParseFrom;
    var f := EncodeNode(n);
    NodeParser(f);
    NodeRoundTrip(n);
    NodeFields(f);
    CompleteIsLong(MeasurementFrame, [], f[1..]);
    CompleteIsLong(MeasurementFrame, [], f[2..]);
    assert f[..5] == f;
  }

  lemma FrameOnWire(n: Node)
    requires OnWire(n)
    ensures |EncodeNode(n)| == NODE_SIZE
    ensures forall i | 0 <= i < NODE_SIZE :: MeasurementFrame.Accepts(i, EncodeNode(n)[i])
  {
  }

  lemma NodeAhead(buf: seq<byte>, pending: seq<byte>, ns: seq<Node>, k: nat)
    requires |buf| < NODE_SIZE && buf + pending == EncodeNodes(ns) && forall i | 0 <= i < |ns| :: OnWire(ns[i])
    requires k <= |pending| && |buf| + k <= NODE_SIZE
    ensures if |buf| + k == NODE_SIZE then
              && ns != [] && buf + pending[..k] == EncodeNode(ns[0]) && pending[k..] == EncodeNodes(ns[1..])
              && ParseFrom(MeasurementFrame, buf, pending[..k]) == Complete(buf + pending[..k], [])
            else ParseFrom(MeasurementFrame, buf, pending[..k]) == Partial(buf + pending[..k])
  {
    hide EncodeNode, OnWire, ParseFrom;
    var chunk := pending[..k];
    if ns == [] {
      ParsePartial(MeasurementFrame, buf, chunk);
    } else {
      var frame := EncodeNode(ns[0]);
      FrameOnWire(ns[0]);
      assert frame[..|buf| + k] == (frame + EncodeNodes(ns[1..]))[..|buf| + k] == (buf + pending)[..|buf| + k] == buf + chunk;
      if |buf| + k == NODE_SIZE {
        assert chunk + [] == chunk;
        ParseFrame(MeasurementFrame, buf, chunk, []);
        assert (buf + pending)[NODE_SIZE..] == pending[k..];
      } else {
        ParsePartial(MeasurementFrame, buf, chunk);
      }
    }
  }

  lemma HorizonOnChunk(schedule: seq<Arrival>, avail: nat, held: nat)
    requires held < NODE_SIZE && schedule != [] && schedule[0].Available?
    ensures var k := Min(Min(schedule[0].size, avail), NODE_SIZE - held);
            HorizonFrom(schedule, avail, held) ==
            if held + k < NODE_SIZE then HorizonFrom(schedule[1..], avail - k, held + k)
            else var h := HorizonFrom(schedule[1..], avail - k, 0); Horizon(h.nodes + 1, h.fault)
  {
  }

  lemma IdleForeseen(buf: seq<byte>, line: Line, ns: seq<Node>)
    requires |buf| < NODE_SIZE && (line.schedule == [] || !line.schedule[0].Available?)
    ensures Foreseen(ns, HorizonFrom(line.schedule, |line.pending|, |buf|), WaitFrom(MeasurementFrame, buf, line))
  {
    hide ParseFrom;
  }

  lemma FrameForeseen(ns: seq<Node>, h: Horizon, w: Wait)
    requires ns != [] && forall i | 0 <= i < |ns| :: OnWire(ns[i])
    requires w.outcome.Framed? && w.buf == EncodeNode(ns[0]) && w.line.pending == EncodeNodes(ns[1..])
    requires h.nodes == LineHorizon(w.line).nodes + 1 && h.fault == LineHorizon(w.line).fault
    ensures Foreseen(ns, h, w)
  {
    hide OnWire, DecodeNode, LineHorizon;
    NodeRoundTrip(ns[0]);
  }

  lemma {:induction false} WaitForeseen(buf: seq<byte>, line: Line, ns: seq<Node>)
    requires |buf| < NODE_SIZE && buf + line.pending == EncodeNodes(ns) && forall i | 0 <= i < |ns| :: OnWire(ns[i])
    ensures Foreseen(ns, HorizonFrom(line.schedule, |line.pending|, |buf|), WaitFrom(MeasurementFrame, buf, line))
    decreases |line.schedule|
  {
    hide ParseFrom, EncodeNode, EncodeNodes, OnWire, DecodeNode, Foreseen, WaitFrom, HorizonFrom;
    if line.schedule == [] || !line.schedule[0].Available? {
      IdleForeseen(buf, line, ns);
    } else {
      var k := ChunkSize(MeasurementFrame, buf, line.pending, line.schedule[0].size);
      var after := Line(line.pending[k..], line.schedule[1..]);
      NodeAhead(buf, line.pending, ns, k);
      WaitOnChunk(MeasurementFrame, buf, line);
      HorizonOnChunk(line.schedule, |line.pending|, |buf|);
      if |buf| + k < NODE_SIZE {
        assert buf + line.pending[..k] + line.pending[k..] == buf + line.pending;
        WaitForeseen(buf + line.pending[..k], after, ns);
      } else {
        FrameForeseen(ns, HorizonFrom(line.schedule, |line.pending|, |buf|), WaitFrom(MeasurementFrame, buf, line));
      }
    }
  }

  /** A batch on a line that carries nodes: it gets what it asks for, or as many nodes as its clock
      allows, if the schedule completes so many; else it gets what the schedule completes. */
  lemma {:induction false} BatchForeseen(line: Line, ns: seq<Node>, want: nat, patience: nat)
    requires Carries(line, ns)
    ensures var h, b, m := LineHorizon(line), WaitBatch(line, want, patience), Min(want, patience);
            if h.nodes >= m then
              && m <= |ns| && b.received == ns[..m] && (b.end.Full? || b.end.ClockOut?) && CountAfter(want, b) == m
              && Carries(b.line, ns[m..]) && LineHorizon(b.line) == Horizon(h.nodes - m, h.fault)
            else
              h.nodes <= |ns| && b.received == ns[..h.nodes] && b.end == if h.fault then LinkFailed else ParserTimeout
    decreases want
  {
    hide Carries, LineHorizon, WaitFrom, DecodeNode;
    if want > 0 && patience > 0 {
      NodeForeseen(line, ns);
      var w := WaitFrom(MeasurementFrame, [], line);
      if LineHorizon(line).nodes > 0 {
        BatchForeseen(w.line, ns[1..], want - 1, patience - 1);
      }
    }
  }

  lemma NodeForeseen(line: Line, ns: seq<Node>)
    requires Carries(line, ns)
    ensures Foreseen(ns, LineHorizon(line), WaitFrom(MeasurementFrame, [], line))
  {
    assert [] + line.pending == line.pending;
    WaitForeseen([], line, ns);
  }

  /** How many nodes a run of batches asks for; a batch that ends on its clock lowers the count for
      those after it. */
  function Asked(count: nat, patiences: seq<nat>): nat
    decreases |patiences|
  {
    if patiences == [] then 0
    else Min(count, patiences[0]) + Asked(Min(count, patiences[0]), patiences[1..])
  }

  lemma {:induction false} RunForeseen(line: Line, ns: seq<Node>, count: nat, patiences: seq<nat>)
    requires Carries(line, ns)
    ensures var h, asked := LineHorizon(line), Asked(count, patiences);
            && (NoParserTimeout(line, count, patiences) <==> h.nodes >= asked || h.fault)
            && (h.nodes >= asked ==> asked <= |ns| && NodesOf(line, count, patiences) == ns[..asked])
            && (h.nodes >= asked || h.fault ==> (LinkFails(line, count, patiences) <==> h.nodes < asked))
    decreases |patiences|
  {
    hide Carries, LineHorizon, WaitBatch;
    if patiences != [] {
      var m := Min(count, patiences[0]);
      BatchForeseen(line, ns, count, patiences[0]);
      if LineHorizon(line).nodes >= m {
        var b := WaitBatch(line, count, patiences[0]);
        RunForeseen(b.line, ns[m..], m, patiences[1..]);
        if LineHorizon(line).nodes >= Asked(count, patiences) {
          TakeInTwo(ns, m, Asked(m, patiences[1..]));
        }
      }
    }
  }

  /** On a line that carries nodes, however it cuts and delays them: the loop cuts exactly the nodes
      it receives if and only if the schedule completes all that are asked for, or what stops it
      is a failure of the link. */
  lemma ScheduleFeedsReceivedIff(line: Line, ns: seq<Node>, buf: seq<Node>, count: nat, patiences: seq<nat>)
    requires Carries(line, ns) && count <= |buf|
    ensures NormalFeed(line, buf, count, patiences) == NodesOf(line, count, patiences) <==>
            LineHorizon(line).nodes >= Asked(count, patiences) || LineHorizon(line).fault
  {
    hide *;
    FeedIsReceivedIff(line, buf, count, patiences);
    RunForeseen(line, ns, count, patiences);
  }

  /** Where these two cases part: the loop reports a failed link exactly when the schedule fails before
      it has completed all that is asked for. */
  lemma ScheduleFailsIff(line: Line, ns: seq<Node>, count: nat, patiences: seq<nat>)
    requires Carries(line, ns) && (LineHorizon(line).nodes >= Asked(count, patiences) || LineHorizon(line).fault)
    ensures LinkFails(line, count, patiences) <==> LineHorizon(line).nodes < Asked(count, patiences)
  {
    hide *;
    RunForeseen(line, ns, count, patiences);
  }

  /** If it does complete them, the loop cuts the nodes sent, each once and in order. */
  lemma ScheduleFeed(line: Line, ns: seq<Node>, buf: seq<Node>, count: nat, patiences: seq<nat>)
    requires Carries(line, ns) && count <= |buf| && LineHorizon(line).nodes >= Asked(count, patiences)
    ensures Asked(count, patiences) <= |ns|
    ensures NormalFeed(line, buf, count, patiences) == ns[..Asked(count, patiences)]
  {
    hide *;
    FeedIsReceivedIff(line, buf, count, patiences);
    RunForeseen(line, ns, count, patiences);
  }

  /** If a timeout stops a batch short, the pass cuts the nodes that came and fills the batch up with
      those of earlier ones. */
  lemma StaleNodesFed(line: Line, ns: seq<Node>, buf: seq<Node>, count: nat, patience: nat)
    requires Carries(line, ns) && count <= |buf|
    requires LineHorizon(line).nodes < Min(count, patience) && !LineHorizon(line).fault
    ensures var k := LineHorizon(line).nodes;
            k <= |ns| && NormalFeed(line, buf, count, [patience]) == ns[..k] + buf[k..count]
  {
    hide Carries, LineHorizon, WaitBatch;
    BatchForeseen(line, ns, count, patience);
    var b := WaitBatch(line, count, patience);
    assert [patience][1..] == [];
    var k := LineHorizon(line).nodes;
    assert Overlay(buf, b.received)[..count] == ns[..k] + buf[k..count];
  }

  /** The frames of `k` nodes, one per pass, and then silence. */
  function ThenSilence(k: nat): seq<Arrival> {
    if k == 0 then [Silence] else [Available(NODE_SIZE)] + ThenSilence(k - 1)
  }

  lemma {:induction false} HorizonOfSilence(k: nat)
    ensures HorizonFrom(ThenSilence(k), NODE_SIZE * k, 0) == Horizon(k, false)
    decreases k
  {
    if k > 0 {
      HorizonOfSilence(k - 1);
      assert ThenSilence(k)[1..] == ThenSilence(k - 1);
    }
  }

  /** For instance: with fewer nodes sent than asked for, and then silence. */
  lemma SilenceFeedsStaleNodes(ns: seq<Node>, buf: seq<Node>, count: nat, patience: nat)
    requires (forall i | 0 <= i < |ns| :: OnWire(ns[i])) && |ns| < Min(count, patience) && count <= |buf|
    ensures NormalFeed(Line(EncodeNodes(ns), ThenSilence(|ns|)), buf, count, [patience]) == ns + buf[|ns|..count]
  {
    hide *;
    SilentLine(ns);
    StaleNodesFed(Line(EncodeNodes(ns), ThenSilence(|ns|)), ns, buf, count, patience);
    assert ns[..|ns|] == ns;
  }

  lemma SilentLine(ns: seq<Node>)
    requires forall i | 0 <= i < |ns| :: OnWire(ns[i])
    ensures var line := Line(EncodeNodes(ns), ThenSilence(|ns|));
            Carries(line, ns) && LineHorizon(line) == Horizon(|ns|, false)
  {
    hide EncodeNodes, ThenSilence, HorizonFrom, OnWire;
    EncodeNodesLength(ns);
    HorizonOfSilence(|ns|);
  }

  lemma {:induction false} EncodeNodesLength(ns: seq<Node>)
    ensures |EncodeNodes(ns)| == NODE_SIZE * |ns|
  {
    if ns != [] {
      EncodeNodesLength(ns[1..]);
    }
  }

  lemma {:induction false} PatientHorizon(schedule: seq<Arrival>, avail: nat, held: nat)
    requires Patient(schedule) && |schedule| >= avail && held < NODE_SIZE
    ensures NODE_SIZE * HorizonFrom(schedule, avail, held).nodes + NODE_SIZE > held + avail
    decreases |schedule|
  {
    hide Patient;
    if schedule != [] {
      PatientHead(schedule);
      var k := Min(Min(schedule[0].size, avail), NODE_SIZE - held);
      if avail > 0 {
        PatientHorizon(schedule[1..], avail - k, if held + k < NODE_SIZE then held + k else 0);
      }
    }
  }

  lemma PatientHead(schedule: seq<Arrival>)
    requires Patient(schedule) && schedule != []
    ensures schedule[0].Available? && schedule[0].size > 0 && Patient(schedule[1..])
  {
    assert schedule[0] in schedule;
  }

  /** The line carries the frames of `ns` and keeps delivering, in whatever pieces. */
  predicate CleanNodes(line: Line, ns: seq<Node>) {
    Carries(line, ns) && Patient(line.schedule) && |line.schedule| >= |line.pending|
  }

  lemma CleanHorizon(line: Line, ns: seq<Node>)
    requires CleanNodes(line, ns)
    ensures LineHorizon(line).nodes >= |ns|
  {
    hide HorizonFrom, EncodeNodes;
    EncodeNodesLength(ns);
    PatientHorizon(line.schedule, |line.pending|, 0);
  }


  lemma TakeInTwo(ns: seq<Node>, a: nat, b: nat)
    requires a + b <= |ns|
    ensures ns[..a + b] == ns[..a] + ns[a..][..b]
  {
  }

  /** On a line that keeps delivering, in whatever pieces, the loop cuts the nodes sent, each once
      and in order. */
  lemma CleanFeed(line: Line, ns: seq<Node>, buf: seq<Node>, count: nat, patiences: seq<nat>)
    requires CleanNodes(line, ns) && count <= |buf| && Asked(count, patiences) <= |ns|
    ensures NormalFeed(line, buf, count, patiences) == ns[..Asked(count, patiences)]
  {
    CleanHorizon(line, ns);
    ScheduleFeed(line, ns, buf, count, patiences);
  }

  // ----- bookkeeping for the loops -----

  function Prefixed(received: seq<Node>, b: Batch): Batch { Batch(b.end, received + b.received, b.line) }

  lemma BatchStep(line: Line, want: nat, patience: nat)
    requires want > 0 && patience > 0
    ensures var w := WaitFrom(MeasurementFrame, [], line);
            WaitBatch(line, want, patience) ==
            match w.outcome
            case LinkError => Batch(LinkFailed, [], w.line)
            case LinkTimeout => Batch(ParserTimeout, [], w.line)
            case ClockExpired => Batch(ParserTimeout, [], w.line)
            case Framed =>
              if want == 1 then Batch(Full, [DecodeNode(w.buf)], w.line)
              else Prefixed([DecodeNode(w.buf)], WaitBatch(w.line, want - 1, patience - 1))
  {
  }

  lemma BatchOver(line: Line, want: nat, patience: nat)
    requires want == 0 || patience == 0
    ensures WaitBatch(line, want, patience) == Batch(ClockOut, [], line)
  {
  }

  lemma OverlayNothing(buf: seq<Node>)
    ensures Overlay(buf, []) == buf
  {
  }

  lemma OverlayStore(buf: seq<Node>, received: seq<Node>, node: Node)
    requires |received| < |buf|
    ensures |Overlay(buf, received)| == |buf|
    ensures Overlay(buf, received)[|received| := node] == Overlay(buf, received + [node])
  {
  }

  lemma PrefixedSnoc(received: seq<Node>, node: Node, b: Batch)
    ensures Prefixed(received, Prefixed([node], b)) == Prefixed(received + [node], b)
  {
  }

  lemma FeedAdvance(done: seq<Node>, line: Line, buf: seq<Node>, count: nat, patiences: seq<nat>)
    requires count <= |buf| && patiences != []
    ensures var b := WaitBatch(line, count, patiences[0]);
            && |b.received| <= |buf| && CountAfter(count, b) <= |buf|
            && done + NormalFeed(line, buf, count, patiences) ==
               if b.end.LinkFailed? then done
               else
                 var buf' := Overlay(buf, b.received);
                 done + buf'[..CountAfter(count, b)] + NormalFeed(b.line, buf', CountAfter(count, b), patiences[1..])
    ensures var b := WaitBatch(line, count, patiences[0]);
            LinkFails(line, count, patiences) <==>
              b.end.LinkFailed? || LinkFails(b.line, CountAfter(count, b), patiences[1..])
  {
    var b := WaitBatch(line, count, patiences[0]);
    assert |b.received| <= count;
    if !b.end.LinkFailed? {
      var buf' := Overlay(buf, b.received);
      var fed, rest := buf'[..CountAfter(count, b)], NormalFeed(b.line, buf', CountAfter(count, b), patiences[1..]);
      assert NormalFeed(line, buf, count, patiences) == fed + rest;
      assert done + (fed + rest) == done + fed + rest;
    }
  }

  lemma FeedEnd(line: Line, buf: seq<Node>, count: nat)
    requires count <= |buf|
    ensures NormalFeed(line, buf, count, []) == [] && !LinkFails(line, count, [])
  {
  }
}
