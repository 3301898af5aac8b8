// From bytes to scans: what a whole session publishes.
module LidarSession {
  import opened Bytes
  import opened LidarFrames
  import opened FrameParser
  import opened CapsuleExpander
  import opened ScanSplit
  import opened Revolution
  import opened CapsuleReceiver
  import opened NormalBatches
  import H = ScanHandoff

  // ----- the capsule session -----

  /** The nodes cut by the caching thread in `passes` passes, starting with the given flag and cached
      capsule: the first capsule is discarded, the rest are received and expanded. */
  function SessionReceptions(line: Line, ready: bool, passes: nat): seq<Reception> {
    var first := WaitCapsule(line, ready, 0);
    Receptions(Session(first.line, first.ready, first.to, passes))
  }

  function SessionStream(line: Line, ready: bool, prior: Capsule, passes: nat): seq<Node> {
    NodeStream(prior, SessionReceptions(line, ready, passes))
  }

  function SessionScans(line: Line, ready: bool, prior: Capsule, passes: nat, maxNodes: ScanCapacity): seq<seq<Node>> {
    Scans(SessionStream(line, ready, prior, passes), maxNodes)
  }

  lemma CleanStart(line: Line, cs: seq<Capsule>, ready: bool, prior: Capsule, passes: nat)
    requires CleanFrom(line, cs) && passes < |cs|
    ensures SessionStream(line, ready, prior, passes) ==
            NodeStream(prior, FlaggedRun(cs[1..passes + 1], FlagAt(cs, ready, 0)))
  {
    hide WaitCapsule, NodeStream, FlagAt;
    CleanFirst(line, cs, ready, 0);
    var first := WaitCapsule(line, ready, 0);
    CleanSession(cs[1..], first.line, first.ready, first.to, passes);
    assert cs[1..][..passes] == cs[1..passes + 1];
  }

  // ----- the flag left by an earlier session -----

  /** The flag was left set, and neither the capsule that is discarded nor the first one received
      is marked as the first of a session, which would clear it. */
  predicate StartsStale(cs: seq<Capsule>, ready: bool)
    requires |cs| >= 2
  {
    ready && !cs[0].IsFirst() && !cs[1].IsFirst()
  }

  lemma {:induction false} FirstReadyPrefix(prior: Capsule, cs: seq<Capsule>)
    requires cs != []
    ensures NodeStream(prior, FlaggedRun(cs, true)) ==
            (if cs[0].IsFirst() then [] else Expand(prior, cs[0])) + NodeStream(prior, FlaggedRun(cs, false))
    decreases |cs|
  {
    hide Expand, NodeStream, FlaggedRun;
    var n := |cs| - 1;
    FlaggedSnoc(prior, cs, true);
    FlaggedSnoc(prior, cs, false);
    if n == 0 {
      NothingFlagged(prior, cs[..0], true);
      NothingFlagged(prior, cs[..0], false);
    } else {
      FirstReadyPrefix(prior, cs[..n]);
    }
  }

  lemma NothingFlagged(prior: Capsule, cs: seq<Capsule>, ready: bool)
    requires cs == []
    ensures NodeStream(prior, FlaggedRun(cs, ready)) == []
  {
  }

  lemma FlaggedSnoc(prior: Capsule, cs: seq<Capsule>, ready: bool)
    requires cs != []
    ensures var n := |cs| - 1;
            NodeStream(prior, FlaggedRun(cs, ready)) == NodeStream(prior, FlaggedRun(cs[..n], ready)) +
              if FlagAt(cs, ready, n) then Expand(if n == 0 then prior else cs[n - 1], cs[n]) else []
  {
    hide Expand;
    assert FlaggedRun(cs, ready)[..|cs| - 1] == FlaggedRun(cs[..|cs| - 1], ready);
  }

  lemma {:induction false} PriorIrrelevant(p: Capsule, q: Capsule, run: seq<Reception>)
    requires run != [] ==> !run[0].ready
    ensures NodeStream(p, run) == NodeStream(q, run)
    decreases |run|
  {
    hide Expand;
    if run != [] {
      PriorIrrelevant(p, q, run[..|run| - 1]);
    }
  }

  /** On a clean line a stale start puts one expansion, from the capsule cached in the earlier
      session to the first one received, in front of the stream of a session with the flag clear. */
  lemma StaleStart(line: Line, cs: seq<Capsule>, ready: bool, prior: Capsule, passes: nat)
    requires CleanFrom(line, cs) && 0 < passes < |cs|
    ensures SessionStream(line, ready, prior, passes) ==
            (if StartsStale(cs, ready) then Expand(prior, cs[1]) else []) + SessionStream(line, false, prior, passes)
  {
    hide SessionStream, NodeStream, FlaggedRun, Expand, CleanFrom;
    CleanStart(line, cs, ready, prior, passes);
    CleanStart(line, cs, false, prior, passes);
    FirstReadyPrefix(prior, cs[1..passes + 1]);
  }

  function CapsuleWith(distanceAngle: u16): Capsule {
    Capsule(0, seq(CABIN_COUNT, _ => Cabin(distanceAngle, 0, 0)))
  }

  lemma ExpansionsDiffer(c: Capsule)
    ensures Expand(CapsuleWith(0), c)[0] != Expand(CapsuleWith(4), c)[0]
  {
    EmittedDistance(CapsuleWith(0), c, 0);
    EmittedDistance(CapsuleWith(4), c, 0);
    hide ExpandedNode;
  }

  /** On a clean line, with any flags: a session is independent of the capsule cached by an earlier
      one exactly when it does not start stale. */
  lemma StaleStartIff(line: Line, cs: seq<Capsule>, ready: bool, passes: nat)
    requires CleanFrom(line, cs) && 0 < passes < |cs|
    ensures (forall p, q :: SessionStream(line, ready, p, passes) == SessionStream(line, ready, q, passes))
            <==> !StartsStale(cs, ready)
  {
    hide SessionStream, Expand, CleanFrom;
    if StartsStale(cs, ready) {
      var p, q := CapsuleWith(0), CapsuleWith(4);
      StaleStart(line, cs, ready, p, passes);
      StaleStart(line, cs, ready, q, passes);
      ExpansionsDiffer(cs[1]);
      assert SessionStream(line, ready, p, passes)[0] != SessionStream(line, ready, q, passes)[0];
    } else {
      forall p, q ensures SessionStream(line, ready, p, passes) == SessionStream(line, ready, q, passes) {
        CleanStart(line, cs, false, p, passes);
        CleanStart(line, cs, false, q, passes);
        PriorIrrelevant(p, q, FlaggedRun(cs[1..passes + 1], false));
        StaleStart(line, cs, ready, p, passes);
        StaleStart(line, cs, ready, q, passes);
      }
    }
  }

  /** For instance, after two passes: if the first expansion opens a scan and the second closes it,
      a scan is published whose first node was computed from the stale capsule. A session with the
      flag clear has published nothing by then. */
  lemma RestartUsesStaleCapsule(line: Line, cs: seq<Capsule>, ready: bool, prior: Capsule, maxNodes: ScanCapacity)
    requires CleanFrom(line, cs) && |cs| >= 3 && StartsStale(cs, ready) && !cs[2].IsFirst()
    requires ValidStart(prior) && ValidStart(cs[1]) && ValidStart(cs[2])
    ensures var scans := SessionScans(line, ready, prior, 2, maxNodes);
            && |scans| == (if Wraps(prior, cs[1]) == 1 && Wraps(cs[1], cs[2]) == 1 then 1 else 0)
            && forall k | 0 <= k < |scans| :: scans[k] != [] && scans[k][0].IsSync() && scans[k][0] in Expand(prior, cs[1])
    ensures SessionScans(line, false, prior, 2, maxNodes) == []
  {
    hide SessionStream, Expand, CleanFrom, Scans, Wraps, ValidStart, FlaggedRun;
    StaleStart(line, cs, ready, prior, 2);
    CleanStart(line, cs, false, prior, 2);
    SecondPair(prior, cs[1..3]);
    assert Expand(cs[1], cs[2]) == [] + Expand(cs[1], cs[2]);
    PairPublishesNothing(cs[1], cs[2], maxNodes);
    TwoPairsPublish(prior, cs[1], cs[1], cs[2], maxNodes);
  }

  lemma SecondPair(prior: Capsule, cs: seq<Capsule>)
    requires |cs| == 2 && !cs[1].IsFirst()
    ensures NodeStream(prior, FlaggedRun(cs, false)) == Expand(cs[0], cs[1])
  {
    hide Expand, NodeStream, FlaggedRun;
    FlaggedSnoc(prior, cs, false);
    FlaggedSnoc(prior, cs[..1], false);
    NothingFlagged(prior, cs[..1][..0], false);
  }

  lemma PairPublishesNothing(a: Capsule, b: Capsule, maxNodes: ScanCapacity)
    requires ValidStart(a) && ValidStart(b)
    ensures Scans(Expand(a, b), maxNodes) == []
  {
    hide Expand, ValidStart;
    PairSyncCount(a, b);
  }

  lemma TwoPairsPublish(a: Capsule, b: Capsule, c: Capsule, d: Capsule, maxNodes: ScanCapacity)
    requires ValidStart(a) && ValidStart(b) && ValidStart(c) && ValidStart(d)
    ensures var scans := Scans(Expand(a, b) + Expand(c, d), maxNodes);
            && |scans| == (if Wraps(a, b) == 1 && Wraps(c, d) == 1 then 1 else 0)
            && forall k | 0 <= k < |scans| :: scans[k] != [] && scans[k][0].IsSync() && scans[k][0] in Expand(a, b)
  {
    var s := Expand(a, b) + Expand(c, d);
    var scans := Scans(s, maxNodes);
    TwoPairSyncs(a, b, c, d);
    hide Expand, ValidStart, SyncPositions;
    SyncPositionsOrdered(s);
    if scans != [] {
      ScanShape(s, maxNodes, 0);
      ScanIsSegment(s, maxNodes, 0);
      var p := SyncPositions(s)[0];
      assert scans[0][0] == s[p] == Expand(a, b)[p];
    }
  }

  // ----- revolutions -----

  /** The capsules received carry valid start angles, none after the first of them is marked as the
      first of a session, and a flag left set by an earlier session does no harm. */
  predicate SteadySession(cs: seq<Capsule>, ready: bool) {
    && |cs| >= 2 && !StartsStale(cs, ready)
    && (forall i | 1 <= i < |cs| :: ValidStart(cs[i]))
    && forall i | 2 <= i < |cs| :: !cs[i].IsFirst()
  }

  lemma SteadyGapFree(cs: seq<Capsule>, ready: bool, passes: nat)
    requires SteadySession(cs, ready) && 0 < passes < |cs|
    ensures GapFree(FlaggedRun(cs[1..passes + 1], false))
  {
    hide ValidStart;
    var run := FlaggedRun(cs[1..passes + 1], false);
    forall i | 0 <= i < |run| ensures run[i].capsule == cs[i + 1] && run[i].ready == (i > 0 && !cs[i + 1].IsFirst()) {
    }
  }

  lemma FreshStart(line: Line, cs: seq<Capsule>, ready: bool, prior: Capsule, passes: nat)
    requires CleanFrom(line, cs) && 0 < passes < |cs| && !StartsStale(cs, ready)
    ensures SessionStream(line, ready, prior, passes) == NodeStream(prior, FlaggedRun(cs[1..passes + 1], false))
  {
    hide SessionStream, NodeStream, FlaggedRun, CleanFrom;
    StaleStart(line, cs, ready, prior, passes);
    CleanStart(line, cs, false, prior, passes);
  }

  /** Whatever the chunking, a clean session publishes exactly the revolutions of its capsules, from
      the second one on. */
  lemma CleanSessionRevolutions(line: Line, cs: seq<Capsule>, ready: bool, prior: Capsule, passes: nat, maxNodes: ScanCapacity)
    requires CleanFrom(line, cs) && SteadySession(cs, ready) && 0 < passes < |cs|
    ensures GapFree(FlaggedRun(cs[1..passes + 1], false))
    ensures var scans, run := SessionScans(line, ready, prior, passes, maxNodes), FlaggedRun(cs[1..passes + 1], false);
            && |scans| == (if SyncPositions(NodeStream(prior, run)) == [] then 0 else |SyncPositions(NodeStream(prior, run))| - 1)
            && forall k | 0 <= k < |scans| :: IsScanOf(prior, run, k, scans[k], maxNodes - 1)
  {
    hide SessionStream, NodeStream, FlaggedRun, GapFree, IsScanOf, CleanFrom, SyncPositions;
    var run := FlaggedRun(cs[1..passes + 1], false);
    SteadyGapFree(cs, ready, passes);
    FreshStart(line, cs, ready, prior, passes);
    GapFreeRevolution(prior, run, maxNodes);
  }

  /** The documented promise, end to end, on a hand-off that earlier sessions have used in any way.
      While a clean session runs, at any point of any interleaving with the grabber, every new grab
      returns one complete revolution of this session's capsules, cut to the scan buffer and to the
      caller's buffer; only the first one may still return the last scan published before. */
  lemma GrabbedScanIsRevolution(line: Line, cs: seq<Capsule>, ready: bool, prior: Capsule, passes: nat,
                                maxNodes: ScanCapacity, h0: H.Handoff, actions: seq<H.Action>)
    requires CleanFrom(line, cs) && SteadySession(cs, ready) && 0 < passes < |cs| && H.Safe(h0)
    requires H.Run(h0, actions).published <= h0.published + SessionScans(line, ready, prior, passes, maxNodes)
    ensures GapFree(FlaggedRun(cs[1..passes + 1], false))
    ensures var scans, h := SessionScans(line, ready, prior, passes, maxNodes), H.Run(h0, actions);
            && h0.deliveries <= h.deliveries
            && forall i | |h0.deliveries| <= i < |h.deliveries| ::
                 var d, k := h.deliveries[i], h.deliveries[i].rank - |h0.published| - 1;
                 || (&& 0 <= k < |scans| && d.nodes == Take(scans[k], d.capacity)
                     && IsScanOf(prior, FlaggedRun(cs[1..passes + 1], false), k, scans[k], maxNodes - 1))
                 || (k == -1 && i == |h0.deliveries| && h0.count > 0)
  {
    hide SessionScans, IsScanOf, FlaggedRun, CleanFrom, GapFree, SteadySession, H.Run;
    var scans, h := SessionScans(line, ready, prior, passes, maxNodes), H.Run(h0, actions);
    CleanSessionRevolutions(line, cs, ready, prior, passes, maxNodes);
    H.RunSafe(h0, actions);
    H.RunContinues(h0, actions);
    forall i | |h0.deliveries| <= i < |h.deliveries|
      ensures var d, k := h.deliveries[i], h.deliveries[i].rank - |h0.published| - 1;
              || (&& 0 <= k < |scans| && d.nodes == Take(scans[k], d.capacity)
                  && IsScanOf(prior, FlaggedRun(cs[1..passes + 1], false), k, scans[k], maxNodes - 1))
              || (k == -1 && i == |h0.deliveries| && h0.count > 0)
    {
      H.EarlierScanOnce(h0, actions, i);
      var d := h.deliveries[i];
      assert d in h.deliveries;
      if d.rank > |h0.published| {
        assert h.published[d.rank - 1] == (h0.published + scans)[d.rank - 1];
      }
    }
  }

  // ----- any session -----

  /** The receptions the stream of a session depends on: if the first one finds the flag set, the
      capsule cached before is one more. */
  function History(prior: Capsule, run: seq<Reception>): seq<Reception> {
    if run != [] && run[0].ready then [Reception(prior, false)] + run else run
  }

  lemma {:induction false} CachedIsReceived(prior: Capsule, other: Capsule, run: seq<Reception>)
    ensures NodeStream(other, [Reception(prior, false)] + run) == NodeStream(prior, run)
    decreases |run|
  {
    hide Expand;
    var longer := [Reception(prior, false)] + run;
    if run == [] {
      assert longer[..0] == [];
    } else {
      assert longer[..|run|] == [Reception(prior, false)] + run[..|run| - 1];
      CachedIsReceived(prior, other, run[..|run| - 1]);
    }
  }

  lemma HistoryStream(prior: Capsule, run: seq<Reception>)
    ensures NodeStream(prior, History(prior, run)) == NodeStream(prior, run)
  {
    hide NodeStream;
    CachedIsReceived(prior, prior, run);
  }

  /** On any line, with any bytes, rejections, timeouts and first-capsule marks, and any flag and
      cached capsule: a published scan is the nodes from one sync node to the next, cut to what
      fits, and these are one complete revolution exactly when no arc was lost between the
      capsules that emitted the two sync nodes. */
  lemma SessionScanIff(line: Line, ready: bool, prior: Capsule, passes: nat, maxNodes: ScanCapacity,
                       turns: seq<int>, k: nat, p: nat, q: nat)
    requires Physical(History(prior, SessionReceptions(line, ready, passes)), turns)
    requires k < |SessionScans(line, ready, prior, passes, maxNodes)|
    requires ScanEnds(SessionStream(line, ready, prior, passes), k, p, q)
    ensures var run := History(prior, SessionReceptions(line, ready, passes));
            var s, ts := SessionStream(line, ready, prior, passes), SampleStream(run, turns);
            && |turns| == |run| && |s| == |ts| == Emitted(run) && p < q < |s| && 0 < Source(run, p) < Source(run, q)
            && SessionScans(line, ready, prior, passes, maxNodes)[k] == Take(s[p..q], maxNodes - 1)
            && (SingleTurn(ts, p, q) <==> forall m | Source(run, p) <= m < Source(run, q) :: !TurnLost(run, turns, m))
            && (IsRevolution(s, ts, p, q) <==> forall m | Source(run, p) <= m < Source(run, q) :: !ArcLost(run, turns, m))
  {
    var run := History(prior, SessionReceptions(line, ready, passes));
    HistoryStream(prior, SessionReceptions(line, ready, passes));
    PhysicalTurns(run, turns);
    ScanIsSegment(NodeStream(prior, run), maxNodes, k);
    hide NodeStream, SampleStream, Scans, SyncPositions, Physical, IsRevolution, SingleTurn, ArcLost, TurnLost, Emitted,
      Source, History, SessionReceptions;
    OneRevolutionIff(prior, run, turns, k, p, q);
    SingleTurnIff(prior, run, turns, k, p, q);
  }

  /** Bytes that lead to a gap: on a clean line, a capsule marked as first in mid-session. */
  lemma MarkedCapsuleOpensGap(line: Line, x: Capsule, a: Capsule, b: Capsule, c: Capsule, d: Capsule)
    requires CleanFrom(line, [x, a, b, c, d]) && !b.IsFirst() && c.IsFirst() && !d.IsFirst()
    ensures SessionReceptions(line, false, 4) == TwoPairs(a, b, c, d)
  {
    hide WaitCapsule, EncodeAll, CleanFrom;
    var cs := [x, a, b, c, d];
    CleanFirst(line, cs, false, 0);
    var first := WaitCapsule(line, false, 0);
    CleanSession(cs[1..], first.line, first.ready, first.to, 4);
    assert cs[1..][..4] == [a, b, c, d];
    assert FlaggedRun([a, b, c, d], false) == TwoPairs(a, b, c, d);
  }

  lemma GoodCall(c: Capsule, rest: seq<byte>, later: seq<Arrival>, ready: bool, at: nat, n: nat, done: seq<Call>)
    ensures var calls := Session(Line(EncodeCapsule(c) + rest, [Available(84)] + later), ready, at, n + 1);
            && calls != [] && calls[1..] == Session(Line(rest, later), true, at + 84, n)
            && Receptions(done + [calls[0]]) == Receptions(done) + [Reception(c, ready && !c.IsFirst())]
  {
    hide *;
    WholeFrameCall(c, rest, later, ready, at);
    CapsuleRoundTrip(c);
    SessionStep(Line(EncodeCapsule(c) + rest, [Available(84)] + later), ready, at, n);
    ReceptionsSnoc(done, WaitCapsule(Line(EncodeCapsule(c) + rest, [Available(84)] + later), ready, at));
    GoodSetsFlag(WaitCapsule(Line(EncodeCapsule(c) + rest, [Available(84)] + later), ready, at));
  }

  lemma GoodSetsFlag(c: Call)
    requires c.answer.ResultOk?
    ensures FlagAfter(c)
  {
  }

  lemma StrayCall(stray: byte, rest: seq<byte>, later: seq<Arrival>, at: nat, n: nat, done: seq<Call>)
    requires stray / 0x10 == 0xA
    ensures var calls := Session(Line([stray] + rest, [Available(1), Silence] + later), true, at, n + 1);
            && calls != [] && calls[1..] == Session(Line(rest, later), true, at + 1, n)
            && Receptions(done + [calls[0]]) == Receptions(done)
  {
    StrayByteCall(stray, rest, later, true, at);
    hide WaitCapsule, Session, Receptions;
    SessionStep(Line([stray] + rest, [Available(1), Silence] + later), true, at, n);
    ReceptionsSnoc(done, WaitCapsule(Line([stray] + rest, [Available(1), Silence] + later), true, at));
  }

  /** Bytes that keep the flag over a silence: one that swallows only a stray byte. However long it
      lasts, capsule `b` is paired with capsule `a`. */
  lemma SilenceKeepsFlag(x: Capsule, a: Capsule, b: Capsule, c: Capsule, stray: byte)
    requires stray / 0x10 == 0xA && !b.IsFirst() && !c.IsFirst()
    ensures var line := Line(EncodeCapsule(x) + (EncodeCapsule(a) + ([stray] + (EncodeCapsule(b) + (EncodeCapsule(c) + [])))),
                             [Available(84)] + ([Available(84)] + ([Available(1), Silence] +
                               ([Available(84)] + ([Available(84)] + [])))));
            SessionReceptions(line, false, 4) == KeptFlag(a, b, c)
  {
    var tail3, s3 := EncodeCapsule(c) + [], [Available(84)] + [];
    var tail2, s2 := EncodeCapsule(b) + tail3, [Available(84)] + s3;
    var tail1, s1 := [stray] + tail2, [Available(1), Silence] + s2;
    var tail0, s0 := EncodeCapsule(a) + tail1, [Available(84)] + s1;
    hide *;
    WholeFrameCall(x, tail0, s0, false, 0);
    SilentReceptions(a, b, c, stray);
    ReceptionsAfterFirst(Line(EncodeCapsule(x) + tail0, [Available(84)] + s0), false, 4);
  }

  lemma ReceptionsAfterFirst(line: Line, ready: bool, passes: nat)
    ensures var first := WaitCapsule(line, ready, 0);
            SessionReceptions(line, ready, passes) == Receptions(Session(first.line, first.ready, first.to, passes))
  {
  }

  lemma SilentReceptions(a: Capsule, b: Capsule, c: Capsule, stray: byte)
    requires stray / 0x10 == 0xA && !b.IsFirst() && !c.IsFirst()
    ensures var line := Line(EncodeCapsule(a) + ([stray] + (EncodeCapsule(b) + (EncodeCapsule(c) + []))),
                             [Available(84)] + ([Available(1), Silence] + ([Available(84)] + ([Available(84)] + []))));
            Receptions(Session(line, false, 84, 4)) == KeptFlag(a, b, c)
  {
    hide EncodeCapsule, WaitCapsule, Session, Receptions;
    var tail3, s3 := EncodeCapsule(c) + [], [Available(84)] + [];
    var tail2, s2 := EncodeCapsule(b) + tail3, [Available(84)] + s3;
    var tail1, s1 := [stray] + tail2, [Available(1), Silence] + s2;
    var calls := Session(Line(EncodeCapsule(a) + tail1, [Available(84)] + s1), false, 84, 4);
    GoodCall(a, tail1, s1, false, 84, 3, []);
    StrayCall(stray, tail2, s2, 168, 2, calls[..1]);
    GoodCall(b, tail3, s3, true, 169, 1, calls[..2]);
    GoodCall(c, [], [], true, 253, 0, calls[..3]);
    SessionEnd(Line([], []), true, 337);
    NoneReceived();
    assert calls[1..][1..] == calls[2..] && calls[2..][1..] == calls[3..] && calls[3..][1..] == calls[4..];
    assert calls[..1] == [] + [calls[0]] && calls[..2] == calls[..1] + [calls[1]];
    assert calls[..3] == calls[..2] + [calls[2]] && calls == calls[..3] + [calls[3]];
  }

  // ----- the node session -----

  /** The size of the node loop's batch buffer. */
  const BATCH_SIZE: nat := 128

  /** What the node caching thread publishes: the first batch is discarded, the rest are cut.
      `start` is the batch buffer after the first batch. */
  function NodeSessionScans(line: Line, start: seq<Node>, patience0: nat, patiences: seq<nat>, maxNodes: ScanCapacity): seq<seq<Node>>
    requires |start| == BATCH_SIZE
  {
    var first := WaitBatch(line, BATCH_SIZE, patience0);
    Scans(NormalFeed(first.line, start, CountAfter(BATCH_SIZE, first), patiences), maxNodes)
  }

  /** On a line that carries nodes, under any schedule that completes all that are asked for, the
      session publishes the scans of the nodes sent, but for those of the first batch. */
  lemma NodeSession(line: Line, ns: seq<Node>, start: seq<Node>, patience0: nat, patiences: seq<nat>, maxNodes: ScanCapacity)
    requires Carries(line, ns) && |start| == BATCH_SIZE
    requires LineHorizon(line).nodes >= Asked(BATCH_SIZE, [patience0] + patiences)
    ensures var discarded, asked := Min(BATCH_SIZE, patience0), Asked(BATCH_SIZE, [patience0] + patiences);
            && discarded <= asked <= |ns|
            && NodeSessionScans(line, start, patience0, patiences, maxNodes) == Scans(ns[discarded..asked], maxNodes)
  {
    hide Carries, LineHorizon, WaitBatch, NormalFeed, Scans;
    var m := Min(BATCH_SIZE, patience0);
    assert ([patience0] + patiences)[1..] == patiences;
    BatchForeseen(line, ns, BATCH_SIZE, patience0);
    var first := WaitBatch(line, BATCH_SIZE, patience0);
    ScheduleFeed(first.line, ns[m..], start, m, patiences);
    var rest := Asked(m, patiences);
    assert ns[m..][..rest] == ns[m..m + rest];
  }

  lemma {:induction false} AskedInFull(count: nat, patiences: seq<nat>)
    requires forall i | 0 <= i < |patiences| :: patiences[i] >= count
    ensures Asked(count, patiences) == count * |patiences|
    decreases |patiences|
  {
    if patiences != [] {
      AskedInFull(count, patiences[1..]);
      assert count * |patiences| == count + count * |patiences[1..]|;
    }
  }

  /** On a line that keeps delivering, with clocks that never cut a batch short, these are the scans
      of everything after the first 128 nodes. */
  lemma CleanNodeSession(line: Line, ns: seq<Node>, start: seq<Node>, patience0: nat, patiences: seq<nat>, maxNodes: ScanCapacity)
    requires CleanNodes(line, ns) && |start| == BATCH_SIZE
    requires patience0 >= BATCH_SIZE && forall i | 0 <= i < |patiences| :: patiences[i] >= BATCH_SIZE
    requires BATCH_SIZE * (1 + |patiences|) <= |ns|
    ensures NodeSessionScans(line, start, patience0, patiences, maxNodes) ==
            Scans(ns[BATCH_SIZE..BATCH_SIZE * (1 + |patiences|)], maxNodes)
  {
    hide NodeSessionScans, Scans;
    AskedInFull(BATCH_SIZE, [patience0] + patiences);
    CleanHorizon(line, ns);
    NodeSession(line, ns, start, patience0, patiences, maxNodes);
  }
}
