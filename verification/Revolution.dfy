// Whole runs of capsules: the node stream they expand to, the unrolled angle of each sample, and
// when a published scan is a single revolution.
module Revolution {
  import opened LidarFrames
  import opened CapsuleExpander
  import opened ScanSplit

  /** A capsule handed to the expander, with the ready flag the expander sees. */
  datatype Reception = Reception(capsule: Capsule, ready: bool)

  /** The nodes emitted over a run of receptions: each one that finds the flag set is expanded
      against the reception before it, or against `prior` if it is the first. */
  function NodeStream(prior: Capsule, run: seq<Reception>): seq<Node> {
    if run == [] then []
    else
      var n := |run| - 1;
      NodeStream(prior, run[..n]) +
        if run[n].ready then Expand(if n == 0 then prior else run[n - 1].capsule, run[n].capsule) else []
  }

  // ----- the true rotation -----

  /** The stretch of unrolled angle a sample covers, in q16. */
  datatype Sample = Sample(from: int, to: int)

  function Turn(angleQ16: int): int { angleQ16 / FULL_TURN_Q16 }

  /** The unrolled start angle of a capsule received in turn `turn`. */
  function Unrolled(c: Capsule, turn: int): int { 0x400 * c.StartQ6() + FULL_TURN_Q16 * turn }

  /** A run and the turn in which each capsule was measured: between two capsules the device only
      moves forward, by any number of turns, whether or not the second finds the flag set. */
  ghost predicate Physical(run: seq<Reception>, turns: seq<int>) {
    && |turns| == |run|
    && (forall r <- run :: ValidStart(r.capsule))
    && (run != [] ==> !run[0].ready)
    && forall i | 0 < i < |run| ::
         if run[i].ready then turns[i - 1] + Wraps(run[i - 1].capsule, run[i].capsule) <= turns[i]
         else Unrolled(run[i - 1].capsule, turns[i - 1]) <= Unrolled(run[i].capsule, turns[i])
  }

  ghost function PairSamples(prev: Capsule, cur: Capsule, turn: int): (ts: seq<Sample>)
    ensures |ts| == NODES_PER_CAPSULE
  {
    var base := FULL_TURN_Q16 * turn;
    seq(NODES_PER_CAPSULE, k requires 0 <= k < NODES_PER_CAPSULE =>
      Sample(base + RawAngleQ16(prev, cur, k), base + RawAngleQ16(prev, cur, k + 1)))
  }

  /** The sample behind each node of the stream, at the angles the expander gives it: the samples of
      a pair are spread evenly from the start of its first capsule to the next start of its second. */
  ghost function SampleStream(run: seq<Reception>, turns: seq<int>): seq<Sample>
    requires |turns| == |run| && (run != [] ==> !run[0].ready)
  {
    if run == [] then []
    else
      var n := |run| - 1;
      SampleStream(run[..n], turns[..n]) +
        if run[n].ready then PairSamples(run[n - 1].capsule, run[n].capsule, turns[n - 1]) else []
  }

  /** Nodes and samples agree: samples move forward, and a node's sync bit says whether its sample
      ends in the turn after the one it starts in. */
  ghost predicate Traced(s: seq<Node>, ts: seq<Sample>) {
    && |s| == |ts|
    && (forall i | 0 <= i < |ts| :: ts[i].from <= ts[i].to)
    && (forall i | 0 < i < |ts| :: ts[i - 1].to <= ts[i].from)
    && (forall i | 0 <= i < |ts| :: Turn(ts[i].to) == if s[i].IsSync() then Turn(ts[i].from) + 1 else Turn(ts[i].from))
  }

  lemma TurnShift(x: int, turn: int)
    ensures Turn(FULL_TURN_Q16 * turn + x) == turn + Turn(x)
  {
  }

  lemma TurnMonotonic(x: int, y: int)
    requires x <= y
    ensures Turn(x) <= Turn(y)
  {
  }

  /** The turn of a valid start angle is the turn it is unrolled to. */
  lemma TurnOfStart(c: Capsule, turn: int)
    requires ValidStart(c)
    ensures Turn(Unrolled(c, turn)) == turn
  {
    TurnShift(0x400 * c.StartQ6(), turn);
  }

  lemma PairSampleTraced(prev: Capsule, cur: Capsule, turn: int, k: nat)
    requires ValidStart(prev) && ValidStart(cur) && k < NODES_PER_CAPSULE
    ensures var t := PairSamples(prev, cur, turn)[k];
            && t.from <= t.to
            && Turn(t.to) == if Expand(prev, cur)[k].IsSync() then Turn(t.from) + 1 else Turn(t.from)
  {
    SyncBitIsTurnChange(prev, cur, k);
    IncBounds(prev, cur);
    RawAngleBounds(prev, cur, k);
    hide RawAngleQ16, AngleIncQ16, ExpandedNode, SyncBit;
    TurnShift(RawAngleQ16(prev, cur, k), turn);
    TurnShift(RawAngleQ16(prev, cur, k + 1), turn);
  }

  lemma PairEnds(prev: Capsule, cur: Capsule, turn: int)
    ensures var ts := PairSamples(prev, cur, turn);
            && ts[0].from == Unrolled(prev, turn)
            && ts[31].to == Unrolled(cur, turn + Wraps(prev, cur))
            && forall i | 0 < i < 32 :: ts[i - 1].to == ts[i].from
  {
    NoDrift(prev, cur);
  }

  /** If the device measured the samples of `prev` evenly up to angle `end`, the expander gives each of
      them its angle exactly when the next capsule starts there, up to one wrap-around: capsules lost
      in between stretch the samples, whatever the flag says. */
  lemma AnglesTrueIff(prev: Capsule, cur: Capsule, turn: int, end: int)
    ensures (forall k | 0 <= k < NODES_PER_CAPSULE ::
               32 * (PairSamples(prev, cur, turn)[k].from - Unrolled(prev, turn)) == k * (end - Unrolled(prev, turn)))
            <==> end == Unrolled(cur, turn + Wraps(prev, cur))
  {
    var ts, inc, start := PairSamples(prev, cur, turn), AngleIncQ16(prev, cur), Unrolled(prev, turn);
    NoDrift(prev, cur);
    forall k | 0 <= k < NODES_PER_CAPSULE ensures 32 * (ts[k].from - start) == k * (32 * inc) {
      TimesThirtyTwo(k, inc);
    }
    assert 32 * inc == Unrolled(cur, turn + Wraps(prev, cur)) - start;
    hide PairSamples, AngleIncQ16, Unrolled, Wraps;
    assert 32 * (ts[1].from - start) == 1 * (32 * inc);
  }

  lemma TimesThirtyTwo(k: int, inc: int)
    ensures 32 * (k * inc) == k * (32 * inc)
  {
  }

  lemma PairTraced(prev: Capsule, cur: Capsule, turn: int)
    requires ValidStart(prev) && ValidStart(cur)
    ensures Traced(Expand(prev, cur), PairSamples(prev, cur, turn))
  {
    var ts := PairSamples(prev, cur, turn);
    PairEnds(prev, cur, turn);
    forall k | 0 <= k < NODES_PER_CAPSULE
      ensures ts[k].from <= ts[k].to
      ensures Turn(ts[k].to) == if Expand(prev, cur)[k].IsSync() then Turn(ts[k].from) + 1 else Turn(ts[k].from)
    {
      PairSampleTraced(prev, cur, turn, k);
    }
  }

  lemma TracedConcat(s1: seq<Node>, ts1: seq<Sample>, s2: seq<Node>, ts2: seq<Sample>)
    requires Traced(s1, ts1) && Traced(s2, ts2)
    requires ts1 != [] && ts2 != [] ==> ts1[|ts1| - 1].to <= ts2[0].from
    ensures Traced(s1 + s2, ts1 + ts2)
  {
    var n := |ts1|;
    forall i | 0 < i < |ts1 + ts2| ensures (ts1 + ts2)[i - 1].to <= (ts1 + ts2)[i].from {
      if i > n {
        assert ts2[i - n - 1].to <= ts2[i - n].from;
      }
    }
  }

  /** The last sample of a run ends no later than its last capsule starts. */
  ghost predicate EndsBy(ts: seq<Sample>, limit: int) {
    ts != [] ==> ts[|ts| - 1].to <= limit
  }

  lemma PhysicalLast(run: seq<Reception>, turns: seq<int>)
    requires Physical(run, turns) && run != []
    ensures var n := |run| - 1;
            if run[n].ready then
              && n > 0 && ValidStart(run[n - 1].capsule) && ValidStart(run[n].capsule)
              && Unrolled(run[n].capsule, turns[n - 1] + Wraps(run[n - 1].capsule, run[n].capsule))
                 <= Unrolled(run[n].capsule, turns[n])
            else
              n > 0 ==> Unrolled(run[n - 1].capsule, turns[n - 1]) <= Unrolled(run[n].capsule, turns[n])
  {
  }

  lemma PhysicalTurns(run: seq<Reception>, turns: seq<int>)
    requires Physical(run, turns)
    ensures |turns| == |run| && (run != [] ==> !run[0].ready)
  {
  }

  lemma PhysicalPrefix(run: seq<Reception>, turns: seq<int>, n: nat)
    requires Physical(run, turns) && n <= |run|
    ensures Physical(run[..n], turns[..n])
  {
  }

  /** The last reception of a run adds its pair's nodes and samples, or nothing. */
  lemma StreamStep(prior: Capsule, run: seq<Reception>, turns: seq<int>)
    requires Physical(run, turns) && run != []
    ensures var n := |run| - 1;
            var s, ts := NodeStream(prior, run[..n]), SampleStream(run[..n], turns[..n]);
            if run[n].ready then
              && n > 0
              && NodeStream(prior, run) == s + Expand(run[n - 1].capsule, run[n].capsule)
              && SampleStream(run, turns) == ts + PairSamples(run[n - 1].capsule, run[n].capsule, turns[n - 1])
            else NodeStream(prior, run) == s && SampleStream(run, turns) == ts
  {
    hide Expand, PairSamples;
  }

  lemma NoStream(prior: Capsule)
    ensures NodeStream(prior, []) == [] && SampleStream([], []) == [] && Traced([], [])
  {
  }

  lemma EndsByLater(ts: seq<Sample>, limit: int, later: int)
    requires EndsBy(ts, limit) && limit <= later
    ensures EndsBy(ts, later)
  {
  }

  lemma EndsByNever(limit: int)
    ensures EndsBy([], limit)
  {
  }

  /** In any physical run the stream is traced, and its last sample ends by the last capsule. */
  lemma {:induction false} StreamTraced(prior: Capsule, run: seq<Reception>, turns: seq<int>)
    requires Physical(run, turns)
    ensures Traced(NodeStream(prior, run), SampleStream(run, turns))
    ensures run == [] ==> SampleStream(run, turns) == []
    ensures run != [] ==> EndsBy(SampleStream(run, turns), Unrolled(run[|run| - 1].capsule, turns[|run| - 1]))
    decreases |run|
  {
    hide NodeStream, SampleStream, Traced, EndsBy, Unrolled, Expand, PairSamples, ValidStart;
    NoStream(prior);
    if run != [] {
      var n := |run| - 1;
      var ts := SampleStream(run[..n], turns[..n]);
      PhysicalPrefix(run, turns, n);
      PhysicalLast(run, turns);
      StreamStep(prior, run, turns);
      StreamTraced(prior, run[..n], turns[..n]);
      if run[n].ready {
        var prev, cur := run[n - 1].capsule, run[n].capsule;
        ReadyTraced(NodeStream(prior, run[..n]), ts, prev, cur, turns[n - 1]);
        EndsByLater(ts + PairSamples(prev, cur, turns[n - 1]), Unrolled(cur, turns[n - 1] + Wraps(prev, cur)),
                    Unrolled(cur, turns[n]));
      } else if n == 0 {
        EndsByNever(Unrolled(run[n].capsule, turns[n]));
      } else {
        EndsByLater(ts, Unrolled(run[n - 1].capsule, turns[n - 1]), Unrolled(run[n].capsule, turns[n]));
      }
    }
  }

  lemma ReadyTraced(s: seq<Node>, ts: seq<Sample>, prev: Capsule, cur: Capsule, turn: int)
    requires Traced(s, ts) && EndsBy(ts, Unrolled(prev, turn))
    requires ValidStart(prev) && ValidStart(cur)
    ensures Traced(s + Expand(prev, cur), ts + PairSamples(prev, cur, turn))
    ensures EndsBy(ts + PairSamples(prev, cur, turn), Unrolled(cur, turn + Wraps(prev, cur)))
  {
    hide Expand, Traced, Unrolled, Wraps;
    PairTraced(prev, cur, turn);
    PairEnds(prev, cur, turn);
    TracedConcat(s, ts, Expand(prev, cur), PairSamples(prev, cur, turn));
  }

  // ----- the angle field -----

  /** A node's angle field is its sample's unrolled angle, less some offset below eight degrees,
      reduced to one turn. */
  ghost predicate Measured(n: Node, t: Sample) {
    n.CheckBit() == 1
    && exists offset: nat | offset < 0x40 :: Normalised(n.AngleQ6(), UncorrectedQ6(t.from, offset))
  }

  lemma UncorrectedShift(raw: int, turn: int, offset: nat)
    ensures UncorrectedQ6(FULL_TURN_Q16 * turn + raw, offset) == FULL_TURN_Q6 * turn + UncorrectedQ6(raw, offset)
  {
  }

  lemma ModShift(x: int, turn: int)
    ensures (FULL_TURN_Q6 * turn + x) % FULL_TURN_Q6 == x % FULL_TURN_Q6
  {
  }

  lemma PairMeasured(prev: Capsule, cur: Capsule, turn: int, k: nat)
    requires ValidStart(prev) && ValidStart(cur) && k < NODES_PER_CAPSULE
    ensures Measured(Expand(prev, cur)[k], PairSamples(prev, cur, turn)[k])
  {
    var offset := OffsetQ3(prev.cabins[k / 2], k % 2 == 1);
    var raw := RawAngleQ16(prev, cur, k);
    EmittedAngle(prev, cur, k);
    UncorrectedShift(raw, turn, offset);
    ModShift(UncorrectedQ6(raw, offset), turn);
    assert Normalised(ExpandedNode(prev, cur, k).AngleQ6(), UncorrectedQ6(FULL_TURN_Q16 * turn + raw, offset));
  }

  lemma {:induction false} StreamMeasured(prior: Capsule, run: seq<Reception>, turns: seq<int>, i: nat)
    requires Physical(run, turns) && i < |NodeStream(prior, run)| == |SampleStream(run, turns)|
    ensures Measured(NodeStream(prior, run)[i], SampleStream(run, turns)[i])
    decreases |run|
  {
    hide NodeStream, SampleStream, Expand, PairSamples, Measured, ValidStart;
    PhysicalTurns(run, turns);
    NoStream(prior);
    assert run != [];
    var n := |run| - 1;
    PhysicalPrefix(run, turns, n);
    PhysicalLast(run, turns);
    StreamStep(prior, run, turns);
    StreamLengths(prior, run[..n], turns[..n]);
    var old' := Emitted(run[..n]);
    if i < old' {
      StreamMeasured(prior, run[..n], turns[..n], i);
    } else {
      PairMeasured(run[n - 1].capsule, run[n].capsule, turns[n - 1], i - old');
    }
  }

  // ----- revolutions -----

  /** The turn that the scan starting with sync node `p` opens: its sample ends in it. */
  ghost function OpenedTurn(ts: seq<Sample>, p: nat): int
    requires p < |ts|
  {
    Turn(ts[p].to)
  }

  /** What the documentation promises of a published scan, as the code keeps it. The sync node is
      the last sample before 0 degrees, so it belongs to the turn before; the nodes after it, up
      to and including the next sync node, are all the samples of one turn, in order, and each
      starts where the one before it ended. */
  ghost predicate IsRevolution(s: seq<Node>, ts: seq<Sample>, p: nat, q: nat)
    requires |s| == |ts| && p < q < |ts|
  {
    var turn := OpenedTurn(ts, p);
    && s[p].IsSync() && Turn(ts[p].from) == turn - 1
    && (forall i | 0 <= i < |ts| :: Turn(ts[i].from) == turn <==> p < i <= q)
    && (forall i, j | p <= i <= j <= q :: ts[i].from <= ts[j].from)
    && OpenedTurn(ts, q) == turn + 1
    && Abut(ts, p, q)
  }

  /** No angle is missing between samples `p` and `q`. */
  ghost predicate Abut(ts: seq<Sample>, p: nat, q: nat)
    requires p <= q < |ts|
  {
    forall i | p < i <= q :: ts[i - 1].to == ts[i].from
  }

  /** The samples after `p`, up to and including `q`, all start in the turn that `p` opens. */
  ghost predicate SingleTurn(ts: seq<Sample>, p: nat, q: nat)
    requires p <= q < |ts|
  {
    forall i | p < i <= q :: Turn(ts[i].from) == OpenedTurn(ts, p)
  }

  lemma {:induction false} AbutCovers(ts: seq<Sample>, p: nat, q: nat, x: int) returns (i: nat)
    requires p <= q < |ts| && Abut(ts, p, q) && ts[p].from <= x < ts[q].to
    ensures p <= i <= q && ts[i].from <= x < ts[i].to
    decreases q
  {
    if ts[q].from <= x {
      i := q;
    } else {
      i := AbutCovers(ts, p, q - 1, x);
    }
  }

  /** A revolution is complete: every angle of its turn lies in a sample of its own. */
  lemma RevolutionCovers(s: seq<Node>, ts: seq<Sample>, p: nat, q: nat, x: int)
    requires |s| == |ts| && p < q < |ts| && IsRevolution(s, ts, p, q) && Turn(x) == OpenedTurn(ts, p)
    ensures exists i :: p <= i <= q && ts[i].from <= x < ts[i].to
  {
    if x < ts[p].from {
      TurnMonotonic(x, ts[p].from);
    }
    if ts[q].to <= x {
      TurnMonotonic(ts[q].to, x);
    }
    var i := AbutCovers(ts, p, q, x);
  }

  lemma {:induction false} FromsAscend(ts: seq<Sample>, i: nat, j: nat)
    requires i <= j < |ts|
    requires forall k | 0 <= k < |ts| :: ts[k].from <= ts[k].to
    requires forall k | 0 < k < |ts| :: ts[k - 1].to <= ts[k].from
    ensures ts[i].from <= ts[j].from && (i < j ==> ts[i].to <= ts[j].from)
    decreases j
  {
    if i < j {
      FromsAscend(ts, i, j - 1);
    }
  }

  lemma OutsideTurn(s: seq<Node>, ts: seq<Sample>, p: nat, q: nat, i: nat)
    requires Traced(s, ts) && p < q < |ts| && i < |ts| && s[p].IsSync() && s[q].IsSync()
    requires Turn(ts[q].from) == OpenedTurn(ts, p)
    ensures i <= p ==> Turn(ts[i].from) < OpenedTurn(ts, p)
    ensures i > q ==> Turn(ts[i].from) > OpenedTurn(ts, p)
  {
    if i <= p {
      FromsAscend(ts, i, p);
      TurnMonotonic(ts[i].from, ts[p].from);
    } else if i > q {
      FromsAscend(ts, q, i);
      TurnMonotonic(ts[q].to, ts[i].from);
    }
  }

  /** Between two sync nodes, the closing one's sample decides: if it starts in the turn that was
      opened, so do all in between, and no others. */
  lemma RevolutionIff(s: seq<Node>, ts: seq<Sample>, p: nat, q: nat)
    requires Traced(s, ts) && p < q < |ts| && s[p].IsSync() && s[q].IsSync()
    ensures IsRevolution(s, ts, p, q) <==> Turn(ts[q].from) == OpenedTurn(ts, p) && Abut(ts, p, q)
    ensures SingleTurn(ts, p, q) <==> Turn(ts[q].from) == OpenedTurn(ts, p)
  {
    if Turn(ts[q].from) == OpenedTurn(ts, p) {
      forall i | 0 <= i < |ts| ensures Turn(ts[i].from) == OpenedTurn(ts, p) <==> p < i <= q {
        OutsideTurn(s, ts, p, q, i);
        if p < i <= q {
          FromsAscend(ts, p, i);
          FromsAscend(ts, i, q);
          TurnMonotonic(ts[p].to, ts[i].from);
          TurnMonotonic(ts[i].from, ts[q].from);
        }
      }
      forall i, j | p <= i <= j <= q ensures ts[i].from <= ts[j].from {
        FromsAscend(ts, i, j);
      }
    }
  }

  // ----- where the samples come from -----

  /** The number of nodes a run emits. */
  function Emitted(run: seq<Reception>): nat {
    if run == [] then 0
    else Emitted(run[..|run| - 1]) + if run[|run| - 1].ready then NODES_PER_CAPSULE else 0
  }

  lemma {:induction false} EmittedMonotonic(run: seq<Reception>, m: nat, n: nat)
    requires m <= n <= |run|
    ensures Emitted(run[..m]) <= Emitted(run[..n])
    decreases n
  {
    if m < n {
      EmittedMonotonic(run, m, n - 1);
      assert run[..n][..n - 1] == run[..n - 1];
    }
  }

  lemma EmittedNext(run: seq<Reception>, m: nat)
    requires m < |run|
    ensures Emitted(run[..m + 1]) == Emitted(run[..m]) + if run[m].ready then NODES_PER_CAPSULE else 0
  {
    assert run[..m + 1][..m] == run[..m];
  }

  /** The reception whose expansion emitted node `i`. */
  function Source(run: seq<Reception>, i: nat): (m: nat)
    requires i < Emitted(run)
    ensures m < |run| && run[m].ready && Emitted(run[..m]) <= i < Emitted(run[..m]) + NODES_PER_CAPSULE
  {
    var n := |run| - 1;
    if i < Emitted(run[..n]) then
      var m := Source(run[..n], i);
      assert run[..n][..m] == run[..m];
      m
    else n
  }

  lemma {:induction false} StreamLengths(prior: Capsule, run: seq<Reception>, turns: seq<int>)
    requires Physical(run, turns)
    ensures |NodeStream(prior, run)| == |SampleStream(run, turns)| == Emitted(run)
    decreases |run|
  {
    hide NodeStream, SampleStream, Physical;
    PhysicalTurns(run, turns);
    NoStream(prior);
    if run != [] {
      PhysicalPrefix(run, turns, |run| - 1);
      StreamStep(prior, run, turns);
      StreamLengths(prior, run[..|run| - 1], turns[..|run| - 1]);
    }
  }

  /** Reception `m` of a run emits its pair's nodes and samples at positions of their own. */
  lemma {:induction false} PairAt(prior: Capsule, run: seq<Reception>, turns: seq<int>, m: nat, k: nat)
    requires Physical(run, turns) && m < |run| && run[m].ready && k < NODES_PER_CAPSULE
    ensures m > 0
    ensures var i := Emitted(run[..m]) + k;
            && i < |NodeStream(prior, run)| == |SampleStream(run, turns)|
            && NodeStream(prior, run)[i] == Expand(run[m - 1].capsule, run[m].capsule)[k]
            && SampleStream(run, turns)[i] == PairSamples(run[m - 1].capsule, run[m].capsule, turns[m - 1])[k]
    decreases |run|
  {
    hide Expand, PairSamples, NodeStream, SampleStream, Emitted, ValidStart, Unrolled, Wraps;
    var n := |run| - 1;
    PhysicalPrefix(run, turns, n);
    StreamStep(prior, run, turns);
    StreamLengths(prior, run, turns);
    StreamLengths(prior, run[..n], turns[..n]);
    if m < n {
      PairAt(prior, run[..n], turns[..n], m, k);
      assert run[..n][..m] == run[..m];
    }
  }

  /** A sync node's sample starts in its pair's turn and ends in the next, in which the pair's second
      capsule is taken to start. */
  lemma SyncSampleTurns(prev: Capsule, cur: Capsule, turn: int, k: nat)
    requires ValidStart(prev) && ValidStart(cur) && k < NODES_PER_CAPSULE
    requires Expand(prev, cur)[k].IsSync()
    ensures var t := PairSamples(prev, cur, turn)[k];
            Turn(t.from) == turn && Turn(t.to) == turn + 1 == turn + Wraps(prev, cur)
  {
    hide Expand, PairSamples;
    var ts := PairSamples(prev, cur, turn);
    PairTraced(prev, cur, turn);
    PairEnds(prev, cur, turn);
    FromsAscend(ts, 0, k);
    FromsAscend(ts, k, 31);
    TurnMonotonic(Unrolled(prev, turn), ts[k].from);
    TurnMonotonic(ts[k].to, Unrolled(cur, turn + Wraps(prev, cur)));
    TurnOfStart(prev, turn);
    TurnOfStart(cur, turn + Wraps(prev, cur));
  }

  /** The turns in which the samples of a sync node start and end, read off the run. */
  lemma SyncSourceTurns(prior: Capsule, run: seq<Reception>, turns: seq<int>, i: nat)
    requires Physical(run, turns) && i < |NodeStream(prior, run)| && NodeStream(prior, run)[i].IsSync()
    ensures i < Emitted(run) && i < |SampleStream(run, turns)|
    ensures var m, t := Source(run, i), SampleStream(run, turns)[i];
            && m > 0 && Wraps(run[m - 1].capsule, run[m].capsule) == 1
            && Turn(t.from) == turns[m - 1] && Turn(t.to) == turns[m - 1] + 1
  {
    hide Expand, PairSamples, NodeStream, SampleStream;
    StreamLengths(prior, run, turns);
    var m := Source(run, i);
    var k := i - Emitted(run[..m]);
    PairAt(prior, run, turns, m, k);
    assert run[m] in run && run[m - 1] in run;
    SyncSampleTurns(run[m - 1].capsule, run[m].capsule, turns[m - 1], k);
  }

  // ----- one revolution -----

  /** The unrolled angle up to which samples have been emitted when reception `m` is dealt with, if
      none were missing before: its pair's end, or without a pair the start of the capsule before. */
  function SampledTo(run: seq<Reception>, turns: seq<int>, m: nat): int
    requires 0 < m < |run| == |turns|
  {
    if run[m].ready then Unrolled(run[m].capsule, turns[m - 1] + Wraps(run[m - 1].capsule, run[m].capsule))
    else Unrolled(run[m - 1].capsule, turns[m - 1])
  }

  /** The device moved on past that angle before capsule `m`. */
  predicate ArcLost(run: seq<Reception>, turns: seq<int>, m: nat)
    requires 0 < m < |run| == |turns|
  {
    SampledTo(run, turns, m) != Unrolled(run[m].capsule, turns[m])
  }

  /** It even started a turn that shows up in no sample. */
  predicate TurnLost(run: seq<Reception>, turns: seq<int>, m: nat)
    requires 0 < m < |run| == |turns|
  {
    turns[m] != turns[m - 1] + if run[m].ready then Wraps(run[m - 1].capsule, run[m].capsule) else 0
  }

  /** Within a run the turn of a reception is never less than that of the one before, plus one for the
      sync node of its own pair. */
  lemma TurnsAscend(run: seq<Reception>, turns: seq<int>, m: nat)
    requires Physical(run, turns) && 0 < m < |run|
    ensures turns[m - 1] + (if run[m].ready then Wraps(run[m - 1].capsule, run[m].capsule) else 0) <= turns[m]
  {
    if !run[m].ready {
      assert run[m] in run && run[m - 1] in run;
      TurnMonotonic(Unrolled(run[m - 1].capsule, turns[m - 1]), Unrolled(run[m].capsule, turns[m]));
      TurnOfStart(run[m - 1].capsule, turns[m - 1]);
      TurnOfStart(run[m].capsule, turns[m]);
    }
  }

  /** Nor is its unrolled angle less than what was sampled, or than that of the capsule before. */
  lemma AnglesAscend(run: seq<Reception>, turns: seq<int>, m: nat)
    requires Physical(run, turns) && 0 < m < |run|
    ensures Unrolled(run[m - 1].capsule, turns[m - 1]) <= SampledTo(run, turns, m) <= Unrolled(run[m].capsule, turns[m])
  {
    assert run[m] in run && run[m - 1] in run;
  }

  lemma {:induction false} AnglesAscendFrom(run: seq<Reception>, turns: seq<int>, m: nat, n: nat)
    requires Physical(run, turns) && m <= n < |run|
    ensures Unrolled(run[m].capsule, turns[m]) <= Unrolled(run[n].capsule, turns[n])
    decreases n
  {
    hide Unrolled, SampledTo;
    if m < n {
      AnglesAscendFrom(run, turns, m, n - 1);
      AnglesAscend(run, turns, n);
    }
  }

  /** A ready reception whose start angle decreased emits a sync node. */
  lemma NewTurnEmitsSync(prior: Capsule, run: seq<Reception>, turns: seq<int>, m: nat) returns (i: nat)
    requires Physical(run, turns) && 0 < m < |run| && run[m].ready && Wraps(run[m - 1].capsule, run[m].capsule) == 1
    ensures Emitted(run[..m]) <= i < Emitted(run[..m + 1]) && i < |NodeStream(prior, run)|
    ensures NodeStream(prior, run)[i].IsSync()
  {
    hide NodeStream, SampleStream;
    var prev, cur := run[m - 1].capsule, run[m].capsule;
    assert run[m] in run && run[m - 1] in run;
    PairSyncCount(prev, cur);
    SyncPositionsOrdered(Expand(prev, cur));
    var k := SyncPositions(Expand(prev, cur))[0];
    SyncPositionsIff(Expand(prev, cur), k);
    i := Emitted(run[..m]) + k;
    PairAt(prior, run, turns, m, k);
    EmittedNext(run, m);
  }

  /** Nodes of a reception between two others lie between theirs. */
  lemma EmittedBetween(run: seq<Reception>, p: nat, i: nat, q: nat, m: nat)
    requires p < Emitted(run) && q < Emitted(run) && Source(run, p) < m < Source(run, q)
    requires Emitted(run[..m]) <= i < Emitted(run[..m + 1])
    ensures p < i < q
  {
    hide Emitted;
    var a, b := Source(run, p), Source(run, q);
    EmittedNext(run, a);
    EmittedMonotonic(run, a + 1, m);
    EmittedMonotonic(run, m + 1, b);
  }

  /** Between the sources of two successive sync nodes no start angle of a pair decreases. */
  lemma QuietBetween(prior: Capsule, run: seq<Reception>, turns: seq<int>, j: nat, m: nat)
    requires Physical(run, turns) && j + 1 < |SyncPositions(NodeStream(prior, run))|
    requires var ps := SyncPositions(NodeStream(prior, run));
             ps[j] < Emitted(run) && ps[j + 1] < Emitted(run) && Source(run, ps[j]) < m < Source(run, ps[j + 1])
    requires run[m].ready
    ensures Wraps(run[m - 1].capsule, run[m].capsule) == 0
  {
    hide NodeStream, SyncPositions, Physical, Emitted, Source;
    var ps := SyncPositions(NodeStream(prior, run));
    PhysicalTurns(run, turns);
    if Wraps(run[m - 1].capsule, run[m].capsule) == 1 {
      var i := NewTurnEmitsSync(prior, run, turns, m);
      EmittedBetween(run, ps[j], i, ps[j + 1], m);
      NoSyncBetween(NodeStream(prior, run), j, i);
    }
  }

  /** If no pair after the first emits a sync node, the turn is one more than before the first
      exactly when none is lost. */
  lemma {:induction false} TurnsFrom(run: seq<Reception>, turns: seq<int>, a: nat, b: nat)
    requires Physical(run, turns) && 0 < a < b <= |run| == |turns|
    requires run[a].ready && Wraps(run[a - 1].capsule, run[a].capsule) == 1
    requires forall m | a < m < b && run[m].ready :: Wraps(run[m - 1].capsule, run[m].capsule) == 0
    ensures turns[a - 1] + 1 <= turns[b - 1]
    ensures turns[b - 1] == turns[a - 1] + 1 <==> forall m | a <= m < b :: !TurnLost(run, turns, m)
    decreases b
  {
    hide Physical, Wraps;
    TurnsAscend(run, turns, b - 1);
    if a + 1 == b {
      assert TurnLost(run, turns, a) <==> turns[a] != turns[a - 1] + 1;
      assert (forall m | a <= m < b :: !TurnLost(run, turns, m)) <==> !TurnLost(run, turns, a);
    } else {
      TurnsFrom(run, turns, a, b - 1);
      assert TurnLost(run, turns, b - 1) <==> turns[b - 1] != turns[b - 2];
      assert (forall m | a <= m < b :: !TurnLost(run, turns, m)) <==>
             (forall m | a <= m < b - 1 :: !TurnLost(run, turns, m)) && !TurnLost(run, turns, b - 1);
    }
  }

  // ----- missing arcs -----

  /** A sample ends by its pair's end. */
  lemma SampleEnd(prior: Capsule, run: seq<Reception>, turns: seq<int>, i: nat)
    requires Physical(run, turns) && i < Emitted(run)
    ensures i < |SampleStream(run, turns)|
    ensures var m := Source(run, i);
            && m > 0 && SampleStream(run, turns)[i].to <= SampledTo(run, turns, m)
            && (i == Emitted(run[..m]) + 31 ==> SampleStream(run, turns)[i].to == SampledTo(run, turns, m))
            && (i == Emitted(run[..m]) ==> SampleStream(run, turns)[i].from == Unrolled(run[m - 1].capsule, turns[m - 1]))
            && (i > Emitted(run[..m]) ==> SampleStream(run, turns)[i - 1].to == SampleStream(run, turns)[i].from)
  {
    hide NodeStream, SampleStream, Emitted, Expand, PairSamples, Unrolled, Wraps;
    var m := Source(run, i);
    var k := i - Emitted(run[..m]);
    PairAt(prior, run, turns, m, k);
    assert run[m] in run && run[m - 1] in run;
    var ts := PairSamples(run[m - 1].capsule, run[m].capsule, turns[m - 1]);
    PairTraced(run[m - 1].capsule, run[m].capsule, turns[m - 1]);
    PairEnds(run[m - 1].capsule, run[m].capsule, turns[m - 1]);
    FromsAscend(ts, k, 31);
    if k > 0 {
      PairAt(prior, run, turns, m, k - 1);
    }
  }

  lemma SourceFrom(run: seq<Reception>, i: nat, m: nat)
    requires i < Emitted(run) && m <= |run| && Emitted(run[..m]) <= i
    ensures Source(run, i) >= m
  {
    hide Emitted;
    var n := Source(run, i);
    if n < m {
      EmittedNext(run, n);
      EmittedMonotonic(run, n + 1, m);
    }
  }

  lemma SourceUpTo(run: seq<Reception>, i: nat, m: nat)
    requires i < Emitted(run) && m <= |run| && i < Emitted(run[..m])
    ensures Source(run, i) < m
  {
    hide Emitted;
    var n := Source(run, i);
    if m <= n {
      EmittedMonotonic(run, m, n);
    }
  }

  /** Samples emitted up to reception `m` end by what is sampled then, and the next one emitted does
      not start before its capsule. */
  lemma SamplesAround(prior: Capsule, run: seq<Reception>, turns: seq<int>, m: nat)
    requires Physical(run, turns) && 0 < m < |run|
    requires 0 < Emitted(run[..m + 1]) < Emitted(run)
    ensures var i, ts := Emitted(run[..m + 1]), SampleStream(run, turns);
            i < |ts| && ts[i - 1].to <= SampledTo(run, turns, m) && Unrolled(run[m].capsule, turns[m]) <= ts[i].from
  {
    hide SampleStream, Emitted, Source, SampledTo, Unrolled, Physical;
    PhysicalTurns(run, turns);
    var i := Emitted(run[..m + 1]);
    var before, after := Source(run, i - 1), Source(run, i);
    SampleEnd(prior, run, turns, i - 1);
    SampleEnd(prior, run, turns, i);
    SourceUpTo(run, i - 1, m + 1);
    SourceFrom(run, i, m + 1);
    if before < m {
      AnglesAscend(run, turns, before);
      AnglesAscendFrom(run, turns, before, m - 1);
      AnglesAscend(run, turns, m);
    }
    EmittedMonotonic(run, m + 1, after);
    AnglesAscendFrom(run, turns, m, after - 1);
  }

  /** While no arc is lost, the samples emitted reach exactly to the latest capsule. */
  lemma {:induction false} SamplesReach(prior: Capsule, run: seq<Reception>, turns: seq<int>, a: nat, m: nat)
    requires Physical(run, turns) && 0 < a <= m < |run| == |turns| && run[a].ready
    requires forall n | a <= n <= m :: !ArcLost(run, turns, n)
    ensures var i := Emitted(run[..m + 1]);
            0 < i <= |SampleStream(run, turns)| && SampleStream(run, turns)[i - 1].to == Unrolled(run[m].capsule, turns[m])
    decreases m
  {
    hide SampleStream, Emitted, Unrolled, Physical, Source;
    PhysicalTurns(run, turns);
    EmittedNext(run, m);
    assert !ArcLost(run, turns, m);
    if run[m].ready {
      EmittedMonotonic(run, m + 1, |run|);
      assert run[..|run|] == run;
      var i := Emitted(run[..m + 1]);
      SourceFrom(run, i - 1, m);
      SourceUpTo(run, i - 1, m + 1);
      SampleEnd(prior, run, turns, i - 1);
    } else {
      SamplesReach(prior, run, turns, a, m - 1);
    }
  }

  lemma NoArcLostAbut(prior: Capsule, run: seq<Reception>, turns: seq<int>, p: nat, q: nat)
    requires Physical(run, turns) && p < q < Emitted(run) == |SampleStream(run, turns)| && |turns| == |run|
    requires 0 < Source(run, p) < Source(run, q)
    requires forall m | Source(run, p) <= m < Source(run, q) :: !ArcLost(run, turns, m)
    ensures Abut(SampleStream(run, turns), p, q)
  {
    hide SampleStream, Emitted, Unrolled, Physical, ArcLost, SampledTo;
    PhysicalTurns(run, turns);
    var ts, a, b := SampleStream(run, turns), Source(run, p), Source(run, q);
    forall i | p < i <= q ensures ts[i - 1].to == ts[i].from {
      var m := Source(run, i);
      SourceFrom(run, i, a);
      EmittedNext(run, b);
      EmittedMonotonic(run, b + 1, |run|);
      SourceUpTo(run, i, b + 1);
      SampleEnd(prior, run, turns, i);
      if i == Emitted(run[..m]) {
        SamplesReach(prior, run, turns, a, m - 1);
      }
    }
  }

  lemma ArcLostGap(prior: Capsule, run: seq<Reception>, turns: seq<int>, p: nat, q: nat, m: nat)
    requires Physical(run, turns) && p < q < Emitted(run) == |SampleStream(run, turns)| && |turns| == |run|
    requires 0 < Source(run, p) <= m < Source(run, q) && ArcLost(run, turns, m)
    ensures !Abut(SampleStream(run, turns), p, q)
  {
    hide SampleStream, Emitted, Unrolled, Physical, SampledTo;
    PhysicalTurns(run, turns);
    var ts, a, b := SampleStream(run, turns), Source(run, p), Source(run, q);
    var i := Emitted(run[..m + 1]);
    EmittedNext(run, a);
    EmittedMonotonic(run, a + 1, m + 1);
    EmittedMonotonic(run, m + 1, b);
    AnglesAscend(run, turns, m);
    SamplesAround(prior, run, turns, m);
    assert p < i <= q && ts[i - 1].to < ts[i].from;
  }

  /** Two samples and all between them abut exactly when no arc is lost from the reception that
      emitted the first up to the one before that which emitted the second. */
  lemma AbutIff(prior: Capsule, run: seq<Reception>, turns: seq<int>, p: nat, q: nat)
    requires Physical(run, turns) && p < q < Emitted(run) == |SampleStream(run, turns)| && |turns| == |run|
    requires 0 < Source(run, p) < Source(run, q)
    ensures Abut(SampleStream(run, turns), p, q) <==>
            forall m | Source(run, p) <= m < Source(run, q) :: !ArcLost(run, turns, m)
  {
    hide SampleStream, Emitted, Physical, ArcLost, Source, Abut;
    if m :| Source(run, p) <= m < Source(run, q) && ArcLost(run, turns, m) {
      ArcLostGap(prior, run, turns, p, q, m);
    } else {
      NoArcLostAbut(prior, run, turns, p, q);
    }
  }

  // ----- one revolution -----

  /** Different sync nodes come from different receptions, in order. */
  lemma SourceBefore(prior: Capsule, run: seq<Reception>, turns: seq<int>, p: nat, q: nat)
    requires Physical(run, turns) && p < q < |NodeStream(prior, run)|
    requires NodeStream(prior, run)[p].IsSync() && NodeStream(prior, run)[q].IsSync()
    ensures q < Emitted(run) && Source(run, p) < Source(run, q)
  {
    hide NodeStream, SampleStream, Physical, Emitted;
    PhysicalTurns(run, turns);
    StreamTraced(prior, run, turns);
    SyncSourceTurns(prior, run, turns, p);
    SyncSourceTurns(prior, run, turns, q);
    hide Wraps;
    var ts := SampleStream(run, turns);
    FromsAscend(ts, p, q);
    TurnMonotonic(ts[p].to, ts[q].from);
    var a, b := Source(run, p), Source(run, q);
    if b < a {
      EmittedNext(run, b);
      EmittedMonotonic(run, b + 1, a);
    }
  }

  /** The positions at which scan `j` of a stream opens and closes. */
  predicate ScanEnds(s: seq<Node>, j: nat, p: nat, q: nat) {
    j + 1 < |SyncPositions(s)| && p == SyncPositions(s)[j] && q == SyncPositions(s)[j + 1]
  }

  lemma ScanSources(prior: Capsule, run: seq<Reception>, turns: seq<int>, j: nat, p: nat, q: nat)
    requires Physical(run, turns) && ScanEnds(NodeStream(prior, run), j, p, q)
    ensures var s, ts := NodeStream(prior, run), SampleStream(run, turns);
            && |s| == |ts| == Emitted(run) && |turns| == |run| && p < q < |s| && s[p].IsSync() && s[q].IsSync()
            && 0 < Source(run, p) < Source(run, q)
  {
    hide NodeStream, SampleStream, SyncPositions, Physical, Emitted, Source;
    PhysicalTurns(run, turns);
    var s := NodeStream(prior, run);
    StreamLengths(prior, run, turns);
    SyncPositionsOrdered(s);
    SyncPositionsIff(s, p);
    SyncPositionsIff(s, q);
    SyncSourceTurns(prior, run, turns, p);
    SourceBefore(prior, run, turns, p, q);
  }

  /** Whatever capsules a run has lost: the samples from one sync node to the next lie in a single
      turn exactly when no turn is lost between the capsules that emitted the two. */
  lemma SingleTurnIff(prior: Capsule, run: seq<Reception>, turns: seq<int>, j: nat, p: nat, q: nat)
    requires Physical(run, turns) && ScanEnds(NodeStream(prior, run), j, p, q)
    ensures |NodeStream(prior, run)| == |SampleStream(run, turns)| == Emitted(run) && |turns| == |run|
    ensures p < q < Emitted(run) && 0 < Source(run, p) < Source(run, q)
    ensures SingleTurn(SampleStream(run, turns), p, q) <==>
            forall m | Source(run, p) <= m < Source(run, q) :: !TurnLost(run, turns, m)
    ensures SingleTurn(SampleStream(run, turns), p, q) <==>
            Turn(SampleStream(run, turns)[q].from) == OpenedTurn(SampleStream(run, turns), p)
  {
    hide NodeStream, SampleStream, IsRevolution, Physical, Emitted, TurnLost, Traced, SyncPositions, Wraps, SingleTurn, Source;
    PhysicalTurns(run, turns);
    ScanSources(prior, run, turns, j, p, q);
    StreamTraced(prior, run, turns);
    RevolutionIff(NodeStream(prior, run), SampleStream(run, turns), p, q);
    SyncSourceTurns(prior, run, turns, p);
    SyncSourceTurns(prior, run, turns, q);
    forall m | Source(run, p) < m < Source(run, q) && run[m].ready
      ensures Wraps(run[m - 1].capsule, run[m].capsule) == 0
    {
      QuietBetween(prior, run, turns, j, m);
    }
    SourceReady(run, p);
    TurnsFrom(run, turns, Source(run, p), Source(run, q));
  }

  lemma SourceReady(run: seq<Reception>, i: nat)
    requires i < Emitted(run)
    ensures run[Source(run, i)].ready
  {
  }

  /** A lost turn is a lost arc. */
  lemma TurnLostIsArcLost(run: seq<Reception>, turns: seq<int>, m: nat)
    requires Physical(run, turns) && 0 < m < |run| == |turns| && TurnLost(run, turns, m)
    ensures ArcLost(run, turns, m)
  {
    assert run[m] in run && run[m - 1] in run;
    TurnOfStart(run[m].capsule, turns[m]);
    TurnOfStart(run[m - 1].capsule, turns[m - 1]);
    TurnOfStart(run[m].capsule, turns[m - 1] + Wraps(run[m - 1].capsule, run[m].capsule));
    hide Unrolled, Turn, Wraps, Physical;
  }

  /** They are one complete revolution exactly when no arc is lost there. */
  lemma OneRevolutionIff(prior: Capsule, run: seq<Reception>, turns: seq<int>, j: nat, p: nat, q: nat)
    requires Physical(run, turns) && ScanEnds(NodeStream(prior, run), j, p, q)
    ensures |NodeStream(prior, run)| == |SampleStream(run, turns)| == Emitted(run) && |turns| == |run|
    ensures p < q < Emitted(run) && 0 < Source(run, p) < Source(run, q)
    ensures IsRevolution(NodeStream(prior, run), SampleStream(run, turns), p, q) <==>
            forall m | Source(run, p) <= m < Source(run, q) :: !ArcLost(run, turns, m)
  {
    hide *;
    PhysicalTurns(run, turns);
    SingleTurnIff(prior, run, turns, j, p, q);
    ScanSources(prior, run, turns, j, p, q);
    StreamTraced(prior, run, turns);
    RevolutionIff(NodeStream(prior, run), SampleStream(run, turns), p, q);
    AbutIff(prior, run, turns, p, q);
    if m :| Source(run, p) <= m < Source(run, q) && TurnLost(run, turns, m) {
      TurnLostIsArcLost(run, turns, m);
    }
  }

  // ----- gap-free runs -----

  /** The ready flag stays set after the first reception. */
  predicate GapFree(run: seq<Reception>) {
    && run != [] && !run[0].ready
    && (forall i | 0 < i < |run| :: run[i].ready)
    && (forall i | 0 <= i < |run| :: ValidStart(run[i].capsule))
  }

  /** The turn of each capsule of a gap-free run, counted from the first one. */
  function TurnsOf(run: seq<Reception>): (turns: seq<int>)
    requires run != []
    ensures |turns| == |run|
  {
    if |run| == 1 then [0]
    else
      var n := |run| - 1;
      var turns := TurnsOf(run[..n]);
      turns + [turns[n - 1] + Wraps(run[n - 1].capsule, run[n].capsule)]
  }

  ghost predicate Contiguous(ts: seq<Sample>) {
    forall i | 0 < i < |ts| :: ts[i - 1].to == ts[i].from
  }

  ghost predicate Spans(ts: seq<Sample>, from: int, to: int) {
    if ts == [] then from == to else ts[0].from == from && ts[|ts| - 1].to == to
  }

  lemma ContiguousConcat(ts: seq<Sample>, us: seq<Sample>, from: int, mid: int, to: int)
    requires Contiguous(ts) && Spans(ts, from, mid) && Contiguous(us) && Spans(us, mid, to)
    ensures Contiguous(ts + us) && Spans(ts + us, from, to)
  {
    var n := |ts|;
    forall i | 0 < i < |ts + us| ensures (ts + us)[i - 1].to == (ts + us)[i].from {
      if i > n {
        assert us[i - n - 1].to == us[i - n].from;
      }
    }
  }

  lemma {:induction false} GapFreeTurns(run: seq<Reception>, m: nat)
    requires 0 < m < |run|
    ensures TurnsOf(run)[m] == TurnsOf(run)[m - 1] + Wraps(run[m - 1].capsule, run[m].capsule)
    decreases |run|
  {
    hide Wraps;
    var n := |run| - 1;
    if m < n {
      GapFreeTurns(run[..n], m);
    }
  }

  lemma GapFreePhysical(run: seq<Reception>)
    requires GapFree(run)
    ensures Physical(run, TurnsOf(run))
  {
    hide TurnsOf;
    forall i | 0 < i < |run| ensures TurnsOf(run)[i] == TurnsOf(run)[i - 1] + Wraps(run[i - 1].capsule, run[i].capsule) {
      GapFreeTurns(run, i);
    }
  }

  /** In a gap-free run each sample starts where the one before it ended, all the way from the
      first capsule to the last. */
  lemma {:induction false} GapFreeContiguous(run: seq<Reception>)
    requires GapFree(run)
    ensures Contiguous(SampleStream(run, TurnsOf(run)))
    ensures var n, turns := |run| - 1, TurnsOf(run);
            Spans(SampleStream(run, turns), Unrolled(run[0].capsule, 0), Unrolled(run[n].capsule, turns[n]))
    decreases |run|
  {
    hide PairSamples;
    var n, turns := |run| - 1, TurnsOf(run);
    if n == 0 {
      assert SampleStream(run[..0], turns[..0]) == [];
    } else {
      var prev, cur := run[n - 1].capsule, run[n].capsule;
      GapFreeContiguous(run[..n]);
      assert turns[..n] == TurnsOf(run[..n]);
      PairEnds(prev, cur, turns[n - 1]);
      ContiguousConcat(SampleStream(run[..n], turns[..n]), PairSamples(prev, cur, turns[n - 1]),
                       Unrolled(run[0].capsule, 0), Unrolled(prev, turns[n - 1]), Unrolled(cur, turns[n]));
    }
  }

  /** Sync nodes count turns. */
  lemma {:induction false} SyncCount(s: seq<Node>, ts: seq<Sample>, from: int, to: int)
    requires Traced(s, ts) && Contiguous(ts) && Spans(ts, from, to)
    ensures |SyncPositions(s)| == Turn(to) - Turn(from)
    decreases |s|
  {
    if s != [] {
      var n := |s| - 1;
      assert Traced(s[..n], ts[..n]);
      SyncCount(s[..n], ts[..n], from, ts[n].from);
    }
  }

  /** A pair of capsules emits one sync node if the start angle decreased, and none otherwise. */
  lemma PairSyncCount(prev: Capsule, cur: Capsule)
    requires ValidStart(prev) && ValidStart(cur)
    ensures |SyncPositions(Expand(prev, cur))| == Wraps(prev, cur)
  {
    var from, to := Unrolled(prev, 0), Unrolled(cur, Wraps(prev, cur));
    PairTraced(prev, cur, 0);
    PairEnds(prev, cur, 0);
    SyncCount(Expand(prev, cur), PairSamples(prev, cur, 0), from, to);
    TurnOfStart(prev, 0);
    TurnOfStart(cur, Wraps(prev, cur));
  }

  /** The sum of the angle differences the expander divides among its samples. */
  function TotalDiffQ16(run: seq<Reception>): int {
    if |run| < 2 then 0
    else
      var n := |run| - 1;
      TotalDiffQ16(run[..n]) + 0x100 * DiffAngleQ8(run[n - 1].capsule, run[n].capsule)
  }

  lemma {:induction false} TotalDiffTelescopes(run: seq<Reception>)
    requires run != []
    ensures var n, turns := |run| - 1, TurnsOf(run);
            Unrolled(run[0].capsule, 0) + TotalDiffQ16(run) == Unrolled(run[n].capsule, turns[n])
    decreases |run|
  {
    var n := |run| - 1;
    if n > 0 {
      TotalDiffTelescopes(run[..n]);
      NoDrift(run[n - 1].capsule, run[n].capsule);
    }
  }

  lemma SyncsAreTurns(prior: Capsule, run: seq<Reception>)
    requires GapFree(run)
    ensures |SyncPositions(NodeStream(prior, run))| == TurnsOf(run)[|run| - 1]
  {
    var n, turns := |run| - 1, TurnsOf(run);
    var first, last := run[0].capsule, run[n].capsule;
    GapFreePhysical(run);
    GapFreeContiguous(run);
    StreamTraced(prior, run, turns);
    SyncCount(NodeStream(prior, run), SampleStream(run, turns), Unrolled(first, 0), Unrolled(last, turns[n]));
    TurnOfStart(first, 0);
    TurnOfStart(last, turns[n]);
  }

  /** Rotation is conserved over a gap-free run: every full turn shows up as one sync node. */
  lemma RotationConserved(prior: Capsule, run: seq<Reception>)
    requires GapFree(run)
    ensures 0x400 * run[0].capsule.StartQ6() + TotalDiffQ16(run) ==
            0x400 * run[|run| - 1].capsule.StartQ6() + FULL_TURN_Q16 * |SyncPositions(NodeStream(prior, run))|
  {
    TotalDiffTelescopes(run);
    SyncsAreTurns(prior, run);
  }

  /** `scan` is revolution number `k` of a gap-free run, cut to `limit` nodes. */
  ghost predicate IsScanOf(prior: Capsule, run: seq<Reception>, k: nat, scan: seq<Node>, limit: nat)
    requires GapFree(run)
  {
    var s, ts := NodeStream(prior, run), SampleStream(run, TurnsOf(run));
    && |s| == |ts| && Ordered(SyncPositions(s), |s|) && k + 1 < |SyncPositions(s)|
    && var p, q := SyncPositions(s)[k], SyncPositions(s)[k + 1];
    && IsRevolution(s, ts, p, q)
    && scan == Take(s[p..q], limit)
  }

  lemma ScanIsSegment(s: seq<Node>, maxNodes: ScanCapacity, k: nat)
    requires k < |Scans(s, maxNodes)|
    ensures k + 1 < |SyncPositions(s)| && Ordered(SyncPositions(s), |s|)
    ensures Scans(s, maxNodes)[k] == Take(s[SyncPositions(s)[k]..SyncPositions(s)[k + 1]], maxNodes - 1)
  {
    SyncPositionsOrdered(s);
  }

  lemma GapFreeKeepsArcs(run: seq<Reception>, m: nat)
    requires GapFree(run) && 0 < m < |run|
    ensures !ArcLost(run, TurnsOf(run), m)
  {
    hide TurnsOf, Wraps, Unrolled;
    GapFreeTurns(run, m);
  }

  /** Every scan published over a gap-free run is one complete revolution, cut to what fits. */
  lemma GapFreeRevolution(prior: Capsule, run: seq<Reception>, maxNodes: ScanCapacity)
    requires GapFree(run)
    ensures var scans := Scans(NodeStream(prior, run), maxNodes);
            forall k | 0 <= k < |scans| :: IsScanOf(prior, run, k, scans[k], maxNodes - 1)
  {
    hide NodeStream, SampleStream, TurnsOf, Physical, IsRevolution, Scans, SyncPositions, ArcLost, Source, Emitted;
    var s := NodeStream(prior, run);
    GapFreePhysical(run);
    forall k | 0 <= k < |Scans(s, maxNodes)| ensures IsScanOf(prior, run, k, Scans(s, maxNodes)[k], maxNodes - 1) {
      ScanIsSegment(s, maxNodes, k);
      var p, q := SyncPositions(s)[k], SyncPositions(s)[k + 1];
      OneRevolutionIff(prior, run, TurnsOf(run), k, p, q);
      forall m | Source(run, p) <= m < Source(run, q) ensures !ArcLost(run, TurnsOf(run), m) {
        GapFreeKeepsArcs(run, m);
      }
    }
  }

  // ----- lost arcs and turns -----

  /** Two pairs of capsules with a gap between them. */
  function TwoPairs(a: Capsule, b: Capsule, c: Capsule, d: Capsule): seq<Reception> {
    [Reception(a, false)] + [Reception(b, true)] + [Reception(c, false)] + [Reception(d, true)]
  }

  /** If the device moves on in the gap, the scan across it is not a complete revolution, and if it
      starts a turn, not even of a single turn: the cutting loop does not start afresh when the
      parser loses the capsule stream. */
  lemma GapSpoilsScan(prior: Capsule, a: Capsule, b: Capsule, c: Capsule, d: Capsule, lost: nat, maxNodes: ScanCapacity)
    requires ValidStart(a) && ValidStart(b) && ValidStart(c) && ValidStart(d)
    requires Wraps(a, b) == 1 && Wraps(c, d) == 1 && Unrolled(b, 1) <= Unrolled(c, 1 + lost)
    ensures var run, turns := TwoPairs(a, b, c, d), [0, 1, 1 + lost, 2 + lost];
            var s, ts := NodeStream(prior, run), SampleStream(run, turns);
            && Physical(run, turns) && |s| == |ts| && |Scans(s, maxNodes)| == 1
            && |SyncPositions(s)| == 2 && Ordered(SyncPositions(s), |s|)
            && var p, q := SyncPositions(s)[0], SyncPositions(s)[1];
            && (IsRevolution(s, ts, p, q) <==> Unrolled(b, 1) == Unrolled(c, 1 + lost))
            && (SingleTurn(ts, p, q) <==> lost == 0)
  {
    var run, turns := TwoPairs(a, b, c, d), [0, 1, 1 + lost, 2 + lost];
    TwoPairsPhysical(a, b, c, d, lost);
    TwoPairsLosses(a, b, c, d, lost);
    hide *;
    PhysicalTurns(run, turns);
    TwoPairsStream(prior, a, b, c, d);
    var p, q := OneScanEnds(a, b, c, d, maxNodes);
    OneRevolutionIff(prior, run, turns, 0, p, q);
    SingleTurnIff(prior, run, turns, 0, p, q);
    TwoPairsSource(run, p);
    TwoPairsSource(run, q);
    OnlyTwo(run, turns, 1);
  }

  /** Two pairs that emit a sync node each yield one scan, which opens in the first and closes in the
      second. */
  lemma OneScanEnds(a: Capsule, b: Capsule, c: Capsule, d: Capsule, maxNodes: ScanCapacity) returns (p: nat, q: nat)
    requires ValidStart(a) && ValidStart(b) && ValidStart(c) && ValidStart(d)
    requires Wraps(a, b) == 1 && Wraps(c, d) == 1
    ensures var s := Expand(a, b) + Expand(c, d);
            && |Scans(s, maxNodes)| == 1 && SyncPositions(s) == [p, q] && Ordered(SyncPositions(s), |s|)
            && ScanEnds(s, 0, p, q)
    ensures p < 32 <= q < 64
  {
    hide Expand, ValidStart, Wraps, SyncPositions;
    TwoPairSyncs(a, b, c, d);
    var ps := SyncPositions(Expand(a, b) + Expand(c, d));
    SyncPositionsOrdered(Expand(a, b) + Expand(c, d));
    p, q := ps[0], ps[1];
  }

  lemma TwoPairsLosses(a: Capsule, b: Capsule, c: Capsule, d: Capsule, lost: nat)
    requires Wraps(a, b) == 1
    ensures var run, turns := TwoPairs(a, b, c, d), [0, 1, 1 + lost, 2 + lost];
            && |run| == |turns| == 4 && !run[0].ready && run[1].ready && !run[2].ready && run[3].ready
            && !ArcLost(run, turns, 1) && !TurnLost(run, turns, 1)
            && (ArcLost(run, turns, 2) <==> Unrolled(b, 1) != Unrolled(c, 1 + lost))
            && (TurnLost(run, turns, 2) <==> lost != 0)
  {
    hide Wraps, Unrolled;
  }

  lemma TwoPairsSource(run: seq<Reception>, i: nat)
    requires |run| == 4 && !run[0].ready && run[1].ready && !run[2].ready && run[3].ready && i < 64
    ensures Emitted(run) == 64 && Source(run, i) == if i < 32 then 1 else 3
  {
    hide Source;
    EmittedNext(run, 0);
    EmittedNext(run, 1);
    EmittedNext(run, 2);
    EmittedNext(run, 3);
    assert run[..4] == run && run[..0] == [];
  }

  /** Three capsules, each but the first received with the flag set. */
  function KeptFlag(a: Capsule, b: Capsule, c: Capsule): seq<Reception> {
    [Reception(a, false)] + [Reception(b, true)] + [Reception(c, true)]
  }

  /** The flag does not tell how often the device turned between two capsules of a pair: each turn
      more than the expander takes it for is missing from the scan. */
  lemma KeptFlagSpoilsScan(prior: Capsule, a: Capsule, b: Capsule, c: Capsule, lost: nat, maxNodes: ScanCapacity)
    requires ValidStart(a) && ValidStart(b) && ValidStart(c) && Wraps(a, b) == 1 && Wraps(b, c) == 1
    ensures var run, turns := KeptFlag(a, b, c), [0, 1 + lost, 2 + lost];
            var s, ts := NodeStream(prior, run), SampleStream(run, turns);
            && Physical(run, turns) && |s| == |ts| && |Scans(s, maxNodes)| == 1
            && |SyncPositions(s)| == 2 && Ordered(SyncPositions(s), |s|)
            && var p, q := SyncPositions(s)[0], SyncPositions(s)[1];
            && (IsRevolution(s, ts, p, q) <==> lost == 0)
            && (SingleTurn(ts, p, q) <==> lost == 0)
  {
    var run, turns := KeptFlag(a, b, c), [0, 1 + lost, 2 + lost];
    KeptFlagPhysical(a, b, c, lost);
    KeptFlagLosses(a, b, c, lost);
    hide *;
    PhysicalTurns(run, turns);
    KeptFlagStream(prior, a, b, c);
    var p, q := OneScanEnds(a, b, b, c, maxNodes);
    OneRevolutionIff(prior, run, turns, 0, p, q);
    SingleTurnIff(prior, run, turns, 0, p, q);
    KeptFlagSource(run, p);
    KeptFlagSource(run, q);
    OnlyOne(run, turns, 1);
  }

  lemma OnlyTwo(run: seq<Reception>, turns: seq<int>, m: nat)
    requires 0 < m < m + 1 < |run| == |turns|
    ensures (forall n | m <= n < m + 2 :: !ArcLost(run, turns, n)) <==> !ArcLost(run, turns, m) && !ArcLost(run, turns, m + 1)
    ensures (forall n | m <= n < m + 2 :: !TurnLost(run, turns, n)) <==> !TurnLost(run, turns, m) && !TurnLost(run, turns, m + 1)
  {
    hide ArcLost, TurnLost;
  }

  lemma OnlyOne(run: seq<Reception>, turns: seq<int>, m: nat)
    requires 0 < m < |run| == |turns|
    ensures (forall n | m <= n < m + 1 :: !ArcLost(run, turns, n)) <==> !ArcLost(run, turns, m)
    ensures (forall n | m <= n < m + 1 :: !TurnLost(run, turns, n)) <==> !TurnLost(run, turns, m)
  {
    hide ArcLost, TurnLost;
  }

  lemma KeptFlagLosses(a: Capsule, b: Capsule, c: Capsule, lost: nat)
    requires Wraps(a, b) == 1
    ensures var run, turns := KeptFlag(a, b, c), [0, 1 + lost, 2 + lost];
            && |run| == |turns| == 3 && !run[0].ready && run[1].ready && run[2].ready
            && (ArcLost(run, turns, 1) <==> lost != 0) && (TurnLost(run, turns, 1) <==> lost != 0)
  {
    hide Wraps;
  }

  lemma KeptFlagSource(run: seq<Reception>, i: nat)
    requires |run| == 3 && !run[0].ready && run[1].ready && run[2].ready && i < 64
    ensures Emitted(run) == 64 && Source(run, i) == if i < 32 then 1 else 2
  {
    hide Source;
    EmittedNext(run, 0);
    EmittedNext(run, 1);
    EmittedNext(run, 2);
    assert run[..3] == run && run[..0] == [];
  }

  lemma KeptFlagPhysical(a: Capsule, b: Capsule, c: Capsule, lost: nat)
    requires ValidStart(a) && ValidStart(b) && ValidStart(c) && Wraps(a, b) == 1 && Wraps(b, c) == 1
    ensures Physical(KeptFlag(a, b, c), [0, 1 + lost, 2 + lost])
  {
  }

  lemma KeptFlagStream(prior: Capsule, a: Capsule, b: Capsule, c: Capsule)
    ensures NodeStream(prior, KeptFlag(a, b, c)) == Expand(a, b) + Expand(b, c)
  {
    NoStream(prior);
    hide Expand, NodeStream;
    var r1 := [] + [Reception(a, false)];
    var r2 := r1 + [Reception(b, true)];
    assert r1 == [Reception(a, false)];
    NodeStreamSnoc(prior, [], Reception(a, false));
    NodeStreamSnoc(prior, r1, Reception(b, true));
    NodeStreamSnoc(prior, r2, Reception(c, true));
  }

  lemma TwoPairsStream(prior: Capsule, a: Capsule, b: Capsule, c: Capsule, d: Capsule)
    ensures NodeStream(prior, TwoPairs(a, b, c, d)) == Expand(a, b) + Expand(c, d)
  {
    NoStream(prior);
    hide Expand, NodeStream;
    var r1 := [] + [Reception(a, false)];
    var r2 := r1 + [Reception(b, true)];
    var r3 := r2 + [Reception(c, false)];
    assert r1 == [Reception(a, false)];
    NodeStreamSnoc(prior, [], Reception(a, false));
    NodeStreamSnoc(prior, r1, Reception(b, true));
    NodeStreamSnoc(prior, r2, Reception(c, false));
    NodeStreamSnoc(prior, r3, Reception(d, true));
  }

  lemma TwoPairSyncs(a: Capsule, b: Capsule, c: Capsule, d: Capsule)
    requires ValidStart(a) && ValidStart(b) && ValidStart(c) && ValidStart(d)
    ensures var ps := SyncPositions(Expand(a, b) + Expand(c, d));
            && |ps| == Wraps(a, b) + Wraps(c, d)
            && (|ps| == 2 ==> ps[0] < 32 <= ps[1] < 64 && ps[0] in SyncPositions(Expand(a, b)))
  {
    hide Expand, SyncPositions, ValidStart;
    PairSyncCount(a, b);
    PairSyncCount(c, d);
    SyncPositionsOrdered(Expand(a, b));
    SyncPositionsOrdered(Expand(c, d));
    SyncPositionsConcat(Expand(a, b), Expand(c, d));
  }

  lemma TwoPairsPhysical(a: Capsule, b: Capsule, c: Capsule, d: Capsule, lost: nat)
    requires ValidStart(a) && ValidStart(b) && ValidStart(c) && ValidStart(d)
    requires Wraps(a, b) == 1 && Wraps(c, d) == 1 && Unrolled(b, 1) <= Unrolled(c, 1 + lost)
    ensures Physical(TwoPairs(a, b, c, d), [0, 1, 1 + lost, 2 + lost])
  {
    var run, turns := TwoPairs(a, b, c, d), [0, 1, 1 + lost, 2 + lost];
    forall i | 0 < i < |run|
      ensures if run[i].ready then turns[i - 1] + Wraps(run[i - 1].capsule, run[i].capsule) <= turns[i]
              else Unrolled(run[i - 1].capsule, turns[i - 1]) <= Unrolled(run[i].capsule, turns[i])
    {
      assert i == 1 || i == 2 || i == 3;
    }
  }

  lemma NodeStreamSnoc(prior: Capsule, run: seq<Reception>, r: Reception)
    ensures NodeStream(prior, run + [r]) == NodeStream(prior, run) +
              if r.ready then Expand(if run == [] then prior else run[|run| - 1].capsule, r.capsule) else []
  {
    assert (run + [r])[..|run|] == run;
  }
}
