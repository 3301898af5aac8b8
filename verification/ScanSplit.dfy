// Cutting a node stream into scans: the declarative specification, and the state of the cutting
// loop that meets it.
module ScanSplit {
  import opened LidarFrames

  /** The positions of the sync nodes of a stream, in order. */
  function SyncPositions(s: seq<Node>): seq<nat> {
    if s == [] then []
    else
      var n := |s| - 1;
      if s[n].IsSync() then SyncPositions(s[..n]) + [n] else SyncPositions(s[..n])
  }

  /** Positions of a stream of `bound` nodes, in increasing order. */
  predicate Ordered(ps: seq<nat>, bound: nat) {
    && (forall j | 0 <= j < |ps| :: ps[j] < bound)
    && (forall j, k | 0 <= j < k < |ps| :: ps[j] < ps[k])
  }

  lemma {:induction false} SyncPositionsOrdered(s: seq<Node>)
    ensures Ordered(SyncPositions(s), |s|)
  {
    if s != [] {
      SyncPositionsOrdered(s[..|s| - 1]);
    }
  }

  lemma {:induction false} SyncPositionsIff(s: seq<Node>, i: nat)
    requires i < |s|
    ensures i in SyncPositions(s) <==> s[i].IsSync()
  {
    var n := |s| - 1;
    if i < n {
      SyncPositionsIff(s[..n], i);
    } else {
      SyncPositionsOrdered(s[..n]);
      assert forall p <- SyncPositions(s[..n]) :: p < n;
    }
  }

  /** The sync positions of a concatenation: those of the first part, then those of the second,
      moved up. */
  lemma {:induction false} SyncPositionsConcat(s: seq<Node>, t: seq<Node>)
    ensures var ps, qs := SyncPositions(s), SyncPositions(t);
            SyncPositions(s + t) == ps + seq(|qs|, i requires 0 <= i < |qs| => |s| + qs[i])
    decreases |t|
  {
    if t == [] {
      assert s + t == s;
    } else {
      var n := |t| - 1;
      assert (s + t)[..|s| + n] == s + t[..n];
      SyncPositionsConcat(s, t[..n]);
    }
  }

  /** The size of a scan buffer; the cutting loop needs room for a sync node and one more. */
  type ScanCapacity = n: nat | n >= 2 witness 2

  function Take<T>(s: seq<T>, n: nat): seq<T> { if |s| <= n then s else s[..n] }

  /** The nodes from one sync node up to the next. */
  function Segment(s: seq<Node>, j: nat): seq<Node>
    requires j + 1 < |SyncPositions(s)|
  {
    SyncPositionsOrdered(s);
    s[SyncPositions(s)[j]..SyncPositions(s)[j + 1]]
  }

  /** The nodes from the last sync node on. */
  function OpenSegment(s: seq<Node>): seq<Node>
    requires SyncPositions(s) != []
  {
    var ps := SyncPositions(s);
    SyncPositionsOrdered(s);
    s[ps[|ps| - 1]..]
  }

  /** The scans of a stream: from each sync node up to the next one, cut to what fits. What comes
      before the first sync node and after the last one belongs to no scan. */
  function Scans(s: seq<Node>, maxNodes: ScanCapacity): (scans: seq<seq<Node>>)
  {
    var ps := SyncPositions(s);
    if ps == [] then []
    else seq(|ps| - 1, j requires 0 <= j < |ps| - 1 => Take(Segment(s, j), maxNodes - 1))
  }

  lemma SyncPositionsSnoc(s: seq<Node>, x: Node)
    ensures SyncPositions(s + [x]) == SyncPositions(s) + if x.IsSync() then [|s|] else []
  {
    assert (s + [x])[..|s|] == s;
  }

  lemma NoSyncBetween(s: seq<Node>, j: nat, i: nat)
    requires j + 1 < |SyncPositions(s)| && SyncPositions(s)[j] < i < SyncPositions(s)[j + 1]
    ensures i < |s| && !s[i].IsSync()
  {
    var ps := SyncPositions(s);
    SyncPositionsOrdered(s);
    forall k | 0 <= k < |ps| ensures ps[k] != i {
      assert k <= j || j + 1 <= k;
    }
    SyncPositionsIff(s, i);
  }

  /** A sync node followed by others that are not. */
  predicate OneSyncFirst(scan: seq<Node>) {
    scan != [] && scan[0].IsSync() && forall i | 0 < i < |scan| :: !scan[i].IsSync()
  }

  lemma SegmentShape(s: seq<Node>, j: nat)
    requires j + 1 < |SyncPositions(s)|
    ensures OneSyncFirst(Segment(s, j))
  {
    var seg, p := Segment(s, j), SyncPositions(s)[j];
    SyncPositionsOrdered(s);
    SyncPositionsIff(s, p);
    forall i | 0 < i < |seg| ensures !seg[i].IsSync() {
      NoSyncBetween(s, j, p + i);
    }
  }

  /** Every scan starts with a sync node, holds no other, and fits. */
  lemma ScanShape(s: seq<Node>, maxNodes: ScanCapacity, j: nat)
    requires j < |Scans(s, maxNodes)|
    ensures var scan := Scans(s, maxNodes)[j];
            |scan| < maxNodes && OneSyncFirst(scan)
  {
    SegmentShape(s, j);
  }

  lemma SegmentSnoc(s: seq<Node>, x: Node, j: nat)
    requires j + 1 < |SyncPositions(s)|
    ensures j + 1 < |SyncPositions(s + [x])| && Segment(s + [x], j) == Segment(s, j)
  {
    SyncPositionsSnoc(s, x);
    SyncPositionsOrdered(s);
  }

  /** A non-sync node publishes nothing; a sync node publishes the open segment, if there is one. */
  lemma ScansSnoc(s: seq<Node>, x: Node, maxNodes: ScanCapacity)
    ensures var ps := SyncPositions(s);
            Scans(s + [x], maxNodes) == Scans(s, maxNodes) +
              if x.IsSync() && ps != [] then [Take(OpenSegment(s), maxNodes - 1)] else []
  {
    SyncPositionsSnoc(s, x);
    var t, ps := s + [x], SyncPositions(s);
    var old', new' := Scans(s, maxNodes), Scans(t, maxNodes);
    forall j | 0 <= j < |old'| ensures new'[j] == old'[j] {
      SegmentSnoc(s, x, j);
    }
    if x.IsSync() && ps != [] {
      SyncPositionsOrdered(s);
      assert Segment(t, |ps| - 1) == OpenSegment(s);
      assert new' == old' + [new'[|ps| - 1]];
    } else {
      assert new' == old';
    }
  }

  /** The cutting loop's local scan buffer after the stream `s`: its first slot tells whether a
      scan is open, and then its used part is the open segment, cut to all but the last slot. */
  predicate CutState(s: seq<Node>, localScan: seq<Node>, scanCount: nat) {
    var ps, m := SyncPositions(s), |localScan|;
    && m >= 2 && scanCount < m
    && (s != [] ==> scanCount > 0)
    && localScan[0].IsSync() == (ps != [])
    && (ps != [] ==> localScan[..scanCount] == Take(OpenSegment(s), m - 1))
  }

  /** One pass of the cutting loop: a sync node restarts the buffer, the node is stored, and the
      count never leaves the buffer. */
  function NextSlot(scanCount: nat, x: Node): nat { if x.IsSync() then 0 else scanCount }

  function NextCount(m: nat, scanCount: nat, x: Node): nat {
    var slot := NextSlot(scanCount, x);
    if slot + 1 == m then slot else slot + 1
  }

  lemma TakeSnoc(t: seq<Node>, x: Node, n: nat)
    ensures Take(t + [x], n) == if |t| < n then t + [x] else Take(t, n)
  {
  }

  lemma CutPublishes(s: seq<Node>, localScan: seq<Node>, scanCount: nat, x: Node)
    requires CutState(s, localScan, scanCount)
    ensures Scans(s + [x], |localScan|) == Scans(s, |localScan|) +
              if x.IsSync() && localScan[0].IsSync() then [localScan[..scanCount]] else []
    ensures scanCount < |localScan| && (localScan[0].IsSync() ==> scanCount > 0)
  {
    ScansSnoc(s, x, |localScan|);
  }

  lemma CutRestarts(s: seq<Node>, localScan: seq<Node>, x: Node)
    requires |localScan| >= 2 && x.IsSync()
    ensures CutState(s + [x], localScan[0 := x], 1)
  {
    SyncPositionsSnoc(s, x);
    assert OpenSegment(s + [x]) == [x];
    assert localScan[0 := x][..1] == [x];
  }

  lemma StoreNode(localScan: seq<Node>, scanCount: nat, t: seq<Node>, x: Node)
    requires 0 < scanCount < |localScan| && !x.IsSync()
    requires localScan[..scanCount] == Take(t, |localScan| - 1)
    ensures localScan[scanCount := x][..NextCount(|localScan|, scanCount, x)] == Take(t + [x], |localScan| - 1)
  {
    var next := localScan[scanCount := x];
    TakeSnoc(t, x, |localScan| - 1);
    assert next[..scanCount] == localScan[..scanCount];
    assert next[..scanCount + 1] == localScan[..scanCount] + [x];
  }

  lemma CutContinues(s: seq<Node>, localScan: seq<Node>, scanCount: nat, x: Node)
    requires CutState(s, localScan, scanCount) && !x.IsSync()
    ensures CutState(s + [x], localScan[scanCount := x], NextCount(|localScan|, scanCount, x))
  {
    var ps := SyncPositions(s);
    SyncPositionsSnoc(s, x);
    if ps != [] {
      SyncPositionsOrdered(s);
      assert OpenSegment(s + [x]) == OpenSegment(s) + [x];
      StoreNode(localScan, scanCount, OpenSegment(s), x);
    }
  }

  /** The cutting loop keeps its state, and publishes what the specification adds. */
  lemma CutStep(s: seq<Node>, localScan: seq<Node>, scanCount: nat, x: Node)
    requires CutState(s, localScan, scanCount)
    ensures var m := |localScan|;
            && CutState(s + [x], localScan[NextSlot(scanCount, x) := x], NextCount(m, scanCount, x))
            && Scans(s + [x], m) == Scans(s, m) +
                 if x.IsSync() && localScan[0].IsSync() then [localScan[..scanCount]] else []
  {
    CutPublishes(s, localScan, scanCount, x);
    if x.IsSync() {
      CutRestarts(s, localScan, x);
    } else {
      CutContinues(s, localScan, scanCount, x);
    }
  }

  /** Before the first node the cleared buffer is in order and nothing has been published. */
  lemma CutStart(localScan: seq<Node>)
    requires |localScan| >= 2 && localScan[0] == Node(0, 0, 0)
    ensures CutState([], localScan, 0) && Scans([], |localScan|) == []
  {
  }
}
