// Repairing and sorting a grabbed scan in place. Floating point is modelled by the reals; the
// conversion back to the fixed-point field truncates.
module AscendScan {
  import opened Bytes
  import opened LidarFrames
  import opened CapsuleReceiver

  function IncOriginAngle(count: nat): real
    requires count > 0
  {
    360.0 / count as real
  }

  function Degrees(n: Node): (d: real)
    ensures 0.0 <= d < 512.0
  {
    n.AngleQ6() as real / 64.0
  }

  /** Stores an angle, keeping the check bit. */
  function WithAngle(n: Node, degrees: real): Node
    requires 0.0 <= degrees < 512.0
  {
    n.(angleQ6Checkbit := 2 * (degrees * 64.0).Floor + n.CheckBit())
  }

  function HeadAngle(next: real, inc: real): real {
    if next - inc < 0.0 then 0.0 else next - inc
  }

  function FoldAngle(angle: real): real {
    if angle > 360.0 then angle - 360.0 else angle
  }

  lemma ScaledBounds(i: real, n: real, inc: real)
    requires 0.0 <= i <= n && 0.0 <= inc
    ensures 0.0 <= i * inc <= n * inc
  {
    assert (n - i) * inc >= 0.0;
  }

  lemma WholeTurn(n: real)
    requires n > 0.0
    ensures n * (360.0 / n) == 360.0 && 360.0 / n > 0.0
  {
  }

  lemma IncScaled(i: nat, count: nat)
    requires i < count
    ensures 0.0 <= i as real * IncOriginAngle(count) <= 360.0
  {
    var n := count as real;
    WholeTurn(n);
    ScaledBounds(i as real, n, 360.0 / n);
  }

  lemma FoldBounds(angle: real)
    requires 0.0 <= angle < 872.0
    ensures 0.0 <= FoldAngle(angle) < 512.0
  {
  }

  lemma FillAngleBounds(front: real, i: nat, count: nat)
    requires i < count && 0.0 <= front < 512.0
    ensures 0.0 <= FoldAngle(front + i as real * IncOriginAngle(count)) < 512.0
  {
    hide *;
    IncScaled(i, count);
    FoldBounds(front + i as real * IncOriginAngle(count));
  }

  lemma IncBounds(count: nat)
    requires count > 0
    ensures 0.0 < IncOriginAngle(count) <= 360.0
  {
  }

  // ----- the three repair passes as functions -----

  predicate IsInvalid(n: Node) { n.distanceQ2 == 0 }

  predicate AllInvalid(s: seq<Node>) { forall n <- s :: IsInvalid(n) }

  /** The first and the last valid node. */
  function FirstValid(s: seq<Node>): (f: nat)
    requires !AllInvalid(s)
    ensures f < |s| && !IsInvalid(s[f]) && forall i | 0 <= i < f :: IsInvalid(s[i])
  {
    if !IsInvalid(s[0]) then 0
    else
      assert s == [s[0]] + s[1..];
      1 + FirstValid(s[1..])
  }

  function LastValid(s: seq<Node>): (l: nat)
    requires !AllInvalid(s)
    ensures l < |s| && !IsInvalid(s[l]) && forall i | l < i < |s| :: IsInvalid(s[i])
  {
    var n := |s| - 1;
    if !IsInvalid(s[n]) then n
    else
      assert s == s[..n] + [s[n]];
      LastValid(s[..n])
  }

  /** One increment below the next node, but not below zero. */
  function TuneDown(n: Node, next: Node, count: nat): Node
    requires count > 0
  {
    IncBounds(count);
    WithAngle(n, HeadAngle(Degrees(next), IncOriginAngle(count)))
  }

  /** One increment above the node before. */
  function TuneUp(n: Node, prev: Node, count: nat): Node
    requires count > 0
  {
    IncBounds(count);
    WithAngle(n, FoldAngle(Degrees(prev) + IncOriginAngle(count)))
  }

  /** The evenly spaced angle of node `i`, counted from the front angle. */
  function Spaced(front: real, n: Node, i: nat, count: nat): Node
    requires i < count && 0.0 <= front < 512.0
  {
    FillAngleBounds(front, i, count);
    WithAngle(n, FoldAngle(front + i as real * IncOriginAngle(count)))
  }

  /** Node `i` of the head, counted down from the first valid node `f`. */
  function TunedHead(s: seq<Node>, f: nat, i: nat): Node
    requires i <= f < |s|
    decreases f - i
  {
    if i == f then s[f] else TuneDown(s[i], TunedHead(s, f, i + 1), |s|)
  }

  function HeadPass(s: seq<Node>): (r: seq<Node>)
    requires !AllInvalid(s)
    ensures |r| == |s|
  {
    var f := FirstValid(s);
    seq(|s|, i requires 0 <= i < |s| => if i < f then TunedHead(s, f, i) else s[i])
  }

  /** Node `i` of the tail, counted up from the last valid node `l`. */
  function TunedTail(s: seq<Node>, l: nat, i: nat): Node
    requires l <= i < |s|
    decreases i
  {
    if i == l then s[l] else TuneUp(s[i], TunedTail(s, l, i - 1), |s|)
  }

  function TailPass(s: seq<Node>): (r: seq<Node>)
    requires !AllInvalid(s)
    ensures |r| == |s|
  {
    var l := LastValid(s);
    seq(|s|, i requires 0 <= i < |s| => if i > l then TunedTail(s, l, i) else s[i])
  }

  /** Invalid nodes but the first get evenly spaced angles, counted from the first. */
  function FilledNode(front: real, n: Node, i: nat, count: nat): Node
    requires i < count && 0.0 <= front < 512.0
  {
    if i > 0 && IsInvalid(n) then Spaced(front, n, i, count) else n
  }

  function FillPass(s: seq<Node>): (r: seq<Node>)
    requires s != []
    ensures |r| == |s|
  {
    seq(|s|, i requires 0 <= i < |s| => FilledNode(Degrees(s[0]), s[i], i, |s|))
  }

  /** The repaired scan before it is sorted. */
  function Repaired(s: seq<Node>): (r: seq<Node>)
    requires !AllInvalid(s)
    ensures |r| == |s|
  {
    FillPass(HeadPass(s))
  }

  // ----- what the passes keep -----

  /** Everything but the angle is the same, and the angle of a valid node too. */
  predicate SameButAngle(n: Node, m: Node) {
    && n.syncQuality == m.syncQuality && n.distanceQ2 == m.distanceQ2 && n.CheckBit() == m.CheckBit()
    && (!IsInvalid(m) ==> n == m)
  }

  lemma WithAngleKeeps(n: Node, degrees: real)
    requires 0.0 <= degrees < 512.0
    ensures var m := WithAngle(n, degrees);
            m.syncQuality == n.syncQuality && m.distanceQ2 == n.distanceQ2 && m.CheckBit() == n.CheckBit()
  {
  }

  lemma TunedHeadKeeps(s: seq<Node>, f: nat, i: nat)
    requires i < f < |s| && IsInvalid(s[i])
    ensures SameButAngle(TunedHead(s, f, i), s[i])
  {
    IncBounds(|s|);
    WithAngleKeeps(s[i], HeadAngle(Degrees(TunedHead(s, f, i + 1)), IncOriginAngle(|s|)));
  }

  lemma TunedTailKeeps(s: seq<Node>, l: nat, i: nat)
    requires l < i < |s| && IsInvalid(s[i])
    ensures SameButAngle(TunedTail(s, l, i), s[i])
  {
    IncBounds(|s|);
    WithAngleKeeps(s[i], FoldAngle(Degrees(TunedTail(s, l, i - 1)) + IncOriginAngle(|s|)));
  }

  lemma FilledNodeKeeps(front: real, n: Node, i: nat, count: nat)
    requires i < count && 0.0 <= front < 512.0
    ensures SameButAngle(FilledNode(front, n, i, count), n)
  {
    FillAngleBounds(front, i, count);
    WithAngleKeeps(n, FoldAngle(front + i as real * IncOriginAngle(count)));
  }

  lemma HeadPassKeeps(s: seq<Node>, i: nat)
    requires !AllInvalid(s) && i < |s|
    ensures SameButAngle(HeadPass(s)[i], s[i])
  {
    if i < FirstValid(s) {
      TunedHeadKeeps(s, FirstValid(s), i);
    }
  }

  lemma TailPassKeeps(s: seq<Node>, i: nat)
    requires !AllInvalid(s) && i < |s|
    ensures SameButAngle(TailPass(s)[i], s[i])
  {
    if i > LastValid(s) {
      TunedTailKeeps(s, LastValid(s), i);
    }
  }

  /** The repair changes the angles of invalid nodes and nothing else. */
  lemma RepairKeeps(s: seq<Node>, i: nat)
    requires !AllInvalid(s) && i < |s|
    ensures SameButAngle(Repaired(s)[i], s[i])
  {
    var h := HeadPass(s);
    HeadPassKeeps(s, i);
    FilledNodeKeeps(Degrees(h[0]), h[i], i, |h|);
  }

  /** At most one full turn, in the fixed-point field. */
  predicate WithinTurn(n: Node) { n.AngleQ6() <= 360 * 64 }

  lemma StoredWithinTurn(n: Node, degrees: real)
    requires 0.0 <= degrees <= 360.0
    ensures WithinTurn(WithAngle(n, degrees))
  {
  }

  lemma {:induction false} HeadWithinTurn(s: seq<Node>, f: nat, i: nat)
    requires i <= f < |s| && WithinTurn(s[f])
    ensures WithinTurn(TunedHead(s, f, i))
    decreases f - i
  {
    if i < f {
      HeadWithinTurn(s, f, i + 1);
      IncBounds(|s|);
      StoredWithinTurn(s[i], HeadAngle(Degrees(TunedHead(s, f, i + 1)), IncOriginAngle(|s|)));
    }
  }

  /** If the valid nodes lie within one turn, so do all repaired nodes: one fold is enough. */
  lemma RepairedWithinTurn(s: seq<Node>, i: nat)
    requires !AllInvalid(s) && i < |s|
    requires forall k | 0 <= k < |s| && !IsInvalid(s[k]) :: WithinTurn(s[k])
    ensures WithinTurn(Repaired(s)[i])
  {
    var f, h := FirstValid(s), HeadPass(s);
    HeadWithinTurn(s, f, 0);
    assert WithinTurn(h[0]);
    if i > 0 && IsInvalid(h[i]) {
      IncScaled(i, |s|);
      FillWithinTurn(Degrees(h[0]), h[i], i, |s|);
    } else {
      HeadPassKeeps(s, i);
    }
  }

  lemma FillWithinTurn(front: real, n: Node, i: nat, count: nat)
    requires 0 < i < count && 0.0 <= front <= 360.0 && IsInvalid(n)
    ensures WithinTurn(FilledNode(front, n, i, count))
  {
    hide IncOriginAngle;
    IncScaled(i, count);
    StoredWithinTurn(n, FoldAngle(front + i as real * IncOriginAngle(count)));
  }

  /** Filling overwrites whatever angle an invalid node carries. */
  lemma FillOverwrites(front: real, n: Node, m: Node, i: nat, count: nat)
    requires 0 < i < count && 0.0 <= front < 512.0 && SameButAngle(n, m)
    ensures FilledNode(front, n, i, count) == FilledNode(front, m, i, count)
  {
  }

  /** The tail pass is redundant: the fill pass overwrites every node it changed. */
  lemma TailPassRedundant(s: seq<Node>)
    requires !AllInvalid(s)
    ensures FillPass(TailPass(s)) == FillPass(s)
  {
    var t := TailPass(s);
    assert t[0] == s[0];
    forall i | 0 <= i < |s| ensures FillPass(t)[i] == FillPass(s)[i] {
      TailPassKeeps(s, i);
      if i > 0 {
        FillOverwrites(Degrees(s[0]), t[i], s[i], i, |s|);
      }
    }
  }

  // ----- the repaired angles in fixed point -----

  lemma FloorOfRatio(x: int, n: nat, r: real)
    requires n > 0 && r * n as real == x as real
    ensures r.Floor == x / n
  {
    var q := x / n;
    assert q * n <= x < q * n + n;
    FloorBetween(q, n as real, x as real, r);
  }

  lemma Scaled(a: real, b: real, m: real)
    requires m > 0.0
    ensures a < b <==> a * m < b * m
    ensures a > b <==> a * m > b * m
  {
    assert (a - b) * m == a * m - b * m;
    if a < b {
      assert (b - a) * m > 0.0;
    } else if a > b {
      assert (a - b) * m > 0.0;
    }
  }

  lemma FloorBetween(q: int, n: real, x: real, r: real)
    requires n > 0.0 && r * n == x && q as real * n <= x < q as real * n + n
    ensures r.Floor == q
  {
    Scaled(r, q as real, n);
    Scaled(r, q as real + 1.0, n);
    assert (q as real + 1.0) * n == q as real * n + n;
  }

  /** `k` increments from the angle `angleQ6`, in 64ths of a degree. */
  lemma ScaledAngle(angleQ6: int, k: int, n: nat)
    requires n > 0
    ensures (angleQ6 as real / 64.0 + k as real * (360.0 / n as real)) * 64.0 * n as real == (angleQ6 * n + 23040 * k) as real
  {
    var m := n as real;
    WholeTurn(m);
    Distribute(angleQ6 as real, k as real, 360.0 / m, m);
    assert (angleQ6 * n) as real == angleQ6 as real * m;
  }

  lemma Distribute(a: real, k: real, inc: real, m: real)
    requires m * inc == 360.0
    ensures (a / 64.0 + k * inc) * 64.0 * m == a * m + 23040.0 * k
  {
    assert (a / 64.0 + k * inc) * 64.0 == a + 64.0 * (k * inc);
    assert (k * inc) * m == k * 360.0;
  }

  lemma StoredAngle(n: Node, degrees: real)
    requires 0.0 <= degrees < 512.0
    ensures WithAngle(n, degrees).AngleQ6() == (degrees * 64.0).Floor
  {
  }

  lemma SignScaled(d: real, bound: int, x: int, n: nat)
    requires n > 0 && d * 64.0 * n as real == x as real
    ensures d < bound as real <==> x < 64 * bound * n
    ensures d > bound as real <==> x > 64 * bound * n
  {
    var m := n as real;
    assert (64 * bound * n) as real == bound as real * (64.0 * m);
    assert x as real == d * (64.0 * m);
    Scaled(d, bound as real, 64.0 * m);
  }

  /** Going one increment down from an angle, not below zero. */
  lemma TunedDownAngle(m: Node, next: Node, n: nat)
    requires n > 0
    ensures var x: int := next.AngleQ6() * n - 23040;
            TuneDown(m, next, n).AngleQ6() == if x < 0 then 0 else x / n
  {
    var a: int := next.AngleQ6();
    var x := a * n - 23040;
    var d := a as real / 64.0 - IncOriginAngle(n);
    ScaledAngle(a, -1, n);
    IncBounds(n);
    assert d == a as real / 64.0 + (-1) as real * (360.0 / n as real);
    SignScaled(d, 0, x, n);
    StoredAngle(m, HeadAngle(Degrees(next), IncOriginAngle(n)));
    hide WithAngle, IncOriginAngle;
    if x >= 0 {
      FloorOfRatio(x, n, d * 64.0);
    }
  }

  lemma FoldedFloor(d: real, x: int, n: nat)
    requires n > 0 && d * 64.0 * n as real == x as real
    ensures (FoldAngle(d) * 64.0).Floor == (if x > 23040 * n then x - 23040 * n else x) / n
  {
    SignScaled(d, 360, x, n);
    if x > 23040 * n {
      Unfold(d, x, n);
      FloorOfRatio(x - 23040 * n, n, (d - 360.0) * 64.0);
    } else {
      FloorOfRatio(x, n, d * 64.0);
    }
  }

  lemma StepsBound(k: nat, n: nat)
    requires 0 < n && k <= n
    ensures 0.0 <= k as real * IncOriginAngle(n) <= 360.0
  {
    WholeTurn(n as real);
    ScaledBounds(k as real, n as real, 360.0 / n as real);
  }

  /** Going `k` increments up from an angle, folded once beyond a full turn. */
  lemma FoldedUpAngle(m: Node, front: Node, k: nat, n: nat)
    requires 0 < n && k <= n
    ensures var d := FoldAngle(Degrees(front) + k as real * IncOriginAngle(n));
            var x: int := front.AngleQ6() * n + 23040 * k;
            0.0 <= d < 512.0 && WithAngle(m, d).AngleQ6() == (if x > 23040 * n then x - 23040 * n else x) / n
  {
    hide WithAngle, FoldAngle;
    var x: int := front.AngleQ6() * n + 23040 * k;
    var d := Degrees(front) + k as real * IncOriginAngle(n);
    StepsBound(k, n);
    ScaledAngle(front.AngleQ6(), k, n);
    FoldBounds(d);
    StoredAngle(m, FoldAngle(d));
    FoldedFloor(d, x, n);
  }

  lemma Unfold(d: real, x: int, n: nat)
    requires d * 64.0 * n as real == x as real
    ensures (d - 360.0) * 64.0 * n as real == (x - 23040 * n) as real
  {
    var m := n as real;
    assert (d - 360.0) * 64.0 * m == d * 64.0 * m - 23040.0 * m;
  }

  /** In front of the first valid node the head pass counts down by a 360th of a turn over the number
      of nodes, rounded down at each node, and stops at zero. */
  function CountedDown(angleQ6: nat, n: nat, steps: nat): nat
    requires n > 0
  {
    if steps == 0 then angleQ6
    else
      var x: int := CountedDown(angleQ6, n, steps - 1) * n - 23040;
      if x < 0 then 0 else x / n
  }

  lemma {:induction false} HeadAngles(s: seq<Node>, f: nat, i: nat)
    requires i <= f < |s|
    ensures TunedHead(s, f, i).AngleQ6() == CountedDown(s[f].AngleQ6(), |s|, f - i)
    decreases f - i
  {
    hide TuneDown;
    if i < f {
      HeadAngles(s, f, i + 1);
      TunedDownAngle(s[i], TunedHead(s, f, i + 1), |s|);
    }
  }

  /** The repaired angles: the front one is counted down from the first valid node, those of other
      nodes without a distance are spaced evenly from the front one, and the rest are as they were. */
  lemma RepairedAngles(s: seq<Node>, f: nat, i: nat)
    requires f < |s| && s[f].distanceQ2 != 0 && (forall k | 0 <= k < f :: s[k].distanceQ2 == 0) && i < |s|
    ensures !AllInvalid(s)
    ensures var a0: int := Repaired(s)[0].AngleQ6();
            var x := a0 * |s| + 23040 * i;
            Repaired(s)[i].AngleQ6() ==
            if i == 0 then CountedDown(s[f].AngleQ6(), |s|, f)
            else if s[i].distanceQ2 != 0 then s[i].AngleQ6()
            else (if x > 23040 * |s| then x - 23040 * |s| else x) / |s|
  {
    FirstValidIs(s, f);
    HeadAngles(s, f, 0);
    RepairKeeps(s, i);
    HeadPassKeeps(s, i);
    hide FillPass, HeadPass, TunedHead, CountedDown, FirstValid, AllInvalid;
    FrontKept(s);
    if i > 0 && s[i].distanceQ2 == 0 {
      FilledAngle(HeadPass(s), i);
    }
  }

  lemma FirstValidIs(s: seq<Node>, f: nat)
    requires f < |s| && s[f].distanceQ2 != 0 && (forall k | 0 <= k < f :: s[k].distanceQ2 == 0)
    ensures !AllInvalid(s) && FirstValid(s) == f
  {
    assert s[f] in s;
  }

  lemma FrontKept(s: seq<Node>)
    requires !AllInvalid(s)
    ensures Repaired(s)[0] == HeadPass(s)[0] == TunedHead(s, FirstValid(s), 0)
  {
  }

  lemma SpacedAngle(m: Node, front: Node, i: nat, n: nat)
    requires i < n
    ensures var x: int := front.AngleQ6() * n + 23040 * i;
            Spaced(Degrees(front), m, i, n).AngleQ6() == (if x > 23040 * n then x - 23040 * n else x) / n
  {
    FoldedUpAngle(m, front, i, n);
    hide WithAngle, FoldAngle, Degrees, IncOriginAngle;
  }

  lemma TunedUpAngle(m: Node, prev: Node, n: nat)
    requires n > 0
    ensures var x: int := prev.AngleQ6() * n + 23040;
            TuneUp(m, prev, n).AngleQ6() == (if x > 23040 * n then x - 23040 * n else x) / n
  {
    FoldedUpAngle(m, prev, 1, n);
    assert 1 as real * IncOriginAngle(n) == IncOriginAngle(n);
    IncBounds(n);
    hide WithAngle, FoldAngle, Degrees, IncOriginAngle;
  }

  lemma FilledAngle(h: seq<Node>, i: nat)
    requires 0 < i < |h| && h[i].distanceQ2 == 0
    ensures var x: int := h[0].AngleQ6() * |h| + 23040 * i;
            FillPass(h)[i].AngleQ6() == (if x > 23040 * |h| then x - 23040 * |h| else x) / |h|
  {
    hide Spaced, Degrees;
    SpacedAngle(h[i], h[0], i, |h|);
  }

  /** Behind the last valid node the tail pass counts up in the same way. */
  lemma TailAngles(s: seq<Node>, i: nat)
    requires !AllInvalid(s) && LastValid(s) < i < |s|
    ensures var x: int := TailPass(s)[i - 1].AngleQ6() * |s| + 23040;
            TailPass(s)[i].AngleQ6() == (if x > 23040 * |s| then x - 23040 * |s| else x) / |s|
  {
    hide *;
    TailStep(s, i);
    TunedUpAngle(s[i], TailPass(s)[i - 1], |s|);
  }

  lemma TailStep(s: seq<Node>, i: nat)
    requires !AllInvalid(s) && LastValid(s) < i < |s|
    ensures TailPass(s)[i] == TuneUp(s[i], TailPass(s)[i - 1], |s|)
  {
    hide TuneUp, LastValid;
    assert TailPass(s)[i - 1] == TunedTail(s, LastValid(s), i - 1);
  }

  // ----- the passes as loops -----

  /** Returns whether a valid node was found. */
  method TuneHead(nodebuffer: array<Node>, count: nat) returns (found: bool)
    requires count <= nodebuffer.Length
    modifies nodebuffer
    ensures found == !AllInvalid(old(nodebuffer[..count]))
    ensures nodebuffer[..count] == if found then HeadPass(old(nodebuffer[..count])) else old(nodebuffer[..count])
    ensures nodebuffer[count..] == old(nodebuffer[count..])
  {
    hide TuneDown;
    ghost var s := nodebuffer[..count];
    var i := 0;
    while i < count && nodebuffer[i].distanceQ2 == 0
      invariant 0 <= i <= count && forall k | 0 <= k < i :: IsInvalid(s[k])
    {
      i := i + 1;
    }
    if i == count { return false; }
    assert s[i] in s;
    ghost var f := i;
    assert f == FirstValid(s);
    while i != 0
      invariant 0 <= i <= f
      invariant nodebuffer[i] == TunedHead(s, f, i)
      invariant forall k | 0 <= k < count :: nodebuffer[k] == if i <= k < f then TunedHead(s, f, k) else s[k]
      invariant nodebuffer[count..] == old(nodebuffer[count..])
    {
      i := i - 1;
      nodebuffer[i] := TuneDown(nodebuffer[i], nodebuffer[i + 1], count);
    }
    assert nodebuffer[..count] == HeadPass(s);
    return true;
  }

  /** The scan downwards has no lower bound of its own: it ends because a valid node exists. */
  method TuneTail(nodebuffer: array<Node>, count: nat)
    requires count <= nodebuffer.Length && !AllInvalid(nodebuffer[..count])
    modifies nodebuffer
    ensures nodebuffer[..count] == TailPass(old(nodebuffer[..count]))
    ensures nodebuffer[count..] == old(nodebuffer[count..])
  {
    hide TuneUp;
    ghost var s := nodebuffer[..count];
    ghost var l := LastValid(s);
    var i := count - 1;
    while nodebuffer[i].distanceQ2 == 0
      invariant l <= i < count
      decreases i
    {
      i := i - 1;
    }
    assert i == l;
    while i != count - 1
      invariant l <= i < count
      invariant nodebuffer[i] == TunedTail(s, l, i)
      invariant forall k | 0 <= k < count :: nodebuffer[k] == if l < k <= i then TunedTail(s, l, k) else s[k]
      invariant nodebuffer[count..] == old(nodebuffer[count..])
    {
      i := i + 1;
      nodebuffer[i] := TuneUp(nodebuffer[i], nodebuffer[i - 1], count);
    }
    assert nodebuffer[..count] == TailPass(s);
  }

  method FillInvalid(nodebuffer: array<Node>, count: nat)
    requires 0 < count <= nodebuffer.Length
    modifies nodebuffer
    ensures nodebuffer[..count] == FillPass(old(nodebuffer[..count]))
    ensures nodebuffer[count..] == old(nodebuffer[count..])
  {
    hide Degrees, Spaced;
    ghost var s := nodebuffer[..count];
    var frontAngle := Degrees(nodebuffer[0]);
    for i := 1 to count
      invariant forall k | 0 <= k < count :: nodebuffer[k] == if k < i then FilledNode(frontAngle, s[k], k, count) else s[k]
      invariant nodebuffer[count..] == old(nodebuffer[count..])
    {
      if nodebuffer[i].distanceQ2 == 0 {
        nodebuffer[i] := Spaced(frontAngle, nodebuffer[i], i, count);
      }
    }
    assert nodebuffer[..count] == FillPass(s);
  }

  // ----- sorting -----

  predicate SortedByAngle(s: seq<Node>) {
    forall i, j | 0 <= i < j < |s| :: s[i].angleQ6Checkbit <= s[j].angleQ6Checkbit
  }

  predicate Below(s: seq<Node>, n: nat)
    requires n <= |s|
  {
    forall i, j | 0 <= i < n && i < j < |s| :: s[i].angleQ6Checkbit <= s[j].angleQ6Checkbit
  }

  lemma SwapPermutes(s: seq<Node>, i: nat, j: nat)
    requires i < j < |s|
    ensures multiset(s[i := s[j]][j := s[i]]) == multiset(s)
  {
    assert s == s[..i] + [s[i]] + s[i + 1..j] + [s[j]] + s[j + 1..];
    assert s[i := s[j]][j := s[i]] == s[..i] + [s[j]] + s[i + 1..j] + [s[i]] + s[j + 1..];
  }

  predicate SmallestTo(s: seq<Node>, i: nat, j: nat)
    requires i < j <= |s|
  {
    forall k | i < k < j :: s[i].angleQ6Checkbit <= s[k].angleQ6Checkbit
  }

  lemma ExchangeKeeps(s: seq<Node>, i: nat, j: nat)
    requires i < j < |s| && Below(s, i) && SmallestTo(s, i, j)
    requires s[i].angleQ6Checkbit > s[j].angleQ6Checkbit
    ensures var t := s[i := s[j]][j := s[i]]; Below(t, i) && SmallestTo(t, i, j + 1)
  {
  }

  lemma BelowStart(s: seq<Node>, i: nat)
    requires i < |s|
    ensures SmallestTo(s, i, i + 1)
  {
  }

  lemma SmallestExtends(s: seq<Node>, i: nat, j: nat)
    requires i < j < |s| && SmallestTo(s, i, j) && s[i].angleQ6Checkbit <= s[j].angleQ6Checkbit
    ensures SmallestTo(s, i, j + 1)
  {
  }

  lemma BelowExtends(s: seq<Node>, i: nat)
    requires i < |s| && Below(s, i) && SmallestTo(s, i, |s|)
    ensures Below(s, i + 1)
  {
  }

  method Swap(nodebuffer: array<Node>, i: nat, j: nat)
    requires i < j < nodebuffer.Length
    modifies nodebuffer
    ensures nodebuffer[..] == old(nodebuffer[..][i := nodebuffer[j]][j := nodebuffer[i]])
  {
    var temp := nodebuffer[i];
    nodebuffer[i] := nodebuffer[j];
    nodebuffer[j] := temp;
  }

  /** One pass of the exchange sort: brings the smallest remaining angle to slot `i`. */
  method SelectSmallest(nodebuffer: array<Node>, count: nat, i: nat)
    requires i < count <= nodebuffer.Length && Below(nodebuffer[..count], i)
    modifies nodebuffer
    ensures Below(nodebuffer[..count], i + 1)
    ensures multiset(nodebuffer[..count]) == multiset(old(nodebuffer[..count]))
    ensures nodebuffer[count..] == old(nodebuffer[count..])
  {
    BelowStart(nodebuffer[..count], i);
    hide Below, SmallestTo;
    for j := i + 1 to count
      invariant Below(nodebuffer[..count], i) && SmallestTo(nodebuffer[..count], i, j)
      invariant multiset(nodebuffer[..count]) == multiset(old(nodebuffer[..count]))
      invariant nodebuffer[count..] == old(nodebuffer[count..])
    {
      if nodebuffer[i].angleQ6Checkbit > nodebuffer[j].angleQ6Checkbit {
        ghost var s, all := nodebuffer[..count], nodebuffer[..];
        ExchangeKeeps(s, i, j);
        SwapPermutes(s, i, j);
        Swap(nodebuffer, i, j);
        assert nodebuffer[..count] == nodebuffer[..][..count] == s[i := s[j]][j := s[i]];
        assert nodebuffer[count..] == nodebuffer[..][count..] == all[count..];
      } else {
        SmallestExtends(nodebuffer[..count], i, j);
      }
    }
    BelowExtends(nodebuffer[..count], i);
  }

  method Reorder(nodebuffer: array<Node>, count: nat)
    requires 0 < count <= nodebuffer.Length
    modifies nodebuffer
    ensures SortedByAngle(nodebuffer[..count])
    ensures forall i, j | 0 <= i < j < count :: nodebuffer[i].AngleQ6() <= nodebuffer[j].AngleQ6()
    ensures multiset(nodebuffer[..count]) == multiset(old(nodebuffer[..count]))
    ensures nodebuffer[count..] == old(nodebuffer[count..])
  {
    for i := 0 to count - 1
      invariant Below(nodebuffer[..count], i)
      invariant multiset(nodebuffer[..count]) == multiset(old(nodebuffer[..count]))
      invariant nodebuffer[count..] == old(nodebuffer[count..])
    {
      SelectSmallest(nodebuffer, count, i);
    }
  }

  /** Fails exactly when every node is invalid, and then changes nothing; otherwise leaves the
      repaired scan, sorted. */
  method AscendScanData(nodebuffer: array<Node>, count: nat) returns (answer: Answer)
    requires count <= nodebuffer.Length
    modifies nodebuffer
    ensures answer == if AllInvalid(old(nodebuffer[..count])) then OperationFail else ResultOk
    ensures answer == OperationFail <==> forall n <- old(nodebuffer[..count]) :: n.distanceQ2 == 0
    ensures answer == OperationFail ==> nodebuffer[..] == old(nodebuffer[..])
    ensures answer == ResultOk ==>
              && SortedByAngle(nodebuffer[..count])
              && (forall i, j | 0 <= i < j < count :: nodebuffer[i].AngleQ6() <= nodebuffer[j].AngleQ6())
              && multiset(nodebuffer[..count]) == multiset(Repaired(old(nodebuffer[..count])))
              && nodebuffer[count..] == old(nodebuffer[count..])
  {
    ghost var s := nodebuffer[..count];
    var found := TuneHead(nodebuffer, count);
    if !found {
      assert nodebuffer[..] == nodebuffer[..count] + nodebuffer[count..];
      assert old(nodebuffer[..]) == old(nodebuffer[..count]) + old(nodebuffer[count..]);
      return OperationFail;
    }
    HeadPassKeeps(s, FirstValid(s));
    assert HeadPass(s)[FirstValid(s)] in HeadPass(s);
    TuneTail(nodebuffer, count);
    FillInvalid(nodebuffer, count);
    TailPassRedundant(HeadPass(s));
    Reorder(nodebuffer, count);
    return ResultOk;
  }

  // ----- what the caller can rely on -----

  /** A node without its angle. */
  datatype Key = Key(syncQuality: byte, distanceQ2: u16, checkBit: u16)

  function KeyOf(n: Node): Key { Key(n.syncQuality, n.distanceQ2, n.CheckBit()) }

  lemma KeyIff(n: Node, m: Node)
    ensures KeyOf(n) == KeyOf(m) <==>
            n.syncQuality == m.syncQuality && n.distanceQ2 == m.distanceQ2 &&
            n.angleQ6Checkbit % 2 == m.angleQ6Checkbit % 2
  {
  }

  function Keys(s: seq<Node>): (ks: seq<Key>)
    ensures |ks| == |s|
  {
    seq(|s|, i requires 0 <= i < |s| => KeyOf(s[i]))
  }

  lemma MultisetCancel(a: multiset<Node>, b: multiset<Node>, x: Node)
    requires a + multiset{x} == b + multiset{x}
    ensures a == b
  {
    assert a == (a + multiset{x}) - multiset{x};
    assert b == (b + multiset{x}) - multiset{x};
  }

  function Without(s: seq<Node>, j: nat): seq<Node>
    requires j < |s|
  {
    s[..j] + s[j + 1..]
  }

  lemma RemoveOne(s: seq<Node>, j: nat)
    requires j < |s|
    ensures multiset(s) == multiset(Without(s, j)) + multiset{s[j]}
    ensures multiset(Keys(s)) == multiset(Keys(Without(s, j))) + multiset{KeyOf(s[j])}
  {
    assert s == s[..j] + [s[j]] + s[j + 1..];
    assert Keys(s) == Keys(s[..j]) + [KeyOf(s[j])] + Keys(s[j + 1..]);
    assert Keys(Without(s, j)) == Keys(s[..j]) + Keys(s[j + 1..]);
  }

  lemma {:induction false} KeysPermute(s: seq<Node>, t: seq<Node>)
    requires multiset(s) == multiset(t)
    ensures multiset(Keys(s)) == multiset(Keys(t))
    decreases |s|
  {
    if s == [] {
      assert |multiset(t)| == 0;
    } else {
      hide Keys, Without;
      assert s[0] in multiset(t);
      var j :| 0 <= j < |t| && t[j] == s[0];
      RemoveOne(s, 0);
      RemoveOne(t, j);
      MultisetCancel(multiset(Without(s, 0)), multiset(Without(t, j)), s[0]);
      WithoutShorter(s, 0);
      KeysPermute(Without(s, 0), Without(t, j));
    }
  }

  lemma WithoutShorter(s: seq<Node>, j: nat)
    requires j < |s|
    ensures |Without(s, j)| < |s|
  {
  }

  lemma {:induction false} ValidCounts(s: seq<Node>, r: seq<Node>, n: Node)
    requires |s| == |r| && (forall i | 0 <= i < |s| :: SameButAngle(r[i], s[i])) && !IsInvalid(n)
    ensures multiset(r)[n] == multiset(s)[n]
    decreases |s|
  {
    if s == [] {
      assert r == [];
    } else {
      var k := |s| - 1;
      assert s == s[..k] + [s[k]] && r == r[..k] + [r[k]];
      ValidCounts(s[..k], r[..k], n);
    }
  }

  /** A sorted permutation of the repaired scan is a permutation of the original scan but for the
      angles, and holds every valid node as often as before, angle included. */
  lemma AscendKeepsValidNodes(before: seq<Node>, after: seq<Node>, n: Node)
    requires !AllInvalid(before) && multiset(after) == multiset(Repaired(before))
    ensures multiset(Keys(after)) == multiset(Keys(before))
    ensures !IsInvalid(n) ==> multiset(after)[n] == multiset(before)[n]
  {
    var r := Repaired(before);
    forall i | 0 <= i < |before| ensures SameButAngle(r[i], before[i]) {
      RepairKeeps(before, i);
    }
    assert Keys(r) == Keys(before);
    KeysPermute(after, r);
    if !IsInvalid(n) {
      ValidCounts(before, r, n);
    }
  }
}
