// Handing scans from the caching thread to one grabber: a lock, a count that is first read
// without the lock, and an auto-reset event. Every atomic action is one step of a state machine.
module ScanHandoff {
  import opened LidarFrames
  import opened ScanSplit

  datatype PublisherPc = PubIdle | PubLocked | PubCopied | PubCounted | PubSet

  datatype GrabberPc = GrabIdle | GrabWoken | GrabChecked | GrabLocked | GrabCopied | GrabCleared

  datatype Owner = Nobody | Publisher | Grabber

  /** What one successful grab returned: the scan published as number `rank`, counted from one, and
      the caller's buffer size. */
  datatype Delivery = Delivery(rank: nat, capacity: nat, nodes: seq<Node>)

  datatype Handoff = Handoff(
    owner: Owner, buf: seq<Node>, count: nat, signalled: bool,
    pub: PublisherPc, scan: seq<Node>,
    grab: GrabberPc, capacity: nat, nodes: seq<Node>,
    published: seq<seq<Node>>, deliveries: seq<Delivery>)

  datatype Action =
    | LockToPublish(scan: seq<Node>) | CopyIn | StoreCount | SetEvent | UnlockPublisher
    | TakeSignal(capacity: nat) | SpuriousWake(capacity: nat) | WaitTimedOut
    | CheckCount | LockToGrab | CopyOut | ClearCount | UnlockGrabber

  function Init(slots: nat): Handoff {
    Handoff(Nobody, seq(slots, _ => Node(0, 0, 0)), 0, false, PubIdle, [], GrabIdle, 0, [], [], [])
  }

  /** Scans handed over are never empty and fit the cached buffer. */
  predicate Enabled(h: Handoff, a: Action) {
    match a
    case LockToPublish(scan) => h.pub.PubIdle? && h.owner.Nobody? && 0 < |scan| <= |h.buf|
    case CopyIn => h.pub.PubLocked? && |h.scan| <= |h.buf|
    case StoreCount => h.pub.PubCopied?
    case SetEvent => h.pub.PubCounted?
    case UnlockPublisher => h.pub.PubSet?
    case TakeSignal(_) => h.grab.GrabIdle? && h.signalled
    case SpuriousWake(_) => h.grab.GrabIdle?
    case WaitTimedOut => h.grab.GrabIdle?
    case CheckCount => h.grab.GrabWoken?
    case LockToGrab => h.grab.GrabChecked? && h.owner.Nobody?
    case CopyOut => h.grab.GrabLocked? && h.count <= |h.buf|
    case ClearCount => h.grab.GrabCopied?
    case UnlockGrabber => h.grab.GrabCleared?
  }

  /** One atomic step; a disabled action changes nothing. */
  function Step(h: Handoff, a: Action): Handoff {
    if !Enabled(h, a) then h
    else match a
      case LockToPublish(scan) => h.(owner := Publisher, pub := PubLocked, scan := scan)
      case CopyIn => h.(buf := h.scan + h.buf[|h.scan|..], pub := PubCopied)
      case StoreCount => h.(count := |h.scan|, pub := PubCounted, published := h.published + [h.scan])
      case SetEvent => h.(signalled := true, pub := PubSet)
      case UnlockPublisher => h.(owner := Nobody, pub := PubIdle)
      case TakeSignal(capacity) => h.(signalled := false, grab := GrabWoken, capacity := capacity)
      case SpuriousWake(capacity) => h.(signalled := false, grab := GrabWoken, capacity := capacity)
      case WaitTimedOut => h
      case CheckCount => h.(grab := if h.count == 0 then GrabIdle else GrabChecked)
      case LockToGrab => h.(owner := Grabber, grab := GrabLocked)
      case CopyOut => h.(nodes := Take(h.buf[..h.count], h.capacity), grab := GrabCopied)
      case ClearCount =>
        h.(count := 0, grab := GrabCleared,
           deliveries := h.deliveries + [Delivery(|h.published|, h.capacity, h.nodes)])
      case UnlockGrabber => h.(owner := Nobody, grab := GrabIdle)
  }

  /** Any interleaving of the two threads is a sequence of actions. */
  function Run(h: Handoff, actions: seq<Action>): Handoff
    decreases |actions|
  {
    if actions == [] then h else Run(Step(h, actions[0]), actions[1..])
  }

  // ----- the invariant -----

  predicate LockHeld(h: Handoff) {
    && (h.owner.Publisher? <==> !h.pub.PubIdle?)
    && (h.owner.Grabber? <==> h.grab.GrabLocked? || h.grab.GrabCopied? || h.grab.GrabCleared?)
    && (!h.pub.PubIdle? ==> 0 < |h.scan| <= |h.buf|)
  }

  /** Outside the publisher's critical section a nonzero count describes the latest scan. */
  predicate CacheCurrent(h: Handoff) {
    && h.count <= |h.buf|
    && (h.count > 0 ==> h.published != [])
    && (h.count > 0 && !h.pub.PubCopied? ==> h.buf[..h.count] == h.published[|h.published| - 1])
    && (h.pub.PubCopied? || h.pub.PubCounted? || h.pub.PubSet? ==> |h.scan| <= |h.buf| && h.buf[..|h.scan|] == h.scan)
    && (h.pub.PubCounted? || h.pub.PubSet? ==> h.count == |h.scan|)
    && (h.grab.GrabChecked? || h.grab.GrabLocked? || h.grab.GrabCopied? ==> h.count > 0)
    && (h.grab.GrabCopied? ==> h.nodes == Take(h.published[|h.published| - 1], h.capacity))
  }

  /** Each delivery is a published scan, cut to the caller's buffer; they come in the order of
      publication, none of them twice, and a waiting scan is newer than all of them. */
  predicate Delivered(h: Handoff) {
    && (forall d <- h.deliveries ::
          0 < d.rank <= |h.published| && d.nodes == Take(h.published[d.rank - 1], d.capacity))
    && (forall i, j | 0 <= i < j < |h.deliveries| :: h.deliveries[i].rank < h.deliveries[j].rank)
    && (h.count > 0 ==> forall d <- h.deliveries :: d.rank < |h.published|)
  }

  /** An unconsumed scan is announced: the event is signalled, or is about to be, or the grabber is
      already past its wait. */
  predicate Announced(h: Handoff) {
    h.count > 0 ==>
      h.signalled || h.pub.PubCounted? || h.grab.GrabWoken? || h.grab.GrabChecked? || h.grab.GrabLocked? || h.grab.GrabCopied?
  }

  /** The waiting scan is consumed by a delivery only: with the count at zero, the latest scan is the
      last one delivered. */
  predicate NotLost(h: Handoff) {
    h.count == 0 && h.published != [] ==>
      h.deliveries != [] && h.deliveries[|h.deliveries| - 1].rank == |h.published|
  }

  predicate Safe(h: Handoff) { LockHeld(h) && CacheCurrent(h) && Delivered(h) && Announced(h) && NotLost(h) }

  lemma StepKeepsLock(h: Handoff, a: Action)
    requires Safe(h)
    ensures LockHeld(Step(h, a))
  {
    hide Delivered, Announced, NotLost;
  }

  lemma StepKeepsCache(h: Handoff, a: Action)
    requires Safe(h)
    ensures CacheCurrent(Step(h, a))
  {
    hide Delivered, Announced, NotLost;
  }

  lemma StepKeepsDeliveries(h: Handoff, a: Action)
    requires Safe(h)
    ensures Delivered(Step(h, a))
  {
    hide Announced, NotLost;
  }

  lemma StepKeepsLatest(h: Handoff, a: Action)
    requires Safe(h)
    ensures NotLost(Step(h, a))
  {
    hide Announced, Delivered, Take;
  }

  lemma StepKeepsAnnounced(h: Handoff, a: Action)
    requires Safe(h)
    ensures Announced(Step(h, a))
  {
    hide Delivered, NotLost;
  }

  lemma StepSafe(h: Handoff, a: Action)
    requires Safe(h)
    ensures Safe(Step(h, a))
  {
    hide Step, LockHeld, CacheCurrent, Delivered, Announced, NotLost;
    StepKeepsLock(h, a);
    StepKeepsCache(h, a);
    StepKeepsDeliveries(h, a);
    StepKeepsAnnounced(h, a);
    StepKeepsLatest(h, a);
  }

  /** Every interleaving, of any length, is safe. */
  lemma {:induction false} RunSafe(h: Handoff, actions: seq<Action>)
    requires Safe(h)
    ensures Safe(Run(h, actions))
    decreases |actions|
  {
    if actions != [] {
      StepSafe(h, actions[0]);
      RunSafe(Step(h, actions[0]), actions[1..]);
    }
  }

  lemma HandoffSafe(slots: nat, actions: seq<Action>)
    ensures Safe(Run(Init(slots), actions))
  {
    RunSafe(Init(slots), actions);
  }

  /** One publication, undisturbed. */
  function PublishNow(h: Handoff, scan: seq<Node>): Handoff {
    Step(Step(Step(Step(Step(h, LockToPublish(scan)), CopyIn), StoreCount), SetEvent), UnlockPublisher)
  }

  /** The steps of the publisher add up to the driver's publication: buffer, count and event are
      set, and the scan is the latest, whether or not an older one was still waiting. */
  lemma PublishesScan(h: Handoff, scan: seq<Node>)
    requires Safe(h) && h.pub.PubIdle? && h.owner.Nobody? && 0 < |scan| <= |h.buf|
    ensures PublishNow(h, scan) ==
            h.(buf := scan + h.buf[|scan|..], count := |scan|, signalled := true, scan := scan,
               published := h.published + [scan])
  {
  }

  /** One grab, undisturbed. */
  function GrabNow(h: Handoff, capacity: nat): Handoff {
    Step(Step(Step(Step(Step(Step(h, TakeSignal(capacity)), CheckCount), LockToGrab), CopyOut), ClearCount), UnlockGrabber)
  }

  /** If a scan is waiting while both threads are at rest, a grab that starts now does not block
      and returns the latest scan, cut to the caller's buffer. */
  lemma WaitingScanIsGrabbed(slots: nat, actions: seq<Action>, capacity: nat)
    requires var h := Run(Init(slots), actions); h.pub.PubIdle? && h.grab.GrabIdle? && h.count > 0
    ensures var h := Run(Init(slots), actions);
            var h' := GrabNow(h, capacity);
            && h.published != []
            && h'.deliveries == h.deliveries + [Delivery(|h.published|, capacity, Take(h.published[|h.published| - 1], capacity))]
            && h'.count == 0 && h'.owner.Nobody? && h'.grab.GrabIdle? && h'.published == h.published
  {
    HandoffSafe(slots, actions);
    GrabsWaitingScan(Run(Init(slots), actions), capacity);
  }

  /** The steps of the grabber add up to the driver's grab. */
  lemma GrabsWaitingScan(h: Handoff, capacity: nat)
    requires Safe(h) && h.pub.PubIdle? && h.grab.GrabIdle? && h.count > 0
    ensures GrabNow(h, capacity) ==
            h.(signalled := false, capacity := capacity, count := 0,
               nodes := Take(h.published[|h.published| - 1], capacity),
               deliveries := h.deliveries + [Delivery(|h.published|, capacity, Take(h.published[|h.published| - 1], capacity))])
  {
  }

  // ----- waking without a scan -----

  lemma {:induction false} RunConcat(h: Handoff, before: seq<Action>, after: seq<Action>)
    ensures Run(h, before + after) == Run(Run(h, before), after)
    decreases |before|
  {
    if before == [] {
      assert before + after == after;
    } else {
      assert (before + after)[1..] == before[1..] + after;
      RunConcat(Step(h, before[0]), before[1..], after);
    }
  }

  lemma {:induction false} RunKeepsSlots(h: Handoff, actions: seq<Action>)
    ensures |Run(h, actions).buf| == |h.buf|
    decreases |actions|
  {
    if actions != [] {
      RunKeepsSlots(Step(h, actions[0]), actions[1..]);
    }
  }

  predicate AtRest(h: Handoff) { h.pub.PubIdle? && h.grab.GrabIdle? }

  /** Between two wake-ups: the event is set although the scan it announced is gone. */
  predicate StaleSignal(h: Handoff) { h.signalled && h.count == 0 }

  function Publication(scan: seq<Node>): seq<Action> {
    [LockToPublish(scan), CopyIn, StoreCount, SetEvent, UnlockPublisher]
  }

  const GRAB_AFTER_WAKE: seq<Action> := [CheckCount, LockToGrab, CopyOut, ClearCount, UnlockGrabber]

  /** The grabber wakes for one scan, and takes the next one, whose signal is left over. */
  function Overtaken(a: seq<Node>, b: seq<Node>, capacity: nat): seq<Action> {
    Publication(a) + ([TakeSignal(capacity)] + (Publication(b) + GRAB_AFTER_WAKE))
  }

  lemma RunOne(h: Handoff, a: Action)
    ensures Run(h, [a]) == Step(h, a)
  {
  }

  lemma RunFive(h: Handoff, a: Action, b: Action, c: Action, d: Action, e: Action)
    ensures Run(h, [a, b, c, d, e]) == Step(Step(Step(Step(Step(h, a), b), c), d), e)
  {
    hide Step;
    assert [a, b, c, d, e] == [a] + ([b] + ([c] + ([d] + [e])));
    RunConcat(h, [a], [b] + ([c] + ([d] + [e])));
    RunOne(h, a);
    var h1 := Step(h, a);
    RunConcat(h1, [b], [c] + ([d] + [e]));
    RunOne(h1, b);
    var h2 := Step(h1, b);
    RunConcat(h2, [c], [d] + [e]);
    RunOne(h2, c);
    var h3 := Step(h2, c);
    RunConcat(h3, [d], [e]);
    RunOne(h3, d);
    RunOne(Step(h3, d), e);
  }

  lemma RunPublication(h: Handoff, scan: seq<Node>)
    requires Safe(h) && h.pub.PubIdle? && h.owner.Nobody? && 0 < |scan| <= |h.buf|
    ensures Safe(Run(h, Publication(scan)))
    ensures Run(h, Publication(scan)) ==
            h.(buf := scan + h.buf[|scan|..], count := |scan|, signalled := true, scan := scan,
               published := h.published + [scan])
  {
    PublishesScan(h, scan);
    RunSafe(h, Publication(scan));
    RunFive(h, LockToPublish(scan), CopyIn, StoreCount, SetEvent, UnlockPublisher);
    hide Safe, Step;
  }

  lemma RunGrabAfterWake(h: Handoff)
    requires h.grab.GrabWoken? && h.owner.Nobody? && 0 < h.count <= |h.buf|
    ensures var nodes := Take(h.buf[..h.count], h.capacity);
            Run(h, GRAB_AFTER_WAKE) ==
            h.(count := 0, grab := GrabIdle, nodes := nodes,
               deliveries := h.deliveries + [Delivery(|h.published|, h.capacity, nodes)])
  {
    hide Run;
    RunFive(h, CheckCount, LockToGrab, CopyOut, ClearCount, UnlockGrabber);
  }

  /** From rest at any point of any run, two publications overtaking one wake-up leave both threads
      at rest with a stale signal. */
  lemma StaleSignalReachable(slots: nat, actions: seq<Action>, a: seq<Node>, b: seq<Node>, capacity: nat)
    requires AtRest(Run(Init(slots), actions))
    requires 0 < |a| <= slots && 0 < |b| <= slots
    ensures var h := Run(Init(slots), actions + Overtaken(a, b, capacity));
            AtRest(h) && StaleSignal(h) && h.published == Run(Init(slots), actions).published + [a] + [b]
  {
    var h := Run(Init(slots), actions);
    HandoffSafe(slots, actions);
    RunKeepsSlots(Init(slots), actions);
    RunConcat(Init(slots), actions, Overtaken(a, b, capacity));
    OvertakenRun(h, a, b, capacity);
  }

  lemma OvertakenRun(h: Handoff, a: seq<Node>, b: seq<Node>, capacity: nat)
    requires Safe(h) && AtRest(h) && 0 < |a| <= |h.buf| && 0 < |b| <= |h.buf|
    ensures var h' := Run(h, Overtaken(a, b, capacity));
            AtRest(h') && StaleSignal(h') && h'.published == h.published + [a] + [b]
  {
    hide Run, Publication;
    RunConcat(h, Publication(a), [TakeSignal(capacity)] + (Publication(b) + GRAB_AFTER_WAKE));
    RunPublication(h, a);
    hide Safe;
    var h1 := Run(h, Publication(a));
    RunConcat(h1, [TakeSignal(capacity)], Publication(b) + GRAB_AFTER_WAKE);
    RunOne(h1, TakeSignal(capacity));
    StepSafe(h1, TakeSignal(capacity));
    var h2 := Step(h1, TakeSignal(capacity));
    RunConcat(h2, Publication(b), GRAB_AFTER_WAKE);
    RunPublication(h2, b);
    RunGrabAfterWake(Run(h2, Publication(b)));
  }

  /** With both threads at rest, a wake-up finds no scan exactly when nothing was published or the
      latest scan has been delivered already. */
  lemma EmptyWakeIff(slots: nat, actions: seq<Action>, capacity: nat)
    requires AtRest(Run(Init(slots), actions))
    ensures var h := Run(Init(slots), actions);
            Step(Step(h, SpuriousWake(capacity)), CheckCount).grab.GrabIdle? <==>
              h.published == [] || exists d <- h.deliveries :: d.rank == |h.published|
    ensures !Step(Run(Init(slots), actions), SpuriousWake(capacity)).signalled
  {
    HandoffSafe(slots, actions);
    hide LockHeld, Announced, Run;
    var h := Run(Init(slots), actions);
    if h.count == 0 && h.published != [] {
      assert h.deliveries[|h.deliveries| - 1] in h.deliveries;
    }
  }

  // ----- across sessions -----

  /** A run adds to what was published and delivered before, and delivers nothing older than the
      latest scan published then. */
  predicate Continues(h0: Handoff, h: Handoff) {
    && h0.published <= h.published && h0.deliveries <= h.deliveries
    && forall i | |h0.deliveries| <= i < |h.deliveries| :: h.deliveries[i].rank >= |h0.published|
  }

  lemma StepContinues(h: Handoff, a: Action)
    ensures Continues(h, Step(h, a))
  {
  }

  lemma ContinuesTransitive(h0: Handoff, h1: Handoff, h2: Handoff)
    requires Continues(h0, h1) && Continues(h1, h2)
    ensures Continues(h0, h2)
  {
    forall i | |h0.deliveries| <= i < |h2.deliveries| ensures h2.deliveries[i].rank >= |h0.published| {
      if i < |h1.deliveries| {
        assert h2.deliveries[i] == h1.deliveries[i];
      }
    }
  }

  lemma {:induction false} RunContinues(h: Handoff, actions: seq<Action>)
    ensures Continues(h, Run(h, actions))
    decreases |actions|
  {
    hide Step, Continues;
    if actions == [] {
      ContinuesItself(h);
    } else {
      StepContinues(h, actions[0]);
      RunContinues(Step(h, actions[0]), actions[1..]);
      ContinuesTransitive(h, Step(h, actions[0]), Run(h, actions));
    }
  }

  lemma ContinuesItself(h: Handoff)
    ensures Continues(h, h)
  {
  }

  /** Whatever was published and delivered before: a new delivery is of a newer scan, unless it is the
      first one and a scan was still waiting. */
  lemma EarlierScanOnce(h0: Handoff, actions: seq<Action>, i: nat)
    requires Safe(h0) && |h0.deliveries| <= i < |Run(h0, actions).deliveries|
    ensures var d := Run(h0, actions).deliveries[i];
            d.rank > |h0.published| || (d.rank == |h0.published| && i == |h0.deliveries| && h0.count > 0)
  {
    RunContinues(h0, actions);
    RunSafe(h0, actions);
    hide Run, LockHeld, CacheCurrent, Announced;
    var h, n := Run(h0, actions), |h0.deliveries|;
    if h0.count == 0 && h0.published != [] {
      assert h.deliveries[n - 1] == h0.deliveries[n - 1];
    }
    assert h.deliveries[i] in h.deliveries;
    if i > n {
      assert h.deliveries[n].rank < h.deliveries[i].rank;
    }
  }

  /** The grabber's next delivery is of a scan published before. */
  predicate GrabsEarlier(h0: Handoff, actions: seq<Action>) {
    var h := Run(h0, actions);
    |h.deliveries| > |h0.deliveries| && h.deliveries[|h0.deliveries|].rank == |h0.published|
  }

  /** From rest that can happen exactly when a scan is waiting. */
  lemma EarlierScanIff(h0: Handoff)
    requires Safe(h0) && AtRest(h0)
    ensures (exists actions :: GrabsEarlier(h0, actions)) <==> h0.count > 0
  {
    if actions :| GrabsEarlier(h0, actions) {
      hide Run, Safe;
      EarlierScanOnce(h0, actions, |h0.deliveries|);
    }
    if h0.count > 0 {
      var grab := [TakeSignal(0)] + GRAB_AFTER_WAKE;
      RunConcat(h0, [TakeSignal(0)], GRAB_AFTER_WAKE);
      RunOne(h0, TakeSignal(0));
      hide Run;
      RunGrabAfterWake(Step(h0, TakeSignal(0)));
      assert GrabsEarlier(h0, grab);
    }
  }

  /** It does after any publication that nobody took. */
  lemma PublishedScanWaits(slots: nat, scan: seq<Node>)
    requires 0 < |scan| <= slots
    ensures var h := Run(Init(slots), Publication(scan));
            Safe(h) && AtRest(h) && h.count > 0 && h.published == [scan] && h.deliveries == []
  {
    assert Run(Init(slots), []) == Init(slots);
    HandoffSafe(slots, []);
    RunPublication(Init(slots), scan);
  }

  /** If the publisher hands over the scans of a node stream, every non-empty delivery starts with
      a sync node and holds no other. */
  lemma DeliveredScansStartWithSync(h: Handoff, s: seq<Node>, maxNodes: ScanCapacity, d: Delivery)
    requires Safe(h) && d in h.deliveries && d.nodes != []
    requires h.published == Scans(s, maxNodes)
    ensures OneSyncFirst(d.nodes)
  {
    ScanShape(s, maxNodes, d.rank - 1);
  }
}
