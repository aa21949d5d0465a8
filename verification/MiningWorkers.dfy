/** The mining process as a step system: a template poller, one worker for each listed device with its own
    stream, and a poller that drains the hits of all workers. Any interleaving of the steps is a run. */
module MiningWorkers {
  import opened MinerBuffers
  import opened OrderedSets
  import opened Wrappers

  /** a block template: its previous block hash, and the header bytes of the job that it builds */
  datatype Template = Template(prev: nat, header: nat)

  datatype ReadyJob = ReadyJob(template: Template, b: Matrix)

  /** a hit that the scan found: the iteration, its slot, and the header bytes copied from it */
  datatype Hit = Hit(iter: nat, slot: nat, report: Report)

  /** what is sent to the poller; the iteration is not part of the message in the source */
  datatype HitWork = HitWork(worker: nat, job: ReadyJob, a: Matrix, report: Report, iter: nat)

  /** where the loop of a worker stands */
  datatype Phase =
    | Top // before the look at the template cell
    | Loading(t: Template) // after `ensure_for_job`, waiting for the stream
    | Launching // in the batch, then waiting for the stream
    | Scanning(next: nat) // reading the headers of the batch
    | Copying // waiting for the snapshots
    | Sending
    | Stopped

  /** an executed fill of A: the seed that it read and the iteration that it was launched for */
  datatype Mined = Mined(seed: Seed, iter: nat)

  /** The histories: the executed fills, iterations whose search reported a hit, and iterations
      whose hit was sent. */
  datatype Worker = Worker(
    device: nat,
    bufs: Bufs,
    phase: Phase,
    currentPrev: Option<nat>,
    currentJob: Option<ReadyJob>,
    graphs: bool,
    iterIdx: nat,
    batchStart: nat,
    hits: seq<Hit>,
    fills: seq<Mined>,
    hitIters: seq<nat>,
    sentIters: seq<nat>)

  datatype State = State(
    salt: nat,
    maxIters: nat,
    latest: Option<Template>,
    lastPrev: Option<nat>,
    workers: seq<Worker>,
    channel: seq<HitWork>,
    sent: seq<HitWork>,
    received: seq<HitWork>)

  datatype Action =
    | Poll(t: Template)
    | Host(w: nat)
    | Device(w: nat, hit: bool)
    | Receive
    | Fail(w: nat)

  function NewWorker(device: nat, ring: nat): Worker
    requires ring > 0
  {
    Worker(device, NewBufs(ring), Top, None, None, false, 0, 0, [], [], [], [])
  }

  /** one worker for each entry of the device list, all with the same configuration */
  function Init(salt: nat, maxIters: nat, devices: seq<nat>, ring: nat): State
    requires ring > 0
  {
    State(salt, maxIters, None, None, seq(|devices|, w requires 0 <= w < |devices| => NewWorker(devices[w], ring)), [],
      [], [])
  }

  function SeedOf(header: nat, salt: nat, device: nat): Seed { Seed(header, salt, device) }

  // ----- Steps -----

  /** a step of the loop is possible: a wait needs an empty stream, and a stopped worker has none */
  predicate HostEnabled(x: Worker) {
    && Shaped(x.bufs)
    && match x.phase
       case Top => true
       case Loading(_) => x.bufs.queue == []
       case Launching => x.currentJob.Some? && x.graphs
         && (x.iterIdx < x.batchStart + x.bufs.ring || x.bufs.queue == [])
       case Scanning(_) => true
       case Copying => x.bufs.queue == []
       case Sending => x.hits != [] ==> x.hits[0].slot < x.bufs.ring && x.currentJob.Some?
       case Stopped => false
  }

  predicate Enabled(s: State, a: Action) {
    match a
    case Poll(_) => true
    case Host(w) => w < |s.workers| && HostEnabled(s.workers[w])
    case Device(w, _) => w < |s.workers| && Shaped(s.workers[w].bufs) && s.workers[w].bufs.queue != []
      && s.workers[w].phase != Stopped
    case Receive => s.channel != []
    case Fail(w) => w < |s.workers| && s.workers[w].phase != Stopped
  }

  /** the look at the template cell: a new tip is loaded, otherwise the batch starts if there is a job */
  function TopStep(x: Worker, latest: Option<Template>, salt: nat): Worker {
    if latest.Some? && x.currentPrev != Some(latest.value.prev) then
      var t := latest.value;
      x.(currentPrev := Some(t.prev), bufs := JobLoaded(x.bufs, t.header, SeedOf(t.header, salt, x.device)),
        phase := Loading(t))
    else if x.currentJob.None? then x
    else x.(batchStart := x.iterIdx, phase := Launching)
  }

  function LoadingStep(x: Worker): Worker
    requires x.phase.Loading?
  {
    x.(graphs := true, currentJob := Some(ReadyJob(x.phase.t, x.bufs.bPinned)), batchStart := x.iterIdx,
      phase := Launching)
  }

  function LaunchingStep(x: Worker): Worker
    requires Shaped(x.bufs)
  {
    if x.iterIdx < x.batchStart + x.bufs.ring then x.(bufs := Launched(x.bufs, x.iterIdx), iterIdx := x.iterIdx + 1)
    else x.(hits := [], phase := Scanning(x.batchStart))
  }

  function AfterBatch(x: Worker, maxIters: nat): Worker {
    x.(phase := if maxIters > 0 && x.iterIdx >= maxIters then Stopped else Top)
  }

  function ScanningStep(x: Worker, maxIters: nat): Worker
    requires Shaped(x.bufs) && x.phase.Scanning?
  {
    var i := x.phase.next;
    if i >= x.iterIdx then
      if x.hits == [] then AfterBatch(x, maxIters) else x.(phase := Copying)
    else
      var slot := Slot(x.bufs.ring, i);
      match x.bufs.headers[slot]
      case None => x.(phase := Scanning(i + 1))
      case Some(r) =>
        x.(bufs := SnapshotTaken(x.bufs, slot), hits := x.hits + [Hit(i, slot, r)], phase := Scanning(i + 1))
  }

  function WorkOf(x: Worker, w: nat): HitWork
    requires Shaped(x.bufs) && x.hits != [] && x.hits[0].slot < x.bufs.ring && x.currentJob.Some?
  {
    HitWork(w, x.currentJob.value, x.bufs.snapshots[x.hits[0].slot], x.hits[0].report, x.hits[0].iter)
  }

  function SendingStep(x: Worker, maxIters: nat): Worker {
    if x.hits == [] then AfterBatch(x, maxIters)
    else x.(sentIters := x.sentIters + [x.hits[0].iter], hits := x.hits[1..])
  }

  function HostStep(x: Worker, latest: Option<Template>, salt: nat, maxIters: nat): Worker
    requires HostEnabled(x)
  {
    match x.phase
    case Top => TopStep(x, latest, salt)
    case Loading(_) => LoadingStep(x)
    case Launching => LaunchingStep(x)
    case Scanning(_) => ScanningStep(x, maxIters)
    case Copying => x.(phase := Sending)
    case Sending => SendingStep(x, maxIters)
  }

  /** one operation of the stream, with its trace in the histories */
  function DeviceStep(x: Worker, hit: bool): Worker
    requires Shaped(x.bufs) && x.bufs.queue != []
  {
    var y := x.(bufs := Executed(x.bufs, hit));
    match x.bufs.queue[0]
    case Fill(_, i) => if x.bufs.seedTensor.Some? then y.(fills := x.fills + [Mined(x.bufs.seedTensor.value, i)]) else y
    case Search(_, i) => if hit then y.(hitIters := x.hitIters + [i]) else y
    case _ => y
  }

  function Apply(s: State, a: Action): State
    requires Enabled(s, a)
  {
    match a
    case Poll(t) => if s.lastPrev == Some(t.prev) then s else s.(lastPrev := Some(t.prev), latest := Some(t))
    case Host(w) =>
      var x := s.workers[w];
      var y := s.(workers := s.workers[w := HostStep(x, s.latest, s.salt, s.maxIters)]);
      if x.phase == Sending && x.hits != [] then y.(channel := s.channel + [WorkOf(x, w)],
        sent := s.sent + [WorkOf(x, w)]) else y
    case Device(w, hit) => s.(workers := s.workers[w := DeviceStep(s.workers[w], hit)])
    case Receive => s.(channel := s.channel[1..], received := s.received + [s.channel[0]])
    case Fail(w) => s.(workers := s.workers[w := s.workers[w].(phase := Stopped)])
  }

  /** a run from s, step by step */
  predicate IsRun(s: State, run: seq<Action>)
    decreases |run|
  {
    run == [] || (Enabled(s, run[0]) && IsRun(Apply(s, run[0]), run[1..]))
  }

  function Final(s: State, run: seq<Action>): State
    requires IsRun(s, run)
    decreases |run|
  {
    if run == [] then s else Final(Apply(s, run[0]), run[1..])
  }

  // ----- Which template is followed -----

  function PrevOf(t: Option<Template>): Option<nat> { if t.Some? then Some(t.value.prev) else None }

  /** a template replaces the one that is held when its tip differs */
  function Adopt(held: Option<Template>, t: Template): Option<Template> {
    if PrevOf(held) == Some(t.prev) then held else Some(t)
  }

  function Adopted(held: Option<Template>, seen: seq<Template>): Option<Template>
    decreases seen
  {
    if seen == [] then held else Adopted(Adopt(held, seen[0]), seen[1..])
  }

  lemma {:induction false} AdoptedConcat(held: Option<Template>, a: seq<Template>, b: seq<Template>)
    ensures Adopted(held, a + b) == Adopted(Adopted(held, a), b)
    decreases a
  {
    if a == [] {
      assert a + b == b;
    } else {
      assert (a + b)[1..] == a[1..] + b;
      AdoptedConcat(Adopt(held, a[0]), a[1..], b);
    }
  }

  /** the tip has not changed since template i, and changed with it */
  ghost predicate ChangedAt(held: Option<Template>, seen: seq<Template>, i: nat) {
    && i < |seen| && (forall j :: i <= j < |seen| ==> seen[j].prev == seen[i].prev)
    && (if i == 0 then PrevOf(held) else Some(seen[i - 1].prev)) != Some(seen[i].prev)
  }

  /** what is followed in the end: the first template since the tip last changed, or what was held if it never did */
  lemma {:induction false} AdoptedIs(held: Option<Template>, seen: seq<Template>)
    ensures if forall j :: 0 <= j < |seen| ==> PrevOf(held) == Some(seen[j].prev) then Adopted(held, seen) == held
            else exists i: nat :: ChangedAt(held, seen, i) && Adopted(held, seen) == Some(seen[i])
    ensures seen != [] ==> PrevOf(Adopted(held, seen)) == Some(seen[|seen| - 1].prev)
    decreases |seen|
  {
    if seen != [] {
      var init, last := seen[..|seen| - 1], seen[|seen| - 1];
      AdoptedIs(held, init);
      assert seen == init + [last];
      AdoptedConcat(held, init, [last]);
      assert [last][1..] == [];
      assert Adopted(Adopted(held, init), [last]) == Adopt(Adopted(held, init), last);
      AdoptedLast(held, init, last, seen);
    }
  }

  lemma AdoptedLast(held: Option<Template>, init: seq<Template>, last: Template, seen: seq<Template>)
    requires seen == init + [last] && Adopted(held, seen) == Adopt(Adopted(held, init), last)
    requires if forall j :: 0 <= j < |init| ==> PrevOf(held) == Some(init[j].prev) then Adopted(held, init) == held
             else exists i: nat :: ChangedAt(held, init, i) && Adopted(held, init) == Some(init[i])
    requires init != [] ==> PrevOf(Adopted(held, init)) == Some(init[|init| - 1].prev)
    ensures if forall j :: 0 <= j < |seen| ==> PrevOf(held) == Some(seen[j].prev) then Adopted(held, seen) == held
            else exists i: nat :: ChangedAt(held, seen, i) && Adopted(held, seen) == Some(seen[i])
  {
    var before := Adopted(held, init);
    hide Adopted;
    assert forall j :: 0 <= j < |init| ==> seen[j] == init[j];
    if PrevOf(before) != Some(last.prev) {
      assert ChangedAt(held, seen, |init|);
    } else if !(forall j :: 0 <= j < |init| ==> PrevOf(held) == Some(init[j].prev)) {
      var i: nat :| ChangedAt(held, init, i) && before == Some(init[i]);
      assert ChangedAt(held, seen, i);
    }
  }

  /** the template of the job, or of the one that is being loaded */
  function CurrentTemplate(x: Worker): Option<Template> {
    match x.phase
    case Loading(t) => Some(t)
    case _ => if x.currentJob.Some? then Some(x.currentJob.value.template) else None
  }

  ghost predicate TipHeld(x: Worker) { x.phase != Stopped ==> x.currentPrev == PrevOf(CurrentTemplate(x)) }

  /** A look at the cell adopts what it holds: a template of a new tip goes to loading, and is the job once the
      worker launches. Every other step keeps the template. */
  lemma HostAdopts(x: Worker, latest: Option<Template>, salt: nat, maxIters: nat)
    requires HostEnabled(x) && TipHeld(x)
    ensures var y := HostStep(x, latest, salt, maxIters);
            && TipHeld(y)
            && (y.phase != Stopped ==>
                  CurrentTemplate(y) ==
                  if x.phase == Top && latest.Some? then Adopt(CurrentTemplate(x), latest.value)
                  else CurrentTemplate(x))
            && (x.phase == Top && latest.Some? && x.currentPrev != Some(latest.value.prev) ==>
                  y.phase == Loading(latest.value))
            && (x.phase.Loading? ==>
               y.phase == Launching && y.currentJob.Some? && y.currentJob.value.template == x.phase.t)
  {
  }

  // ----- When a worker stops -----

  /** the limit is looked at between two batches, and only a failure or the limit stops a worker */
  ghost predicate LimitKept(x: Worker, maxIters: nat, failed: bool) {
    var start := if x.phase == Top || x.phase.Loading? then x.iterIdx else x.batchStart;
    if x.phase == Stopped then failed || 0 < maxIters <= x.iterIdx else maxIters == 0 || start == 0 || start < maxIters
  }

  lemma HostKeepsLimit(x: Worker, latest: Option<Template>, salt: nat, maxIters: nat, failed: bool)
    requires HostEnabled(x) && LimitKept(x, maxIters, failed)
    ensures LimitKept(HostStep(x, latest, salt, maxIters), maxIters, failed)
  {
  }

  // ----- The invariant of a worker -----

  /** job tensors, seed and both copies of B are those of one header */
  ghost predicate Loaded(x: Worker, salt: nat, header: nat) {
    var seed := SeedOf(header, salt, x.device);
    && x.bufs.cachedHeader == Some(header) && x.bufs.jobTensors == Some(header) && x.bufs.seedTensor == Some(seed)
    && x.bufs.b == RandomB(seed, 0) && x.bufs.bPinned == RandomB(seed, 0)
  }

  /** between batches: the stream is empty, and what is cached is loaded */
  ghost predicate Idle(x: Worker, salt: nat) {
    && x.bufs.queue == [] && x.hits == [] && |x.fills| == x.iterIdx && x.hitIters == x.sentIters
    && (x.bufs.cachedHeader.Some? ==> Loaded(x, salt, x.bufs.cachedHeader.value))
    && (x.currentJob.Some? ==> JobHeld(x, salt))
  }

  /** the job of the worker is the one on its device */
  ghost predicate JobHeld(x: Worker, salt: nat) {
    && x.currentJob.Some? && x.graphs && Loaded(x, salt, x.currentJob.value.template.header)
    && x.currentJob.value.b == x.bufs.b
  }

  ghost predicate InLoading(x: Worker, salt: nat, t: Template) {
    var seed := SeedOf(t.header, salt, x.device);
    && x.hits == [] && |x.fills| == x.iterIdx && x.hitIters == x.sentIters
    && x.bufs.cachedHeader == Some(t.header) && x.bufs.jobTensors == Some(t.header) && x.bufs.seedTensor == Some(seed)
    && (x.bufs.queue == [FillB(0), CopyB]
        || (x.bufs.queue == [CopyB] && x.bufs.b == RandomB(seed, 0))
        || (x.bufs.queue == [] && x.bufs.b == RandomB(seed, 0) && x.bufs.bPinned == RandomB(seed, 0)))
  }

  /** the stream operations of the iterations from..to */
  function Mines(ring: nat, from: nat, until: nat): seq<Op>
    requires ring > 0
    decreases if from < until then until - from else 0
  {
    if from >= until then []
    else [Fill(Slot(ring, from), from), Search(Slot(ring, from), from)] + Mines(ring, from + 1, until)
  }

  /** the iterations of from..until whose header reports a hit */
  function Reporting(headers: seq<Option<Report>>, from: nat, until: nat): seq<nat>
    requires |headers| > 0
  {
    if from >= until then []
    else Reporting(headers, from, until - 1) + if headers[Slot(|headers|, until - 1)].Some? then [until - 1] else []
  }

  /** the matrix of an iteration is in its slot, and a report there is about it */
  ghost predicate SlotDone(x: Worker, salt: nat, i: nat)
    requires Shaped(x.bufs) && x.currentJob.Some?
  {
    var header, slot := x.currentJob.value.template.header, Slot(x.bufs.ring, i);
    && x.bufs.a[slot] == RandomA(SeedOf(header, salt, x.device), i)
    && (x.bufs.headers[slot].Some? ==> x.bufs.headers[slot].value == Report(Some(header), x.bufs.a[slot], x.bufs.b))
  }

  /** a fill is done but not its search */
  predicate Halfway(x: Worker) { x.bufs.queue != [] && x.bufs.queue[0].Search? }

  /** how many searches are done */
  function Searched(x: Worker): int { |x.fills| - if Halfway(x) then 1 else 0 }

  ghost predicate InBatch(x: Worker, salt: nat)
    requires Shaped(x.bufs)
  {
    var d, ring := Searched(x), x.bufs.ring;
    && JobHeld(x, salt) && x.hits == []
    && x.batchStart <= d && |x.fills| <= x.iterIdx <= x.batchStart + ring
    && x.bufs.queue == (if Halfway(x) then [Search(Slot(ring, d), d)] else []) + Mines(ring, |x.fills|, x.iterIdx)
    && (forall i: nat :: x.batchStart <= i < d ==> SlotDone(x, salt, i))
    && (Halfway(x) ==>
       x.bufs.a[Slot(ring, d)] == RandomA(SeedOf(x.currentJob.value.template.header, salt, x.device), d))
    && (forall i: nat :: d <= i < x.iterIdx ==> x.bufs.headers[Slot(ring, i)] == None)
    && x.hitIters == x.sentIters + Reporting(x.bufs.headers, x.batchStart, d)
  }

  /** a hit of the batch, before it is sent */
  ghost predicate HitRight(x: Worker, salt: nat, h: Hit)
    requires Shaped(x.bufs) && x.currentJob.Some?
  {
    var header := x.currentJob.value.template.header;
    && h.slot == Slot(x.bufs.ring, h.iter) && x.bufs.a[h.slot] == RandomA(SeedOf(header, salt, x.device), h.iter)
    && h.report == Report(Some(header), x.bufs.a[h.slot], x.bufs.b)
  }

  function Iters(hits: seq<Hit>): (r: seq<nat>)
    ensures |r| == |hits| && forall k :: 0 <= k < |r| ==> r[k] == hits[k].iter
  {
    seq(|hits|, k requires 0 <= k < |hits| => hits[k].iter)
  }

  /** the hits found so far, with the snapshots of the first ones taken and the others on the stream */
  ghost predicate Snapshotting(x: Worker, salt: nat)
    requires Shaped(x.bufs)
  {
    && JobHeld(x, salt) && |x.fills| == x.iterIdx && |x.bufs.queue| <= |x.hits|
    && (forall k :: 0 <= k < |x.hits| ==> HitRight(x, salt, x.hits[k]))
    && (forall k :: 0 <= k < |x.bufs.queue| ==>
       x.bufs.queue[k] == SnapshotA(x.hits[|x.hits| - |x.bufs.queue| + k].slot))
    && (forall k :: 0 <= k < |x.hits| - |x.bufs.queue| ==> x.bufs.snapshots[x.hits[k].slot] == x.bufs.a[x.hits[k].slot])
  }

  ghost predicate InScan(x: Worker, salt: nat, next: nat)
    requires Shaped(x.bufs)
  {
    && Snapshotting(x, salt) && x.batchStart <= next <= x.iterIdx == x.batchStart + x.bufs.ring
    && (forall i: nat :: x.batchStart <= i < x.iterIdx ==> SlotDone(x, salt, i))
    && Iters(x.hits) == Reporting(x.bufs.headers, x.batchStart, next)
    && x.hitIters == x.sentIters + Reporting(x.bufs.headers, x.batchStart, x.iterIdx)
  }

  ghost predicate PhaseInv(x: Worker, salt: nat)
    requires Shaped(x.bufs)
  {
    match x.phase
    case Top => Idle(x, salt)
    case Loading(t) => InLoading(x, salt, t)
    case Launching => InBatch(x, salt)
    case Scanning(next) => InScan(x, salt, next)
    case Copying => Snapshotting(x, salt) && x.hitIters == x.sentIters + Iters(x.hits)
    case Sending => Snapshotting(x, salt) && x.bufs.queue == [] && x.hitIters == x.sentIters + Iters(x.hits)
    case Stopped => true
  }

  /** the k-th fill is that of iteration k, with a seed of this device */
  ghost predicate FillsRight(x: Worker, salt: nat) {
    && |x.fills| <= x.iterIdx
    && forall k :: 0 <= k < |x.fills| ==>
         x.fills[k].iter == k && x.fills[k].seed.device == x.device && x.fills[k].seed.salt == salt
  }

  /** hits are reported in order, each once, and sent in that order */
  ghost predicate HitsInOrder(x: Worker) {
    && Increasing(x.hitIters) && (forall k :: 0 <= k < |x.hitIters| ==> x.hitIters[k] < Searched(x))
    && x.sentIters <= x.hitIters
  }

  ghost predicate WorkerInv(x: Worker, salt: nat) {
    Shaped(x.bufs) && PhaseInv(x, salt) && FillsRight(x, salt) && HitsInOrder(x)
  }

  // ----- Steps keep the invariant of the worker -----

  lemma TopKeeps(x: Worker, latest: Option<Template>, salt: nat)
    requires WorkerInv(x, salt) && x.phase == Top
    ensures WorkerInv(TopStep(x, latest, salt), salt)
  {
    var y := TopStep(x, latest, salt);
    if y.phase == Launching {
      assert Mines(x.bufs.ring, |x.fills|, y.iterIdx) == [];
      assert Reporting(y.bufs.headers, y.batchStart, |x.fills|) == [];
    }
  }

  lemma LoadingKeeps(x: Worker, salt: nat)
    requires WorkerInv(x, salt) && x.phase.Loading? && x.bufs.queue == []
    ensures WorkerInv(LoadingStep(x), salt)
  {
    var y := LoadingStep(x);
    assert Mines(x.bufs.ring, |x.fills|, y.iterIdx) == [];
    assert Reporting(y.bufs.headers, y.batchStart, |x.fills|) == [];
  }

  /** launching one more iteration appends its operations */
  lemma {:induction false} MinesAppend(ring: nat, from: nat, until: nat)
    requires ring > 0 && from <= until
    ensures Mines(ring, from, until + 1) == Mines(ring, from, until)
            + [Fill(Slot(ring, until), until), Search(Slot(ring, until), until)]
    decreases until - from
  {
    var last := [Fill(Slot(ring, until), until), Search(Slot(ring, until), until)];
    if from == until {
      assert Mines(ring, from + 1, until + 1) == [];
    } else {
      MinesAppend(ring, from + 1, until);
      var first := [Fill(Slot(ring, from), from), Search(Slot(ring, from), from)];
      assert first + (Mines(ring, from + 1, until) + last) == (first + Mines(ring, from + 1, until)) + last;
    }
  }

  lemma {:induction false} MinesLength(ring: nat, from: nat, until: nat)
    requires ring > 0 && from <= until
    ensures |Mines(ring, from, until)| == 2 * (until - from)
    decreases until - from
  {
    if from < until {
      MinesLength(ring, from + 1, until);
    }
  }

  /** the reports of an interval depend only on its slots */
  lemma {:induction false} ReportingSame(h: seq<Option<Report>>, h': seq<Option<Report>>, from: nat, until: nat)
    requires |h| == |h'| > 0
    requires forall i: nat {:trigger Slot(|h|, i)} :: from <= i < until ==>
               h[Slot(|h|, i)].Some? == h'[Slot(|h|, i)].Some?
    ensures Reporting(h, from, until) == Reporting(h', from, until)
    decreases until
  {
    if from < until {
      ReportingSame(h, h', from, until - 1);
    }
  }

  lemma OtherSlots(ring: nat, from: nat, until: nat, i: nat)
    requires ring > 0 && from <= i < from + ring && until <= from + ring
    ensures forall j: nat {:trigger Slot(ring, j)} :: from <= j < until && j != i ==> Slot(ring, j) != Slot(ring, i)
  {
    forall j: nat | from <= j < until && j != i
      ensures Slot(ring, j) != Slot(ring, i)
    {
      SlotsDiffer(ring, if i < j then i else j, if i < j then j else i);
    }
  }

  lemma LaunchKeeps(x: Worker, salt: nat)
    requires WorkerInv(x, salt) && x.phase == Launching && x.iterIdx < x.batchStart + x.bufs.ring
    ensures WorkerInv(LaunchingStep(x), salt)
  {
    var y, d, ring := LaunchingStep(x), Searched(x), x.bufs.ring;
    MinesAppend(ring, |x.fills|, x.iterIdx);
    OtherSlots(ring, x.batchStart, y.iterIdx, x.iterIdx);
    var head := if Halfway(x) then [Search(Slot(ring, d), d)] else [];
    assert y.bufs.queue == head + Mines(ring, |x.fills|, y.iterIdx);
    assert Halfway(y) == Halfway(x) by {
      if x.bufs.queue == [] {
        assert y.bufs.queue[0] == Fill(Slot(ring, x.iterIdx), x.iterIdx);
      }
    }
    ReportingSame(x.bufs.headers, y.bufs.headers, x.batchStart, d);
    forall i: nat | x.batchStart <= i < d
      ensures SlotDone(y, salt, i)
    {
      assert SlotDone(x, salt, i);
    }
  }

  lemma BatchDoneKeeps(x: Worker, salt: nat)
    requires WorkerInv(x, salt) && x.phase == Launching && x.iterIdx == x.batchStart + x.bufs.ring && x.bufs.queue == []
    ensures WorkerInv(LaunchingStep(x), salt)
  {
    MinesLength(x.bufs.ring, |x.fills|, x.iterIdx);
    assert Reporting(x.bufs.headers, x.batchStart, x.batchStart) == [];
    var y := LaunchingStep(x);
    assert Iters(y.hits) == [];
    forall i: nat | x.batchStart <= i < x.iterIdx
      ensures SlotDone(y, salt, i)
    {
      assert SlotDone(x, salt, i);
    }
  }

  /** the same slots and hits seen from the next state of the scan */
  lemma ScanSame(x: Worker, y: Worker, salt: nat)
    requires Shaped(x.bufs) && Shaped(y.bufs) && x.currentJob.Some? && y.currentJob == x.currentJob
             && y.device == x.device
    requires y.bufs.ring == x.bufs.ring && y.bufs.a == x.bufs.a && y.bufs.headers == x.bufs.headers
             && y.bufs.b == x.bufs.b
    ensures forall i: nat :: SlotDone(x, salt, i) ==> SlotDone(y, salt, i)
    ensures forall h: Hit :: HitRight(x, salt, h) ==> HitRight(y, salt, h)
  {
  }

  lemma ScanMiss(x: Worker, salt: nat, maxIters: nat)
    requires WorkerInv(x, salt) && x.phase.Scanning? && x.phase.next < x.iterIdx
    requires x.bufs.headers[Slot(x.bufs.ring, x.phase.next)].None?
    ensures WorkerInv(ScanningStep(x, maxIters), salt)
  {
    var y := ScanningStep(x, maxIters);
    ScanSame(x, y, salt);
    hide SlotDone, HitRight;
    assert Iters(x.hits) + [] == Iters(x.hits);
  }

  lemma ScanHit(x: Worker, salt: nat, maxIters: nat)
    requires WorkerInv(x, salt) && x.phase.Scanning? && x.phase.next < x.iterIdx
    requires x.bufs.headers[Slot(x.bufs.ring, x.phase.next)].Some?
    ensures WorkerInv(ScanningStep(x, maxIters), salt)
  {
    var y, i := ScanningStep(x, maxIters), x.phase.next;
    ScanSame(x, y, salt);
    assert SlotDone(x, salt, i);
    assert HitRight(y, salt, Hit(i, Slot(x.bufs.ring, i), x.bufs.headers[Slot(x.bufs.ring, i)].value));
    hide SlotDone, HitRight;
    assert Iters(y.hits) == Iters(x.hits) + [i];
    assert Snapshotting(y, salt);
    assert InScan(y, salt, i + 1);
    HistoriesSame(x, y, salt);
  }

  lemma HistoriesSame(x: Worker, y: Worker, salt: nat)
    requires FillsRight(x, salt) && HitsInOrder(x) && y.fills == x.fills && y.hitIters == x.hitIters
             && y.sentIters == x.sentIters
    requires y.device == x.device && y.iterIdx >= x.iterIdx && Halfway(y) == Halfway(x)
    ensures FillsRight(y, salt) && HitsInOrder(y)
  {
  }

  lemma ScanEndsEmpty(x: Worker, salt: nat, maxIters: nat)
    requires WorkerInv(x, salt) && x.phase.Scanning? && x.phase.next >= x.iterIdx && x.hits == []
    ensures WorkerInv(AfterBatch(x, maxIters), salt)
  {
    var y := AfterBatch(x, maxIters);
    HistoriesSame(x, y, salt);
    assert Iters([]) == [] && x.hitIters == x.sentIters + [];
    assert x.bufs.queue == [];
    hide SlotDone, HitRight, FillsRight, HitsInOrder, Reporting, Iters;
  }

  lemma ScanEndsWithHits(x: Worker, salt: nat)
    requires WorkerInv(x, salt) && x.phase.Scanning? && x.phase.next >= x.iterIdx
    ensures WorkerInv(x.(phase := Copying), salt)
  {
    var y := x.(phase := Copying);
    ScanSame(x, y, salt);
    HistoriesSame(x, y, salt);
    hide SlotDone, HitRight, FillsRight, HitsInOrder, Iters;
    assert Snapshotting(y, salt);
    hide Snapshotting;
  }

  lemma ScanEnd(x: Worker, salt: nat, maxIters: nat)
    requires WorkerInv(x, salt) && x.phase.Scanning? && x.phase.next >= x.iterIdx
    ensures WorkerInv(ScanningStep(x, maxIters), salt)
  {
    if x.hits == [] {
      ScanEndsEmpty(x, salt, maxIters);
    } else {
      ScanEndsWithHits(x, salt);
    }
    hide PhaseInv, FillsRight, HitsInOrder;
  }

  lemma SendKeeps(x: Worker, salt: nat, maxIters: nat)
    requires WorkerInv(x, salt) && x.phase == Sending
    ensures WorkerInv(SendingStep(x, maxIters), salt)
  {
    var y := SendingStep(x, maxIters);
    ScanSame(x, y, salt);
    if x.hits == [] {
      HistoriesSame(x, y, salt);
      assert Iters([]) == [] && x.hitIters == x.sentIters + [];
    } else {
      SendOneKeeps(x, y, salt);
    }
  }

  lemma SendOneKeeps(x: Worker, y: Worker, salt: nat)
    requires WorkerInv(x, salt) && x.phase == Sending && x.hits != []
    requires y == x.(sentIters := x.sentIters + [x.hits[0].iter], hits := x.hits[1..])
    ensures WorkerInv(y, salt)
  {
    ScanSame(x, y, salt);
    SendHistories(x, y, salt);
    hide SlotDone, HitRight, Reporting, HitsInOrder, FillsRight;
    assert forall k :: 0 <= k < |y.hits| ==> y.hits[k] == x.hits[k + 1];
    assert Snapshotting(y, salt);
  }

  lemma SendHistories(x: Worker, y: Worker, salt: nat)
    requires FillsRight(x, salt) && HitsInOrder(x) && x.hits != [] && x.hitIters == x.sentIters + Iters(x.hits)
    requires y == x.(sentIters := x.sentIters + [x.hits[0].iter], hits := x.hits[1..])
    ensures FillsRight(y, salt) && HitsInOrder(y) && y.hitIters == y.sentIters + Iters(y.hits)
  {
    assert Iters(x.hits) == [x.hits[0].iter] + Iters(y.hits);
    SentMore(x.hitIters, x.sentIters, x.hits[0].iter, Iters(y.hits));
    hide Iters, Increasing;
    assert Searched(y) == Searched(x);
    assert HitsInOrder(y);
    assert FillsRight(y, salt);
  }

  lemma SentMore(all: seq<nat>, sent: seq<nat>, next: nat, rest: seq<nat>)
    requires all == sent + ([next] + rest)
    ensures all == (sent + [next]) + rest && sent + [next] <= all
  {
  }

  lemma CopyingKeeps(x: Worker, salt: nat)
    requires WorkerInv(x, salt) && x.phase == Copying && x.bufs.queue == []
    ensures WorkerInv(x.(phase := Sending), salt)
  {
    var y := x.(phase := Sending);
    forall k | 0 <= k < |y.hits|
      ensures HitRight(y, salt, y.hits[k])
    {
      assert HitRight(x, salt, x.hits[k]);
    }
  }

  lemma HostKeeps(x: Worker, latest: Option<Template>, salt: nat, maxIters: nat)
    requires WorkerInv(x, salt) && HostEnabled(x)
    ensures WorkerInv(HostStep(x, latest, salt, maxIters), salt)
  {
    match x.phase
    case Top => TopKeeps(x, latest, salt);
    case Loading(_) => LoadingKeeps(x, salt);
    case Launching =>
      if x.iterIdx < x.batchStart + x.bufs.ring {
        LaunchKeeps(x, salt);
      } else {
        BatchDoneKeeps(x, salt);
      }
    case Scanning(i) =>
      if i >= x.iterIdx {
        ScanEnd(x, salt, maxIters);
      } else if x.bufs.headers[Slot(x.bufs.ring, i)].Some? {
        ScanHit(x, salt, maxIters);
      } else {
        ScanMiss(x, salt, maxIters);
      }
    case Copying => CopyingKeeps(x, salt);
    case Sending => SendKeeps(x, salt, maxIters);
  }

  lemma FillBKeeps(x: Worker, salt: nat, hit: bool)
    requires WorkerInv(x, salt) && x.phase.Loading? && x.bufs.queue != []
    ensures WorkerInv(DeviceStep(x, hit), salt)
  {
    assert x.bufs.queue[0] == FillB(0) ==> x.bufs.queue[1..] == [CopyB];
    assert x.bufs.queue[0] == CopyB ==> x.bufs.queue[1..] == [];
  }

  /** the head of the stream of a batch */
  lemma MinesHead(ring: nat, from: nat, until: nat)
    requires ring > 0 && from < until
    ensures Mines(ring, from, until) != [] && Mines(ring, from, until)[0] == Fill(Slot(ring, from), from)
    ensures Mines(ring, from, until)[1..] == [Search(Slot(ring, from), from)] + Mines(ring, from + 1, until)
  {
  }

  lemma FillKeeps(x: Worker, salt: nat, hit: bool)
    requires WorkerInv(x, salt) && x.phase == Launching && x.bufs.queue != [] && !Halfway(x)
    ensures WorkerInv(DeviceStep(x, hit), salt)
  {
    var d, ring := |x.fills|, x.bufs.ring;
    MinesLength(ring, d, x.iterIdx);
    MinesHead(ring, d, x.iterIdx);
    assert x.bufs.queue == Mines(ring, d, x.iterIdx);
    var y := DeviceStep(x, hit);
    OtherSlots(ring, x.batchStart, x.iterIdx, d);
    forall i: nat | x.batchStart <= i < d
      ensures SlotDone(y, salt, i)
    {
      assert SlotDone(x, salt, i) && Slot(ring, i) != Slot(ring, d);
    }
    assert Halfway(y) && Searched(y) == d;
    assert InBatch(y, salt);
  }

  lemma SearchKeeps(x: Worker, salt: nat, hit: bool)
    requires WorkerInv(x, salt) && x.phase == Launching && Halfway(x)
    ensures WorkerInv(DeviceStep(x, hit), salt)
  {
    var d, ring := |x.fills| - 1, x.bufs.ring;
    var rest := Mines(ring, |x.fills|, x.iterIdx);
    assert x.bufs.queue[1..] == rest;
    assert [] + rest == rest;
    if |x.fills| < x.iterIdx {
      MinesHead(ring, |x.fills|, x.iterIdx);
    }
    var y := DeviceStep(x, hit);
    assert !Halfway(y) && Searched(y) == d + 1;
    OtherSlots(ring, x.batchStart, x.iterIdx, d);
    forall i: nat | x.batchStart <= i < d + 1
      ensures SlotDone(y, salt, i)
    {
      if i < d {
        assert SlotDone(x, salt, i) && Slot(ring, i) != Slot(ring, d);
      }
    }
    SearchReports(x, d, hit);
    hide SlotDone, Reporting;
    assert InBatch(y, salt);
    hide InBatch;
    SearchInOrder(x, y, d, hit, salt);
  }

  lemma SearchReports(x: Worker, d: nat, hit: bool)
    requires Shaped(x.bufs) && Halfway(x) && x.bufs.queue[0] == Search(Slot(x.bufs.ring, d), d)
             && x.batchStart <= d < x.batchStart + x.bufs.ring
    requires x.bufs.headers[Slot(x.bufs.ring, d)] == None
    requires x.hitIters == x.sentIters + Reporting(x.bufs.headers, x.batchStart, d)
    ensures var y := DeviceStep(x, hit); y.hitIters == y.sentIters + Reporting(y.bufs.headers, y.batchStart, d + 1)
  {
    var y := DeviceStep(x, hit);
    OtherSlots(x.bufs.ring, x.batchStart, d, d);
    ReportingSame(x.bufs.headers, y.bufs.headers, x.batchStart, d);
    var before := Reporting(x.bufs.headers, x.batchStart, d);
    assert Reporting(y.bufs.headers, y.batchStart, d + 1) == before + if hit then [d] else [];
    hide Reporting;
    assert before + [] == before && x.sentIters + (before + [d]) == (x.sentIters + before) + [d];
  }

  lemma SearchInOrder(x: Worker, y: Worker, d: nat, hit: bool, salt: nat)
    requires FillsRight(x, salt) && HitsInOrder(x) && Searched(x) == d && Searched(y) == d + 1
    requires y.fills == x.fills && y.sentIters == x.sentIters && y.device == x.device && y.iterIdx == x.iterIdx
    requires y.hitIters == if hit then x.hitIters + [d] else x.hitIters
    ensures FillsRight(y, salt) && HitsInOrder(y)
  {
  }

  lemma SnapshotKeeps(x: Worker, salt: nat, hit: bool)
    requires WorkerInv(x, salt) && (x.phase.Scanning? || x.phase == Copying) && x.bufs.queue != []
    ensures WorkerInv(DeviceStep(x, hit), salt)
  {
    var y := DeviceStep(x, hit);
    var e := |x.hits| - |x.bufs.queue|;
    assert x.bufs.queue[0] == SnapshotA(x.hits[e].slot);
    ScanSame(x, y, salt);
    HistoriesSame(x, y, salt);
    hide SlotDone, HitRight;
    assert Snapshotting(y, salt);
  }

  lemma DeviceKeeps(x: Worker, salt: nat, hit: bool)
    requires WorkerInv(x, salt) && x.bufs.queue != [] && x.phase != Stopped
    ensures WorkerInv(DeviceStep(x, hit), salt)
  {
    match x.phase
    case Loading(_) => FillBKeeps(x, salt, hit);
    case Launching =>
      if Halfway(x) {
        SearchKeeps(x, salt, hit);
      } else {
        FillKeeps(x, salt, hit);
      }
    case Scanning(_) => SnapshotKeeps(x, salt, hit);
    case Copying => SnapshotKeeps(x, salt, hit);
    case _ =>
  }
}
