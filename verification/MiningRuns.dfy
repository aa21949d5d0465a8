/** What every run of the mining process keeps, whatever the order of its steps. */
module MiningRuns {
  import opened MinerBuffers
  import opened MiningWorkers
  import opened OrderedSets
  import opened Wrappers

  /** A and the B of the job are the matrices of one seed, and those that the reporting kernels read */
  ghost predicate WorkRight(work: HitWork, salt: nat, device: nat) {
    var seed := SeedOf(work.job.template.header, salt, device);
    && work.a == RandomA(seed, work.iter) && work.job.b == RandomB(seed, 0)
    && work.report == Report(Some(work.job.template.header), work.a, work.job.b)
  }

  /** the iterations of the hits that worker w sent, in order */
  function SentBy(sent: seq<HitWork>, w: nat): seq<nat> {
    if sent == [] then []
    else SentBy(sent[..|sent| - 1], w) + if sent[|sent| - 1].worker == w then [sent[|sent| - 1].iter] else []
  }

  ghost predicate WorkersRight(s: State, devices: seq<nat>) {
    |s.workers| == |devices| && forall w :: 0 <= w < |devices| ==>
      s.workers[w].device == devices[w] && WorkerInv(s.workers[w], s.salt)
  }

  ghost predicate SentRight(s: State, devices: seq<nat>) {
    forall k :: 0 <= k < |s.sent| ==>
      s.sent[k].worker < |devices| && WorkRight(s.sent[k], s.salt, devices[s.sent[k].worker])
  }

  ghost predicate SystemInv(s: State, devices: seq<nat>) {
    && WorkersRight(s, devices) && SentRight(s, devices)
    && (forall w :: 0 <= w < |devices| ==> SentBy(s.sent, w) == s.workers[w].sentIters)
    && s.sent == s.received + s.channel && s.lastPrev == PrevOf(s.latest)
  }

  lemma InitHolds(salt: nat, maxIters: nat, devices: seq<nat>, ring: nat)
    requires ring > 0
    ensures SystemInv(Init(salt, maxIters, devices, ring), devices)
  {
  }

  /** the work that a worker sends next */
  lemma NextWorkIsRight(x: Worker, w: nat, salt: nat)
    requires WorkerInv(x, salt) && x.phase == Sending && x.hits != []
    ensures x.hits[0].slot < x.bufs.ring && WorkRight(WorkOf(x, w), salt, x.device)
  {
    assert HitRight(x, salt, x.hits[0]);
  }

  lemma SendHolds(s: State, w: nat, devices: seq<nat>)
    requires SystemInv(s, devices) && Enabled(s, Host(w)) && s.workers[w].phase == Sending && s.workers[w].hits != []
    ensures SystemInv(Apply(s, Host(w)), devices)
  {
    var x, t := s.workers[w], Apply(s, Host(w));
    HostKeeps(x, s.latest, s.salt, s.maxIters);
    NextWorkIsRight(x, w, s.salt);
    hide WorkerInv, HostEnabled, WorkRight;
    assert t.sent[..|s.sent|] == s.sent;
    assert t.workers[w].sentIters == x.sentIters + [x.hits[0].iter];
    assert s.received + (s.channel + [WorkOf(x, w)]) == (s.received + s.channel) + [WorkOf(x, w)];
    forall v | 0 <= v < |devices|
      ensures SentBy(t.sent, v) == t.workers[v].sentIters
    {
      assert SentBy(t.sent, v) == SentBy(s.sent, v) + if v == w then [x.hits[0].iter] else [];
      assert SentBy(s.sent, v) + [] == SentBy(s.sent, v);
    }
  }

  lemma HostHolds(s: State, w: nat, devices: seq<nat>)
    requires SystemInv(s, devices) && Enabled(s, Host(w))
    ensures SystemInv(Apply(s, Host(w)), devices)
  {
    var x := s.workers[w];
    if x.phase == Sending && x.hits != [] {
      hide *;
      SendHolds(s, w, devices);
    } else {
      HostKeeps(x, s.latest, s.salt, s.maxIters);
      OtherStepsSendNothing(x, s.latest, s.salt, s.maxIters);
      hide WorkerInv, HostEnabled, WorkRight, HostStep;
    }
  }

  lemma OtherStepsSendNothing(x: Worker, latest: Option<Template>, salt: nat, maxIters: nat)
    requires HostEnabled(x)
    ensures HostStep(x, latest, salt, maxIters).device == x.device
    ensures !(x.phase == Sending && x.hits != []) ==> HostStep(x, latest, salt, maxIters).sentIters == x.sentIters
  {
  }

  lemma DeviceHolds(s: State, w: nat, hit: bool, devices: seq<nat>)
    requires SystemInv(s, devices) && Enabled(s, Device(w, hit))
    ensures SystemInv(Apply(s, Device(w, hit)), devices)
  {
    DeviceKeeps(s.workers[w], s.salt, hit);
    var y := DeviceStep(s.workers[w], hit);
    assert y.device == s.workers[w].device && y.sentIters == s.workers[w].sentIters;
    hide WorkerInv, WorkRight, DeviceStep;
  }

  lemma FailHolds(s: State, w: nat, devices: seq<nat>)
    requires SystemInv(s, devices) && Enabled(s, Fail(w))
    ensures SystemInv(Apply(s, Fail(w)), devices)
  {
    var x := s.workers[w];
    var y := x.(phase := Stopped);
    assert WorkerInv(y, s.salt) by { HistoriesSame(x, y, s.salt); }
    hide WorkerInv, WorkRight;
  }

  /** every step of any thread keeps the invariant */
  lemma StepHolds(s: State, a: Action, devices: seq<nat>)
    requires SystemInv(s, devices) && Enabled(s, a)
    ensures SystemInv(Apply(s, a), devices)
    ensures Apply(s, a).latest == if a.Poll? then Adopt(s.latest, a.t) else s.latest
  {
    match a
    case Poll(_) =>
    case Host(w) => HostHolds(s, w, devices);
    case Device(w, hit) => DeviceHolds(s, w, hit, devices);
    case Receive => assert s.received + s.channel == (s.received + [s.channel[0]]) + s.channel[1..];
    case Fail(w) => FailHolds(s, w, devices);
  }

  lemma {:induction false} RunHolds(s: State, run: seq<Action>, devices: seq<nat>)
    requires SystemInv(s, devices) && IsRun(s, run)
    ensures SystemInv(Final(s, run), devices)
    decreases |run|
  {
    if run != [] {
      StepHolds(s, run[0], devices);
      RunHolds(Apply(s, run[0]), run[1..], devices);
    }
  }

  /** a state that some run of the process reaches */
  ghost predicate Reached(salt: nat, maxIters: nat, devices: seq<nat>, ring: nat, run: seq<Action>, s: State)
    requires ring > 0
  {
    IsRun(Init(salt, maxIters, devices, ring), run) && s == Final(Init(salt, maxIters, devices, ring), run)
  }

  lemma ReachedHolds(salt: nat, maxIters: nat, devices: seq<nat>, ring: nat, run: seq<Action>, s: State)
    requires ring > 0 && Reached(salt, maxIters, devices, ring, run, s)
    ensures SystemInv(s, devices) && s.salt == salt
  {
    InitHolds(salt, maxIters, devices, ring);
    RunHolds(Init(salt, maxIters, devices, ring), run, devices);
    SaltStays(Init(salt, maxIters, devices, ring), run);
  }

  lemma {:induction false} SaltStays(s: State, run: seq<Action>)
    requires IsRun(s, run)
    ensures Final(s, run).salt == s.salt
    decreases |run|
  {
    if run != [] {
      SaltStays(Apply(s, run[0]), run[1..]);
    }
  }

  // ----- Hits -----

  /** In every run, each hit that was sent pairs the job with the A generated from that job's seed at the
      iteration whose header reported the hit, and with the B that its kernels read. */
  lemma HitsAreRight(salt: nat, maxIters: nat, devices: seq<nat>, ring: nat, run: seq<Action>, s: State)
    requires ring > 0 && Reached(salt, maxIters, devices, ring, run, s)
    ensures forall k :: 0 <= k < |s.sent| ==>
              s.sent[k].worker < |devices| && WorkRight(s.sent[k], salt, devices[s.sent[k].worker])
  {
    ReachedHolds(salt, maxIters, devices, ring, run, s);
  }

  /** Received hits are the sent ones, in order and without loss; a worker sends each reported hit once, in
      order, and between batches it has sent them all. */
  lemma HitsAreDeliveredOnce(salt: nat, maxIters: nat, devices: seq<nat>, ring: nat, run: seq<Action>, s: State)
    requires ring > 0 && Reached(salt, maxIters, devices, ring, run, s)
    ensures s.sent == s.received + s.channel
    ensures |s.workers| == |devices|
    ensures forall w :: 0 <= w < |devices| ==>
              && Increasing(SentBy(s.sent, w)) && SentBy(s.sent, w) <= s.workers[w].hitIters
              && (s.workers[w].phase == Top ==> SentBy(s.sent, w) == s.workers[w].hitIters)
  {
    ReachedHolds(salt, maxIters, devices, ring, run, s);
    forall w | 0 <= w < |devices|
      ensures && Increasing(SentBy(s.sent, w)) && SentBy(s.sent, w) <= s.workers[w].hitIters
              && (s.workers[w].phase == Top ==> SentBy(s.sent, w) == s.workers[w].hitIters)
    {
      assert WorkerInv(s.workers[w], s.salt);
      PrefixIsIncreasing(s.workers[w].sentIters, s.workers[w].hitIters);
    }
  }

  lemma PrefixIsIncreasing(a: seq<nat>, b: seq<nat>)
    requires a <= b && Increasing(b)
    ensures Increasing(a)
  {
  }

  // ----- Buffers in flight -----

  /** the operations of the iterations before the next stay off its slot */
  lemma {:induction false} MinesElsewhere(ring: nat, from: nat, until: nat, slot: nat)
    requires ring > 0
    requires forall i: nat {:trigger Slot(ring, i)} :: from <= i < until ==> Slot(ring, i) != slot
    ensures forall k :: 0 <= k < |Mines(ring, from, until)| ==> !Touches(Mines(ring, from, until)[k], slot)
    decreases if from < until then until - from else 0
  {
    if from < until {
      MinesElsewhere(ring, from + 1, until, slot);
    }
  }

  /** In every run: a header is zeroed only when no operation of its slot is on the stream; a new job is
      loaded, and a slot is filled with a new A, only when no search and no snapshot of older data is
      pending, and no found hit waits for its snapshot. */
  lemma InFlightIsUntouched(salt: nat, maxIters: nat, devices: seq<nat>, ring: nat, run: seq<Action>, s: State, w: nat)
    requires ring > 0 && Reached(salt, maxIters, devices, ring, run, s) && w < |devices|
    ensures |s.workers| == |devices| && Shaped(s.workers[w].bufs)
    ensures var x := s.workers[w];
            && (x.phase == Launching && x.iterIdx < x.batchStart + x.bufs.ring ==>
               NothingInFlight(x.bufs, Slot(x.bufs.ring, x.iterIdx)))
            && (x.phase == Top ==> x.bufs.queue == [] && x.hits == [])
            && (x.phase == Launching && x.bufs.queue != [] && x.bufs.queue[0].Fill? ==>
                  x.hits == [] && forall k :: 0 < k < |x.bufs.queue| ==>
                    x.bufs.queue[k].Fill? || x.bufs.queue[k].Search?)
  {
    ReachedHolds(salt, maxIters, devices, ring, run, s);
    var x := s.workers[w];
    assert WorkerInv(x, s.salt);
    if x.phase == Launching {
      BatchStream(x, s.salt);
    }
  }

  lemma BatchStream(x: Worker, salt: nat)
    requires WorkerInv(x, salt) && x.phase == Launching
    ensures x.iterIdx < x.batchStart + x.bufs.ring ==> NothingInFlight(x.bufs, Slot(x.bufs.ring, x.iterIdx))
    ensures forall k :: 0 <= k < |x.bufs.queue| ==> x.bufs.queue[k].Fill? || x.bufs.queue[k].Search?
  {
    var ring, d, next := x.bufs.ring, Searched(x), Slot(x.bufs.ring, x.iterIdx);
    MinesOnly(ring, |x.fills|, x.iterIdx);
    var mines := Mines(ring, |x.fills|, x.iterIdx);
    assert forall k :: 0 <= k < |x.bufs.queue| ==>
      x.bufs.queue[k] == if Halfway(x) then (if k == 0 then Search(Slot(ring, d), d) else mines[k - 1]) else mines[k];
    if x.iterIdx < x.batchStart + ring {
      OtherSlots(ring, x.batchStart, x.iterIdx, x.iterIdx);
      MinesElsewhere(ring, |x.fills|, x.iterIdx, next);
    }
  }

  lemma {:induction false} MinesOnly(ring: nat, from: nat, until: nat)
    requires ring > 0
    ensures forall k :: 0 <= k < |Mines(ring, from, until)| ==>
              Mines(ring, from, until)[k].Fill? || Mines(ring, from, until)[k].Search?
    decreases if from < until then until - from else 0
  {
    if from < until {
      MinesOnly(ring, from + 1, until);
    }
  }

  /** No worker reaches a batch without its graphs and its job, and none is ever stuck: until it stops, its
      loop can go on, or waits for an operation that the device can execute. */
  lemma WorkersGoOn(salt: nat, maxIters: nat, devices: seq<nat>, ring: nat, run: seq<Action>, s: State, w: nat)
    requires ring > 0 && Reached(salt, maxIters, devices, ring, run, s) && w < |devices|
    ensures w < |s.workers|
    ensures s.workers[w].phase in {Launching, Copying, Sending} || s.workers[w].phase.Scanning? ==>
              s.workers[w].graphs && s.workers[w].currentJob.Some?
    ensures s.workers[w].phase != Stopped ==> Enabled(s, Host(w)) || Enabled(s, Device(w, false))
  {
    ReachedHolds(salt, maxIters, devices, ring, run, s);
    var x := s.workers[w];
    assert WorkerInv(x, s.salt);
    if x.phase == Sending && x.hits != [] {
      NextWorkIsRight(x, w, s.salt);
    }
  }

  // ----- Iterations -----

  /** fill j of worker v and fill k of worker w, which may be the same worker, are two fills with the same
      seed and iteration */
  ghost predicate MinedTwice(s: State, v: nat, j: nat, w: nat, k: nat) {
    && v < |s.workers| && w < |s.workers| && (v, j) != (w, k)
    && j < |s.workers[v].fills| && k < |s.workers[w].fills| && s.workers[v].fills[j] == s.workers[w].fills[k]
  }

  ghost predicate Distinct(devices: seq<nat>) { forall v, w :: 0 <= v < w < |devices| ==> devices[v] != devices[w] }

  lemma FillsAreDistinct(salt: nat, maxIters: nat, devices: seq<nat>, ring: nat, run: seq<Action>, s: State,
                         v: nat, j: nat, w: nat, k: nat)
    requires ring > 0 && Reached(salt, maxIters, devices, ring, run, s) && Distinct(devices)
    ensures !MinedTwice(s, v, j, w, k)
  {
    ReachedHolds(salt, maxIters, devices, ring, run, s);
    if v < |s.workers| && w < |s.workers| {
      assert FillsRight(s.workers[v], s.salt) && FillsRight(s.workers[w], s.salt);
    }
  }

  lemma {:induction false} RunConcat(s: State, a: seq<Action>, b: seq<Action>)
    requires IsRun(s, a) && IsRun(Final(s, a), b)
    ensures IsRun(s, a + b) && Final(s, a + b) == Final(Final(s, a), b)
    decreases |a|
  {
    if a == [] {
      assert a + b == b;
    } else {
      assert (a + b)[1..] == a[1..] + b;
      RunConcat(Apply(s, a[0]), a[1..], b);
    }
  }

  lemma OneStep(s: State, a: Action)
    requires Enabled(s, a)
    ensures IsRun(s, [a]) && Final(s, [a]) == Apply(s, a)
  {
    assert [a][1..] == [];
    assert IsRun(Apply(s, a), []);
    assert Final(Apply(s, a), []) == Apply(s, a);
  }

  /** a fresh worker, from the template in the cell to its first fill */
  lemma FirstFill(s: State, w: nat, device: nat, ring: nat, t: Template) returns (run: seq<Action>)
    requires ring > 0 && w < |s.workers| && s.workers[w] == NewWorker(device, ring) && s.latest == Some(t)
    ensures IsRun(s, run)
    ensures var e := Final(s, run);
            && e.latest == s.latest && e.salt == s.salt && |e.workers| == |s.workers|
            && (forall v :: 0 <= v < |s.workers| && v != w ==> e.workers[v] == s.workers[v])
            && e.workers[w].fills == [Mined(SeedOf(t.header, s.salt, device), 0)]
  {
    var s1 := Apply(s, Host(w));
    assert s1.workers[w].bufs.queue == [FillB(0), CopyB];
    var s2 := Apply(s1, Device(w, false));
    assert s2.workers[w].bufs.queue == [CopyB];
    var s3 := Apply(s2, Device(w, false));
    assert s3.workers[w].bufs.queue == [] && s3.workers[w].phase == Loading(t);
    run := [Host(w), Device(w, false), Device(w, false)];
    RunOfThree(s, run[0], run[1], run[2]);
    var more := LaunchFirst(s3, w, device, ring, t);
    RunConcat(s, run, more);
    run := run + more;
  }

  lemma RunOfThree(s: State, a: Action, b: Action, c: Action)
    requires Enabled(s, a) && Enabled(Apply(s, a), b) && Enabled(Apply(Apply(s, a), b), c)
    ensures IsRun(s, [a, b, c]) && Final(s, [a, b, c]) == Apply(Apply(Apply(s, a), b), c)
  {
    OneStep(Apply(Apply(s, a), b), c);
    assert [b, c][1..] == [c];
    assert IsRun(Apply(s, a), [b, c]) && Final(Apply(s, a), [b, c]) == Apply(Apply(Apply(s, a), b), c);
    assert [a, b, c][1..] == [b, c];
  }

  lemma LaunchFirst(s: State, w: nat, device: nat, ring: nat, t: Template) returns (run: seq<Action>)
    requires ring > 0 && w < |s.workers|
    requires var x := s.workers[w];
             && x.phase == Loading(t) && x.bufs.queue == [] && Shaped(x.bufs) && x.bufs.ring == ring && x.iterIdx == 0
                && x.fills == []
             && x.bufs.seedTensor == Some(SeedOf(t.header, s.salt, device))
    ensures IsRun(s, run)
    ensures var e := Final(s, run);
            && e.latest == s.latest && e.salt == s.salt && |e.workers| == |s.workers|
            && (forall v :: 0 <= v < |s.workers| && v != w ==> e.workers[v] == s.workers[v])
            && e.workers[w].fills == [Mined(SeedOf(t.header, s.salt, device), 0)]
  {
    var s1 := Apply(s, Host(w));
    assert s1.workers[w].phase == Launching && s1.workers[w].batchStart == 0;
    var s2 := Apply(s1, Host(w));
    assert s2.workers[w].bufs.queue == [] + [Fill(Slot(ring, 0), 0), Search(Slot(ring, 0), 0)];
    var s3 := Apply(s2, Device(w, false));
    assert s3.workers[w].fills == [] + [Mined(SeedOf(t.header, s.salt, device), 0)];
    run := [Host(w), Host(w), Device(w, false)];
    RunOfThree(s, run[0], run[1], run[2]);
  }

  /** No seed and iteration is mined twice in any run, by two workers or by one, exactly when no device is
      listed twice: the device ordinal is all that separates the seeds of two workers with the same job. */
  lemma NothingIsMinedTwice(salt: nat, maxIters: nat, devices: seq<nat>, ring: nat)
    requires ring > 0
    ensures Distinct(devices) <==>
            forall run: seq<Action>, s: State, v: nat, j: nat, w: nat, k: nat ::
              Reached(salt, maxIters, devices, ring, run, s) ==> !MinedTwice(s, v, j, w, k)
  {
    if Distinct(devices) {
      forall run: seq<Action>, s: State, v: nat, j: nat, w: nat, k: nat | Reached(salt, maxIters, devices, ring, run, s)
        ensures !MinedTwice(s, v, j, w, k)
      {
        FillsAreDistinct(salt, maxIters, devices, ring, run, s, v, j, w, k);
      }
    } else {
      var v, w :| 0 <= v < w < |devices| && devices[v] == devices[w];
      var run, s := DuplicateRun(salt, maxIters, devices, ring, v, w);
      assert MinedTwice(s, v, 0, w, 0);
    }
  }

  lemma DuplicateRun(salt: nat, maxIters: nat, devices: seq<nat>, ring: nat, v: nat, w: nat) returns (run: seq<Action>,
                     s: State)
    requires ring > 0 && v < w < |devices| && devices[v] == devices[w]
    ensures Reached(salt, maxIters, devices, ring, run, s) && MinedTwice(s, v, 0, w, 0)
  {
    var start, t := Init(salt, maxIters, devices, ring), Template(0, 0);
    OneStep(start, Poll(t));
    var s1 := Apply(start, Poll(t));
    var first := FirstFill(s1, v, devices[v], ring, t);
    RunConcat(start, [Poll(t)], first);
    var s2 := Final(s1, first);
    var second := FirstFill(s2, w, devices[w], ring, t);
    RunConcat(start, [Poll(t)] + first, second);
    run, s := [Poll(t)] + first + second, Final(s2, second);
  }

  // ----- Templates -----

  /** the templates that the poller received, in order */
  function Polled(run: seq<Action>): seq<Template> {
    if run == [] then [] else (if run[0].Poll? then [run[0].t] else []) + Polled(run[1..])
  }

  lemma {:induction false} PollerHolds(s: State, run: seq<Action>)
    requires IsRun(s, run) && s.lastPrev == PrevOf(s.latest)
    ensures Final(s, run).latest == Adopted(s.latest, Polled(run))
    ensures Final(s, run).lastPrev == PrevOf(Final(s, run).latest)
    decreases |run|
  {
    if run != [] {
      var t := Apply(s, run[0]);
      PollerStep(s, run[0]);
      PollerHolds(t, run[1..]);
      var head := if run[0].Poll? then [run[0].t] else [];
      AdoptedConcat(s.latest, head, Polled(run[1..]));
      assert run[0].Poll? ==> head[1..] == [];
    }
  }

  lemma PollerStep(s: State, a: Action)
    requires Enabled(s, a) && s.lastPrev == PrevOf(s.latest)
    ensures Apply(s, a).latest == if a.Poll? then Adopt(s.latest, a.t) else s.latest
    ensures Apply(s, a).lastPrev == PrevOf(Apply(s, a).latest)
  {
  }

  /** In every run the cell holds the first template polled since the tip last changed, so that its tip is always the
      one that was polled last. */
  lemma CellFollowsTip(salt: nat, maxIters: nat, devices: seq<nat>, ring: nat, run: seq<Action>, s: State)
    requires ring > 0 && Reached(salt, maxIters, devices, ring, run, s)
    ensures Polled(run) == [] ==> s.latest == None
    ensures Polled(run) != [] ==>
              && PrevOf(s.latest) == Some(Polled(run)[|Polled(run)| - 1].prev)
              && exists i: nat :: ChangedAt(None, Polled(run), i) && s.latest == Some(Polled(run)[i])
  {
    PollerHolds(Init(salt, maxIters, devices, ring), run);
    AdoptedIs(None, Polled(run));
    if Polled(run) != [] {
      assert PrevOf(None) != Some(Polled(run)[0].prev);
    }
  }

  /** what worker w read from the cell, look by look */
  function Looked(s: State, run: seq<Action>, w: nat): seq<Template>
    requires IsRun(s, run) && w < |s.workers|
    decreases |run|
  {
    if run == [] then []
    else
      var here := run[0] == Host(w) && s.workers[w].phase == Top && s.latest.Some?;
      (if here then [s.latest.value] else []) + Looked(Apply(s, run[0]), run[1..], w)
  }

  lemma WorkerAdopts(s: State, a: Action, w: nat)
    requires Enabled(s, a) && w < |s.workers| && TipHeld(s.workers[w])
    ensures w < |Apply(s, a).workers|
    ensures var (x, y) := (s.workers[w], Apply(s, a).workers[w]);
            && TipHeld(y) && (x.phase == Stopped ==> y.phase == Stopped)
            && (y.phase != Stopped ==>
                  CurrentTemplate(y) ==
                  if a == Host(w) && x.phase == Top && s.latest.Some? then Adopt(CurrentTemplate(x), s.latest.value)
                  else CurrentTemplate(x))
  {
    if a == Host(w) {
      HostAdopts(s.workers[w], s.latest, s.salt, s.maxIters);
    }
  }

  lemma {:induction false} StoppedStays(s: State, run: seq<Action>, w: nat)
    requires IsRun(s, run) && w < |s.workers| && s.workers[w].phase == Stopped
    ensures w < |Final(s, run).workers| && Final(s, run).workers[w].phase == Stopped
    decreases |run|
  {
    if run != [] {
      WorkerAdopts(s, run[0], w);
      StoppedStays(Apply(s, run[0]), run[1..], w);
    }
  }

  /** the job of a worker, or the one it loads, is what it adopted from the cell, look by look */
  lemma {:induction false} WorkerFollows(s: State, run: seq<Action>, w: nat)
    requires IsRun(s, run) && w < |s.workers| && TipHeld(s.workers[w])
    ensures w < |Final(s, run).workers|
    ensures var y := Final(s, run).workers[w];
            && TipHeld(y)
            && (y.phase != Stopped ==>
                  CurrentTemplate(y) == Adopted(CurrentTemplate(s.workers[w]), Looked(s, run, w)))
    decreases |run|
  {
    if run != [] {
      var t, x := Apply(s, run[0]), s.workers[w];
      WorkerAdopts(s, run[0], w);
      WorkerFollows(t, run[1..], w);
      if t.workers[w].phase == Stopped {
        StoppedStays(t, run[1..], w);
      } else {
        var here := run[0] == Host(w) && x.phase == Top && s.latest.Some?;
        var head := if here then [s.latest.value] else [];
        AdoptedConcat(CurrentTemplate(x), head, Looked(t, run[1..], w));
        assert here ==> head[1..] == [];
        assert Looked(s, run, w) == head + Looked(t, run[1..], w);
      }
    }
  }

  /** In every run the job of a running worker is the first template that it read since the tip last changed in what
      it read; a tip that it has read is never followed by an older one. */
  lemma JobFollowsTip(salt: nat, maxIters: nat, devices: seq<nat>, ring: nat, run: seq<Action>, s: State, w: nat)
    requires ring > 0 && Reached(salt, maxIters, devices, ring, run, s) && w < |devices|
    ensures w < |s.workers|
    ensures var (x, seen) := (s.workers[w], Looked(Init(salt, maxIters, devices, ring), run, w));
            x.phase != Stopped ==>
              && (seen == [] ==> CurrentTemplate(x) == None)
              && (seen != [] ==>
                    && PrevOf(CurrentTemplate(x)) == Some(seen[|seen| - 1].prev)
                    && exists i: nat :: ChangedAt(None, seen, i) && CurrentTemplate(x) == Some(seen[i]))
  {
    var start := Init(salt, maxIters, devices, ring);
    WorkerFollows(start, run, w);
    var seen := Looked(start, run, w);
    AdoptedIs(None, seen);
    if seen != [] {
      assert PrevOf(None) != Some(seen[0].prev);
    }
  }

  /** A worker that looks at the cell when it holds another tip goes to loading exactly that template. */
  lemma NewTipIsLoaded(s: State, w: nat)
    requires Enabled(s, Host(w)) && s.workers[w].phase == Top && s.latest.Some? && TipHeld(s.workers[w])
    requires PrevOf(CurrentTemplate(s.workers[w])) != Some(s.latest.value.prev)
    ensures Apply(s, Host(w)).workers[w].phase == Loading(s.latest.value)
  {
    HostAdopts(s.workers[w], s.latest, s.salt, s.maxIters);
  }

  // ----- Stopping -----

  lemma {:induction false} LimitHolds(s: State, run: seq<Action>, w: nat, failed: bool)
    requires IsRun(s, run) && w < |s.workers| && LimitKept(s.workers[w], s.maxIters, failed)
    ensures w < |Final(s, run).workers|
    ensures LimitKept(Final(s, run).workers[w], s.maxIters, failed || Fail(w) in run)
    decreases |run|
  {
    if run != [] {
      var t := Apply(s, run[0]);
      assert LimitKept(t.workers[w], s.maxIters, failed || run[0] == Fail(w)) by {
        if run[0] == Host(w) {
          HostKeepsLimit(s.workers[w], s.latest, s.salt, s.maxIters, failed);
        }
      }
      LimitHolds(t, run[1..], w, failed || run[0] == Fail(w));
      assert Fail(w) in run <==> run[0] == Fail(w) || Fail(w) in run[1..];
    }
  }

  /** In every run a worker stops only on a failure, or between two batches when a limit is set and reached; and it
      begins no batch, other than the first, once the limit is reached. */
  lemma StopsAtLimit(salt: nat, maxIters: nat, devices: seq<nat>, ring: nat, run: seq<Action>, s: State, w: nat)
    requires ring > 0 && Reached(salt, maxIters, devices, ring, run, s) && w < |devices|
    ensures w < |s.workers|
    ensures s.workers[w].phase == Stopped ==> Fail(w) in run || 0 < maxIters <= s.workers[w].iterIdx
    ensures s.workers[w].phase == Top && maxIters > 0 ==> s.workers[w].iterIdx == 0 || s.workers[w].iterIdx < maxIters
    ensures s.workers[w].phase == Launching && maxIters > 0 ==>
              s.workers[w].batchStart == 0 || s.workers[w].batchStart < maxIters
  {
    LimitHolds(Init(salt, maxIters, devices, ring), run, w, false);
  }
}
