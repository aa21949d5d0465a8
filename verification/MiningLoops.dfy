/** The loop of one mining worker as the source runs it, on its own buffers: each pass looks at the template
    cell, launches a batch of iterations, scans their headers and sends the hits. The device executes the
    stream in its own time, which the `lag` arguments leave open. */
module MiningLoops {
  import opened MinerBuffers
  import opened MiningWorkers
  import opened OrderedSets
  import opened Wrappers

  /** the iterations from..until whose search finds something */
  function FoundBetween(found: nat -> bool, from: nat, until: nat): seq<nat> {
    if from >= until then [] else FoundBetween(found, from, until - 1) + if found(until - 1) then [until - 1] else []
  }

  /** neighbouring intervals */
  lemma {:induction false} FoundConcat(found: nat -> bool, a: nat, b: nat, c: nat)
    requires a <= b <= c
    ensures FoundBetween(found, a, c) == FoundBetween(found, a, b) + FoundBetween(found, b, c)
    decreases c
  {
    if b < c {
      FoundConcat(found, a, b, c - 1);
    }
  }

  lemma {:induction false} FoundIsIncreasing(found: nat -> bool, from: nat, until: nat)
    ensures Increasing(FoundBetween(found, from, until))
    ensures forall i: nat :: i in FoundBetween(found, from, until) <==> from <= i < until && found(i)
    ensures forall k :: 0 <= k < |FoundBetween(found, from, until)| ==>
              from <= FoundBetween(found, from, until)[k] < until
  {
    if from < until {
      FoundIsIncreasing(found, from, until - 1);
    }
  }

  /** the message for a hit of iteration i: the job, the A of its seed at i, and the report on that A and the B
      of the job */
  function WorkFor(w: nat, job: ReadyJob, seed: Seed, i: nat): HitWork {
    HitWork(w, job, RandomA(seed, i), Report(Some(job.template.header), RandomA(seed, i), RandomB(seed, 0)), i)
  }

  function SentIters(works: seq<HitWork>): (r: seq<nat>)
    ensures |r| == |works| && forall k :: 0 <= k < |r| ==> r[k] == works[k].iter
  {
    seq(|works|, k requires 0 <= k < |works| => works[k].iter)
  }

  ghost predicate AllWorksFor(works: seq<HitWork>, w: nat, job: ReadyJob, seed: Seed) {
    forall k :: 0 <= k < |works| ==> works[k] == WorkFor(w, job, seed, works[k].iter)
  }

  /** each message pairs a job with the A and the B of that job's seed */
  ghost predicate WorksRight(works: seq<HitWork>, w: nat, salt: nat, device: nat) {
    forall k :: 0 <= k < |works| ==>
      var seed := SeedOf(works[k].job.template.header, salt, device);
      works[k] == WorkFor(w, works[k].job, seed, works[k].iter) && works[k].job.b == RandomB(seed, 0)
  }

  lemma NoWorks(w: nat, salt: nat, device: nat)
    ensures WorksRight([], w, salt, device) && SentIters([]) == []
  {
  }

  lemma MoreWorks(sent: seq<HitWork>, works: seq<HitWork>, w: nat, salt: nat, device: nat)
    requires WorksRight(sent, w, salt, device) && WorksRight(works, w, salt, device)
    ensures WorksRight(sent + works, w, salt, device) && SentIters(sent + works) == SentIters(sent) + SentIters(works)
  {
  }

  lemma RightWorks(works: seq<HitWork>, w: nat, salt: nat, device: nat, job: ReadyJob)
    requires var seed := SeedOf(job.template.header, salt, device);
             AllWorksFor(works, w, job, seed) && job.b == RandomB(seed, 0)
    ensures WorksRight(works, w, salt, device)
  {
  }

  /** the templates that the looks at the cell found */
  function Seen(looks: seq<Option<Template>>): seq<Template>
    decreases looks
  {
    if looks == [] then []
    else Seen(looks[..|looks| - 1]) + if looks[|looks| - 1].Some? then [looks[|looks| - 1].value] else []
  }

  /** the template that is followed after p looks, when `held` was followed before */
  function Following(held: Option<Template>, looks: seq<Option<Template>>, p: nat): Option<Template>
    requires p <= |looks|
  {
    Adopted(held, Seen(looks[..p]))
  }

  /** the next iteration after p passes: every pass with a job mines one ring of iterations */
  function IterAfter(start: nat, ring: nat, held: Option<Template>, looks: seq<Option<Template>>, p: nat): nat
    requires p <= |looks|
  {
    if p == 0 then start
    else IterAfter(start, ring, held, looks, p - 1) + if Following(held, looks, p).Some? then ring else 0
  }

  /** the passes with a job among the first p */
  function Batches(held: Option<Template>, looks: seq<Option<Template>>, p: nat): nat
    requires p <= |looks|
  {
    if p == 0 then 0 else Batches(held, looks, p - 1) + if Following(held, looks, p).Some? then 1 else 0
  }

  lemma {:induction false} IterAfterCounts(start: nat, ring: nat, held: Option<Template>, looks: seq<Option<Template>>,
                                           p: nat)
    requires p <= |looks|
    ensures IterAfter(start, ring, held, looks, p) == start + ring * Batches(held, looks, p)
  {
    if p > 0 {
      IterAfterCounts(start, ring, held, looks, p - 1);
      var n := Batches(held, looks, p - 1);
      assert ring * (n + 1) == ring * n + ring;
    }
  }

  lemma FollowingNext(held: Option<Template>, looks: seq<Option<Template>>, p: nat)
    requires p < |looks|
    ensures Following(held, looks, p + 1) ==
            if looks[p].Some? then Adopt(Following(held, looks, p), looks[p].value) else Following(held, looks, p)
  {
    var more := looks[..p + 1];
    assert more[..p] == looks[..p] && more[p] == looks[p];
    var last := if looks[p].Some? then [looks[p].value] else [];
    assert Seen(more) == Seen(looks[..p]) + last;
    AdoptedConcat(held, Seen(looks[..p]), last);
    assert looks[p].Some? ==> last[1..] == [];
  }

  /** the message is from pass q, and its job is the template that was followed then */
  ghost predicate SentInPass(work: HitWork, start: nat, ring: nat, held: Option<Template>, looks: seq<Option<Template>>,
                             q: nat) {
    && q < |looks| && Following(held, looks, q + 1) == Some(work.job.template)
    && IterAfter(start, ring, held, looks, q) <= work.iter < IterAfter(start, ring, held, looks, q + 1)
  }

  ghost predicate InSomePass(work: HitWork, start: nat, ring: nat, held: Option<Template>, looks: seq<Option<Template>>,
                             p: nat) {
    exists q: nat :: q < p && SentInPass(work, start, ring, held, looks, q)
  }

  /** every message is from one of the first p passes */
  ghost predicate SentInPasses(works: seq<HitWork>, start: nat, ring: nat, held: Option<Template>,
                               looks: seq<Option<Template>>, p: nat) {
    forall k :: 0 <= k < |works| ==> InSomePass(works[k], start, ring, held, looks, p)
  }

  ghost predicate AllInPass(works: seq<HitWork>, start: nat, ring: nat, held: Option<Template>,
                            looks: seq<Option<Template>>, p: nat) {
    forall k :: 0 <= k < |works| ==> SentInPass(works[k], start, ring, held, looks, p)
  }

  lemma MorePasses(sent: seq<HitWork>, works: seq<HitWork>, start: nat, ring: nat, held: Option<Template>,
                   looks: seq<Option<Template>>, p: nat)
    requires SentInPasses(sent, start, ring, held, looks, p) && AllInPass(works, start, ring, held, looks, p)
    ensures SentInPasses(sent + works, start, ring, held, looks, p + 1)
  {
    hide SentInPass;
    var all := sent + works;
    forall k | 0 <= k < |all|
      ensures InSomePass(all[k], start, ring, held, looks, p + 1)
    {
      if k < |sent| {
        assert all[k] == sent[k];
        assert InSomePass(sent[k], start, ring, held, looks, p);
      } else {
        assert all[k] == works[k - |sent|];
        assert SentInPass(all[k], start, ring, held, looks, p);
      }
    }
  }

  lemma BatchInPass(works: seq<HitWork>, w: nat, job: ReadyJob, seed: Seed, found: nat -> bool, start: nat, ring: nat,
                    held: Option<Template>, looks: seq<Option<Template>>, p: nat)
    requires p < |looks| && AllWorksFor(works, w, job, seed) && Following(held, looks, p + 1) == Some(job.template)
    requires var i := IterAfter(start, ring, held, looks, p); SentIters(works) == FoundBetween(found, i, i + ring)
    ensures AllInPass(works, start, ring, held, looks, p)
  {
    var i := IterAfter(start, ring, held, looks, p);
    FoundIsIncreasing(found, i, i + ring);
    forall k | 0 <= k < |works|
      ensures SentInPass(works[k], start, ring, held, looks, p)
    {
      assert works[k].iter == SentIters(works)[k] == FoundBetween(found, i, i + ring)[k];
      assert works[k] == WorkFor(w, job, seed, works[k].iter);
    }
  }

  /** with a limit, none of the passes before the p-th ended at it */
  ghost predicate BelowLimit(maxIters: nat, start: nat, ring: nat, held: Option<Template>, looks: seq<Option<Template>>,
                             p: nat)
    requires p <= |looks|
  {
    maxIters > 0 ==> forall q :: 0 < q < p && Following(held, looks, q).Some? ==>
                                 IterAfter(start, ring, held, looks, q) < maxIters
  }

  lemma BelowNext(maxIters: nat, start: nat, ring: nat, held: Option<Template>, looks: seq<Option<Template>>, p: nat)
    requires p < |looks| && BelowLimit(maxIters, start, ring, held, looks, p)
    requires p > 0 && Following(held, looks, p).Some? && maxIters > 0 ==>
               IterAfter(start, ring, held, looks, p) < maxIters
    ensures BelowLimit(maxIters, start, ring, held, looks, p + 1)
  {
    hide Following, IterAfter;
  }

  lemma NoPasses(maxIters: nat, start: nat, ring: nat, held: Option<Template>, looks: seq<Option<Template>>,
                 found: nat -> bool)
    ensures Following(held, looks, 0) == held && IterAfter(start, ring, held, looks, 0) == start
    ensures BelowLimit(maxIters, start, ring, held, looks, 0) && SentInPasses([], start, ring, held, looks, 0)
    ensures SentIters([]) == FoundBetween(found, start, start)
  {
    assert looks[..0] == [];
  }

  /** the operations on the stream are those of the iterations from..until */
  ghost predicate StreamOf(stream: seq<Op>, ring: nat, from: nat, until: nat)
    requires ring > 0
  {
    forall k :: 0 <= k < |stream| ==>
      && (stream[k].Fill? || stream[k].Search?)
      && from <= stream[k].iter < until && stream[k].slot == Slot(ring, stream[k].iter)
  }

  lemma StreamNext(x: Bufs, from: nat, until: nat)
    requires Shaped(x) && StreamOf(x.queue, x.ring, from, until) && from <= until
    ensures StreamOf(Launched(x, until).queue, x.ring, from, until + 1)
  {
  }

  lemma StreamRest(stream: seq<Op>, ring: nat, from: nat, until: nat, count: nat)
    requires ring > 0 && StreamOf(stream, ring, from, until) && count <= |stream|
    ensures StreamOf(stream[count..], ring, from, until)
  {
  }

  /** the slots hold what the iterations from..until leave there */
  ghost predicate Mining(x: Bufs, found: nat -> bool, from: nat, until: nat, header: nat, seed: Seed)
    requires Shaped(x)
  {
    forall i: nat {:trigger Slot(x.ring, i)} :: from <= i < until ==>
      && x.a[Slot(x.ring, i)] == RandomA(seed, i)
      && x.headers[Slot(x.ring, i)] == if found(i) then Some(Report(Some(header), RandomA(seed, i), RandomB(seed, 0)))
         else None
  }

  lemma NextSlotIsFree(x: Bufs, from: nat, until: nat)
    requires x.ring > 0 && StreamOf(x.queue, x.ring, from, until) && until < from + x.ring
    ensures NothingInFlight(x, Slot(x.ring, until))
  {
    forall k | 0 <= k < |x.queue|
      ensures !Touches(x.queue[k], Slot(x.ring, until))
    {
      SlotsDiffer(x.ring, x.queue[k].iter, until);
    }
  }

  lemma MiningNothing(x: Bufs, found: nat -> bool, from: nat, header: nat, seed: Seed)
    requires Shaped(x)
    ensures Mining(x, found, from, from, header, seed) && StreamOf([], x.ring, from, from)
  {
  }

  lemma MiningNext(x: Bufs, y: Bufs, found: nat -> bool, from: nat, until: nat, header: nat, seed: Seed)
    requires Shaped(x) && Mining(x, found, from, until, header, seed) && from <= until < from + x.ring
    requires var (slot, a) := (Slot(x.ring, until), RandomA(seed, until));
             y == x.(a := x.a[slot := a],
                     headers := x.headers[slot := if found(until) then Some(Report(Some(header), a, RandomB(seed, 0)))
                       else None])
    ensures Shaped(y) && Mining(y, found, from, until + 1, header, seed)
  {
    forall i: nat | from <= i < until
      ensures Slot(x.ring, i) != Slot(x.ring, until)
    {
      SlotsDiffer(x.ring, i, until);
    }
  }

  /** the hits of the scan below iteration `next`, each with its header */
  ghost predicate Scanned(hits: seq<Hit>, found: nat -> bool, ring: nat, from: nat, next: nat, header: nat, seed: Seed)
    requires ring > 0
  {
    && Iters(hits) == FoundBetween(found, from, next)
    && forall k :: 0 <= k < |hits| ==>
         && hits[k].slot == Slot(ring, hits[k].iter)
         && hits[k].report == Report(Some(header), RandomA(seed, hits[k].iter), RandomB(seed, 0))
  }

  /** the snapshots that were asked for are those of the hits */
  ghost predicate Snapped(x: Bufs, hits: seq<Hit>, seed: Seed) {
    forall k :: 0 <= k < |hits| ==>
      hits[k].slot < |x.snapshots| && x.snapshots[hits[k].slot] == RandomA(seed, hits[k].iter)
  }

  lemma ScannedNext(hits: seq<Hit>, found: nat -> bool, ring: nat, from: nat, next: nat, header: nat, seed: Seed)
    requires ring > 0 && from <= next && Scanned(hits, found, ring, from, next, header, seed)
    ensures found(next) ==>
              var hit := Hit(next, Slot(ring, next), Report(Some(header), RandomA(seed, next), RandomB(seed, 0)));
              Scanned(hits + [hit], found, ring, from, next + 1, header, seed)
    ensures !found(next) ==> Scanned(hits, found, ring, from, next + 1, header, seed)
  {
    assert FoundBetween(found, from, next) + [] == FoundBetween(found, from, next);
    forall hit: Hit | hit.iter == next
      ensures Iters(hits + [hit]) == Iters(hits) + [next]
    {
    }
  }

  lemma ScannedBounds(hits: seq<Hit>, found: nat -> bool, ring: nat, from: nat, next: nat, header: nat, seed: Seed)
    requires ring > 0 && Scanned(hits, found, ring, from, next, header, seed)
    ensures forall k :: 0 <= k < |hits| ==> from <= hits[k].iter < next && hits[k].slot == Slot(ring, hits[k].iter)
  {
    FoundIsIncreasing(found, from, next);
    forall k | 0 <= k < |hits|
      ensures from <= hits[k].iter < next
    {
      assert hits[k].iter == FoundBetween(found, from, next)[k];
    }
  }

  lemma SnappedNext(x: Bufs, hits: seq<Hit>, hit: Hit, seed: Seed, from: nat, until: nat)
    requires Snapped(x, hits, seed) && Shaped(x) && from <= hit.iter < until <= from + x.ring
             && hit.slot == Slot(x.ring, hit.iter)
    requires forall k :: 0 <= k < |hits| ==>
               from <= hits[k].iter < hit.iter && hits[k].slot == Slot(x.ring, hits[k].iter)
    ensures Snapped(x.(snapshots := x.snapshots[hit.slot := RandomA(seed, hit.iter)]), hits + [hit], seed)
  {
    forall k | 0 <= k < |hits|
      ensures hits[k].slot != hit.slot
    {
      SlotsDiffer(x.ring, hits[k].iter, hit.iter);
    }
  }

  /** during the scan of the batch that left `x`: the buffers `v` as they are and `y` as they will be differ from
      it in the snapshots only, and `y` has those of the hits so far */
  ghost predicate ScanState(v: Bufs, y: Bufs, x: Bufs, hits: seq<Hit>, found: nat -> bool, from: nat, next: nat,
                            header: nat, seed: Seed) {
    && Shaped(x) && Shaped(v) && Shaped(y) && OnlySnapshots(v.queue) && |v.queue| <= |hits|
    && v == x.(snapshots := v.snapshots, queue := v.queue) && y == x.(snapshots := y.snapshots)
    && Scanned(hits, found, x.ring, from, next, header, seed) && Snapped(y, hits, seed)
  }

  lemma ScanStart(x: Bufs, found: nat -> bool, from: nat, header: nat, seed: Seed)
    requires Shaped(x) && x.queue == []
    ensures ScanState(x, x, x, [], found, from, from, header, seed)
  {
  }

  lemma ScanMissed(v: Bufs, y: Bufs, x: Bufs, hits: seq<Hit>, found: nat -> bool, from: nat, next: nat, until: nat,
                   header: nat, seed: Seed)
    requires ScanState(v, y, x, hits, found, from, next, header, seed) && Mining(x, found, from, until, header, seed)
    requires from <= next < until && x.headers[Slot(x.ring, next)].None?
    ensures ScanState(v, y, x, hits, found, from, next + 1, header, seed)
  {
    ScannedNext(hits, found, x.ring, from, next, header, seed);
  }

  lemma ScanFound(v: Bufs, y: Bufs, x: Bufs, hits: seq<Hit>, found: nat -> bool, from: nat, next: nat, until: nat,
                  header: nat, seed: Seed)
    requires ScanState(v, y, x, hits, found, from, next, header, seed) && Mining(x, found, from, until, header, seed)
    requires from <= next < until <= from + x.ring && x.headers[Slot(x.ring, next)].Some?
    ensures var slot := Slot(x.ring, next);
            ScanState(SnapshotTaken(v, slot), y.(snapshots := y.snapshots[slot := y.a[slot]]), x,
                      hits + [Hit(next, slot, x.headers[slot].value)], found, from, next + 1, header, seed)
  {
    var slot := Slot(x.ring, next);
    var hit := Hit(next, slot, x.headers[slot].value);
    assert found(next) && y.a[slot] == RandomA(seed, next);
    ScannedNext(hits, found, x.ring, from, next, header, seed);
    ScannedBounds(hits, found, x.ring, from, next, header, seed);
    SnappedNext(y, hits, hit, seed, from, until);
    hide Scanned, Snapped, Mining;
    assert Shaped(SnapshotTaken(v, slot)) && OnlySnapshots(SnapshotTaken(v, slot).queue);
  }

  lemma ScanProgress(v: Bufs, v': Bufs, y: Bufs, x: Bufs, hits: seq<Hit>, found: nat -> bool, from: nat, next: nat,
                     header: nat, seed: Seed,
                     count: nat)
    requires ScanState(v, y, x, hits, found, from, next, header, seed) && count <= |v.queue|
    requires Shaped(v') && v' == v.(snapshots := v'.snapshots, queue := v.queue[count..])
    ensures ScanState(v', y, x, hits, found, from, next, header, seed)
  {
    hide Scanned, Snapped;
  }

  class MiningLoop {
    const worker: nat
    const device: nat
    const salt: nat
    const bufs: MinerBufs
    var currentPrev: Option<nat>
    var currentJob: Option<ReadyJob>
    var graphs: bool
    var iterIdx: nat

    /** between two passes: the stream is idle, and the current job is the one that the device holds */
    ghost predicate Valid()
      reads this, bufs
    {
      && bufs.Valid() && bufs.stream == [] && currentPrev == PrevOf(JobTemplate())
      && (bufs.cachedHeader.Some? ==> bufs.seedTensor == Some(SeedOf(bufs.cachedHeader.value, salt, device)))
      && (currentJob.Some? ==>
            graphs && bufs.cachedHeader == Some(currentJob.value.template.header)
              && currentJob.value.b == RandomB(JobSeed(), 0))
    }

    /** the template of the current job */
    ghost function JobTemplate(): Option<Template>
      reads this
    {
      if currentJob.Some? then Some(currentJob.value.template) else None
    }

    ghost function JobSeed(): Seed
      requires currentJob.Some?
      reads this
    {
      SeedOf(currentJob.value.template.header, salt, device)
    }

    constructor (worker: nat, device: nat, salt: nat, ring: nat, found: nat -> bool)
      requires ring > 0
      ensures Valid() && fresh(bufs) && bufs.found == found && bufs.ringSize == ring
      ensures this.worker == worker && this.device == device && this.salt == salt
      ensures currentJob == None && currentPrev == None && iterIdx == 0
    {
      this.worker, this.device, this.salt := worker, device, salt;
      bufs := new MinerBufs(ring, found);
      currentPrev, currentJob, graphs, iterIdx := None, None, false, 0;
    }

    /** A new tip is loaded, and then the job is ready with the B of its seed; otherwise nothing changes. */
    method LookAtTemplate(latest: Option<Template>, lag: nat)
      requires Valid()
      modifies this, bufs
      ensures Valid() && iterIdx == old(iterIdx)
      ensures if latest.Some? && old(currentPrev) != Some(latest.value.prev)
              then && currentPrev == Some(latest.value.prev)
                   && currentJob == Some(ReadyJob(latest.value, RandomB(SeedOf(latest.value.header, salt, device), 0)))
              else currentPrev == old(currentPrev) && currentJob == old(currentJob)
      ensures JobTemplate() == if latest.Some? then Adopt(old(JobTemplate()), latest.value) else old(JobTemplate())
    {
      if latest.Some? && currentPrev != Some(latest.value.prev) {
        var t := latest.value;
        currentPrev := Some(t.prev);
        bufs.EnsureForJob(t.header, SeedOf(t.header, salt, device));
        bufs.Progress(if lag <= |bufs.stream| then lag else |bufs.stream|);
        bufs.Synchronize();
        graphs := true;
        currentJob := Some(ReadyJob(t, bufs.bPinned));
      }
    }

    /** a ring of iterations is launched, and the stream is drained */
    method LaunchBatch(lags: seq<nat>)
      requires Valid() && currentJob.Some? && |lags| == bufs.ringSize
      modifies this`iterIdx, bufs
      ensures Valid() && iterIdx == old(iterIdx) + bufs.ringSize
      ensures bufs.cachedHeader == old(bufs.cachedHeader)
      ensures Mining(bufs.View(), bufs.found, old(iterIdx), iterIdx, currentJob.value.template.header, JobSeed())
    {
      ghost var start, header, seed, ring := iterIdx, currentJob.value.template.header, JobSeed(), bufs.ringSize;
      MiningNothing(bufs.After(), bufs.found, start, header, seed);
      hide Settled, Mining, StreamOf, Slot, NothingInFlight, Launched;
      for n := 0 to bufs.ringSize
        invariant bufs.Valid() && iterIdx == start + n
        invariant bufs.cachedHeader == Some(header) && bufs.seedTensor == Some(seed)
        invariant StreamOf(bufs.stream, ring, start, iterIdx)
        invariant Mining(bufs.After(), bufs.found, start, iterIdx, header, seed)
      {
        ghost var v, x := bufs.View(), bufs.After();
        NextSlotIsFree(v, start, iterIdx);
        StreamNext(v, start, iterIdx);
        bufs.MineOneWithGraphs(iterIdx);
        MiningNext(x, bufs.After(), bufs.found, start, iterIdx, header, seed);
        iterIdx := iterIdx + 1;
        var lag := if lags[n] <= |bufs.stream| then lags[n] else |bufs.stream|;
        StreamRest(bufs.stream, ring, start, iterIdx, lag);
        bufs.Progress(lag);
      }
      bufs.Synchronize();
    }

    /** the snapshot for a hit of iteration i, and the device goes on */
    method SnapshotHit(slot: nat, i: nat, lag: nat, ghost x: Bufs, ghost hits: seq<Hit>, ghost start: nat,
                       ghost until: nat,
                       ghost header: nat, ghost seed: Seed)
      requires bufs.Valid() && bufs.cachedHeader == Some(header) && bufs.seedTensor == Some(seed)
      requires ScanState(bufs.View(), bufs.After(), x, hits, bufs.found, start, i, header, seed)
      requires Mining(x, bufs.found, start, until, header, seed) && start <= i < until <= start + x.ring
      requires slot == Slot(x.ring, i) && x.headers[slot].Some?
      modifies bufs
      ensures bufs.Valid() && bufs.cachedHeader == Some(header) && bufs.seedTensor == Some(seed)
      ensures ScanState(bufs.View(), bufs.After(), x, hits + [Hit(i, slot, x.headers[slot].value)], bufs.found, start,
              i + 1, header, seed)
    {
      hide Settled, Mining, Slot, Scanned, Snapped, OnlySnapshots, Iters;
      ScanFound(bufs.View(), bufs.After(), x, hits, bufs.found, start, i, until, header, seed);
      bufs.SnapshotAForHit(slot);
      ghost var v, y := bufs.View(), bufs.After();
      var count := if lag <= |bufs.stream| then lag else |bufs.stream|;
      bufs.Progress(count);
      ScanProgress(v, bufs.View(), y, x, hits + [Hit(i, slot, x.headers[slot].value)], bufs.found, start, i + 1, header,
        seed, count);
    }

    /** the headers of the batch are read, and the matrix of each hit is copied to the host */
    method ScanBatch(start: nat, lags: seq<nat>) returns (hits: seq<Hit>)
      requires Valid() && currentJob.Some? && start + bufs.ringSize == iterIdx && |lags| == bufs.ringSize
      requires Mining(bufs.View(), bufs.found, start, iterIdx, currentJob.value.template.header, JobSeed())
      modifies bufs
      ensures Valid() && bufs.cachedHeader == old(bufs.cachedHeader)
      ensures Scanned(hits, bufs.found, bufs.ringSize, start, iterIdx, currentJob.value.template.header, JobSeed())
      ensures Snapped(bufs.View(), hits, JobSeed())
    {
      ghost var header, seed, x := currentJob.value.template.header, JobSeed(), bufs.View();
      ScanStart(x, bufs.found, start, header, seed);
      hits := [];
      hide Settled, Mining, Slot, Scanned, Snapped, OnlySnapshots, Iters;
      for i := start to iterIdx
        invariant bufs.Valid() && bufs.cachedHeader == Some(header) && bufs.seedTensor == Some(seed)
        invariant ScanState(bufs.View(), bufs.After(), x, hits, bufs.found, start, i, header, seed)
      {
        var slot := Slot(bufs.ringSize, i);
        var report := bufs.headerPool[slot];
        if report.Some? {
          SnapshotHit(slot, i, lags[i - start], x, hits, start, iterIdx, header, seed);
          hits := hits + [Hit(i, slot, report.value)];
        } else {
          ScanMissed(bufs.View(), bufs.After(), x, hits, bufs.found, start, i, iterIdx, header, seed);
        }
      }
      if hits != [] {
        bufs.Synchronize();
      }
    }

    /** One batch: whatever the device's pace, a message for every iteration of the batch that found something,
        in order, each with the A of its own iteration. */
    method Batch(launchLags: seq<nat>, scanLags: seq<nat>) returns (works: seq<HitWork>)
      requires Valid() && currentJob.Some? && |launchLags| == |scanLags| == bufs.ringSize
      modifies this`iterIdx, bufs
      ensures Valid() && iterIdx == old(iterIdx) + bufs.ringSize
      ensures SentIters(works) == FoundBetween(bufs.found, old(iterIdx), iterIdx)
      ensures AllWorksFor(works, worker, currentJob.value, JobSeed())
    {
      var start := iterIdx;
      LaunchBatch(launchLags);
      var hits := ScanBatch(start, scanLags);
      works := [];
      for k := 0 to |hits|
        invariant SentIters(works) == Iters(hits)[..k]
        invariant AllWorksFor(works, worker, currentJob.value, JobSeed())
      {
        works := works + [HitWork(worker, currentJob.value, bufs.snapshotPool[hits[k].slot], hits[k].report,
          hits[k].iter)];
      }
    }

    /** The loop, over what the template cell holds at each pass, for any pace of the device. Every pass with a job
        mines one ring of iterations; the loop ends early only when a limit is set and reached, and then after the
        first batch that reaches it. Every iteration that found something is sent exactly once and in order, with
        the template that was followed in its pass, and with the A and B of one seed. */
    method Run(latest: seq<Option<Template>>, lags: seq<(nat, seq<nat>, seq<nat>)>, maxIters: nat)
      returns (sent: seq<HitWork>, passes: nat)
      requires Valid() && |lags| == |latest|
      requires forall k :: 0 <= k < |lags| ==> |lags[k].1| == |lags[k].2| == bufs.ringSize
      modifies this, bufs
      ensures Valid() && passes <= |latest| && JobTemplate() == Following(old(JobTemplate()), latest, passes)
      ensures iterIdx == IterAfter(old(iterIdx), bufs.ringSize, old(JobTemplate()), latest, passes)
      ensures passes < |latest| ==> 0 < maxIters <= iterIdx
      ensures BelowLimit(maxIters, old(iterIdx), bufs.ringSize, old(JobTemplate()), latest, passes)
      ensures SentIters(sent) == FoundBetween(bufs.found, old(iterIdx), iterIdx)
      ensures WorksRight(sent, worker, salt, device)
      ensures SentInPasses(sent, old(iterIdx), bufs.ringSize, old(JobTemplate()), latest, passes)
    {
      sent, passes := [], 0;
      ghost var start, held, ring := iterIdx, JobTemplate(), bufs.ringSize;
      NoPasses(maxIters, start, ring, held, latest, bufs.found);
      NoWorks(worker, salt, device);
      hide FoundBetween, Settled, WorksRight, MinerBufs.Valid, Following, IterAfter, Adopt, SentInPasses, AllInPass,
        BelowLimit;
      while passes < |latest|
        invariant Valid() && passes <= |latest| && JobTemplate() == Following(held, latest, passes)
        invariant start <= iterIdx == IterAfter(start, ring, held, latest, passes)
        invariant BelowLimit(maxIters, start, ring, held, latest, passes)
        invariant passes > 0 && Following(held, latest, passes).Some? && maxIters > 0 ==> iterIdx < maxIters
        invariant SentIters(sent) == FoundBetween(bufs.found, start, iterIdx)
        invariant WorksRight(sent, worker, salt, device) && SentInPasses(sent, start, ring, held, latest, passes)
      {
        ghost var before := iterIdx;
        BelowNext(maxIters, start, ring, held, latest, passes);
        var works := Pass(latest[passes], lags[passes], start, held, latest, passes);
        FoundConcat(bufs.found, start, before, iterIdx);
        MoreWorks(sent, works, worker, salt, device);
        MorePasses(sent, works, start, ring, held, latest, passes);
        sent, passes := sent + works, passes + 1;
        if currentJob.Some? && maxIters > 0 && iterIdx >= maxIters {
          return;
        }
      }
    }

    /** one pass: the look at the cell, and a batch if there is a job */
    method Pass(look: Option<Template>, lag: (nat, seq<nat>, seq<nat>), ghost start: nat, ghost held: Option<Template>,
                ghost looks: seq<Option<Template>>, ghost p: nat) returns (works: seq<HitWork>)
      requires Valid() && |lag.1| == |lag.2| == bufs.ringSize && p < |looks| && look == looks[p]
      requires JobTemplate() == Following(held, looks, p) && iterIdx == IterAfter(start, bufs.ringSize, held, looks, p)
      modifies this, bufs
      ensures Valid() && JobTemplate() == Following(held, looks, p + 1)
      ensures old(iterIdx) <= iterIdx == IterAfter(start, bufs.ringSize, held, looks, p + 1)
      ensures SentIters(works) == FoundBetween(bufs.found, old(iterIdx), iterIdx)
              && WorksRight(works, worker, salt, device)
      ensures AllInPass(works, start, bufs.ringSize, held, looks, p)
    {
      hide Settled, MinerBufs.Valid, Adopt, Following, AllWorksFor, SentInPass, WorkFor;
      FollowingNext(held, looks, p);
      LookAtTemplate(look, lag.0);
      if currentJob.None? {
        return [];
      }
      works := Batch(lag.1, lag.2);
      RightWorks(works, worker, salt, device, currentJob.value);
      BatchInPass(works, worker, currentJob.value, JobSeed(), bufs.found, start, bufs.ringSize, held, looks, p);
    }
  }
}
