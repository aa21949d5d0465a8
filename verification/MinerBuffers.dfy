/** The buffers of one mining worker: a ring of slots, the tensors of the current job, and a stream on which
    the device executes what the host enqueues, in order and later. Kernels are the functions that their
    documentation states; random matrices and hashes are free terms. */
module MinerBuffers {
  import opened Arithmetic
  import opened Wrappers

  /** the seed of a job: the hash of the header, the process-wide salt and the device ordinal */
  datatype Seed = Seed(header: nat, salt: nat, device: nat)

  datatype Matrix = Unset | RandomA(seed: Seed, iter: nat) | RandomB(seed: Seed, iter: nat)

  /** what a signal header reports: the job tensors and the matrices that the kernels read */
  datatype Report = Report(header: Option<nat>, a: Matrix, b: Matrix)

  /** operations on the stream; `Fill` and `Search` are the two halves of a captured graph, and carry the
      iteration that they were launched for */
  datatype Op =
    | FillB(iter: nat)
    | CopyB
    | Fill(slot: nat, iter: nat)
    | Search(slot: nat, iter: nat)
    | SnapshotA(slot: nat)

  datatype Bufs = Bufs(
    ring: nat,
    cachedHeader: Option<nat>,
    jobTensors: Option<nat>,
    seedTensor: Option<Seed>,
    b: Matrix,
    bPinned: Matrix,
    a: seq<Matrix>,
    headers: seq<Option<Report>>,
    snapshots: seq<Matrix>,
    queue: seq<Op>)

  predicate Shaped(x: Bufs) {
    && x.ring > 0 && |x.a| == |x.headers| == |x.snapshots| == x.ring
    && forall k :: 0 <= k < |x.queue| ==> OpFits(x.queue[k], x.ring)
  }

  predicate OpFits(op: Op, ring: nat) {
    match op
    case FillB(_) => true
    case CopyB => true
    case Fill(s, _) => s < ring
    case Search(s, _) => s < ring
    case SnapshotA(s) => s < ring
  }

  function NewBufs(ring: nat): (x: Bufs)
    requires ring > 0
    ensures Shaped(x)
  {
    Bufs(ring, None, None, None, Unset, Unset, seq(ring, _ => Unset), seq(ring, _ => None), seq(ring, _ => Unset), [])
  }

  /** the ring slot of an iteration */
  function Slot(ring: nat, iter: nat): (s: nat)
    requires ring > 0
    ensures s < ring
  {
    iter % ring
  }

  /** iterations less than a ring apart use different slots */
  lemma SlotsDiffer(ring: nat, i: nat, j: nat)
    requires ring > 0 && i < j < i + ring
    ensures Slot(ring, i) != Slot(ring, j)
  {
    DivNat(i, ring);
    DivNat(j, ring);
    var p, q := i / ring, j / ring;
    assert (p + 1) * ring == p * ring + ring;
    if i % ring == j % ring {
      if p < q {
        MulMonotone(p + 1, q, ring);
      } else {
        MulMonotone(q, p, ring);
      }
    }
  }

  // ----- Host operations -----

  /** a new header refreshes the job tensors and enqueues B and its copy to the host */
  function JobLoaded(x: Bufs, header: nat, seed: Seed): Bufs {
    if x.cachedHeader == Some(header) then x
    else x.(jobTensors := Some(header), seedTensor := Some(seed), queue := x.queue + [FillB(0), CopyB],
      cachedHeader := Some(header))
  }

  /** the header of the slot is zeroed at once, the graph is enqueued */
  function Launched(x: Bufs, iter: nat): Bufs
    requires Shaped(x)
  {
    var slot := Slot(x.ring, iter);
    x.(headers := x.headers[slot := None], queue := x.queue + [Fill(slot, iter), Search(slot, iter)])
  }

  function SnapshotTaken(x: Bufs, slot: nat): Bufs { x.(queue := x.queue + [SnapshotA(slot)]) }

  // ----- Device operations -----

  /** one operation of the stream; `hit` is what a search finds */
  function Executed(x: Bufs, hit: bool): (y: Bufs)
    requires Shaped(x) && x.queue != []
    ensures Shaped(y) && y.queue == x.queue[1..]
  {
    var y := x.(queue := x.queue[1..]);
    match x.queue[0]
    case FillB(i) => y.(b := if x.seedTensor.Some? then RandomB(x.seedTensor.value, i) else Unset)
    case CopyB => y.(bPinned := x.b)
    case Fill(s, i) => y.(a := x.a[s := if x.seedTensor.Some? then RandomA(x.seedTensor.value, i) else Unset])
    case Search(s, _) => if hit then y.(headers := x.headers[s := Some(Report(x.jobTensors, x.a[s], x.b))]) else y
    case SnapshotA(s) => y.(snapshots := x.snapshots[s := x.a[s]])
  }

  /** what the operation finds, when the search of iteration i finds `found(i)` */
  function Hits(op: Op, found: nat -> bool): bool { op.Search? && found(op.iter) }

  /** the buffers when the stream is drained */
  function Settled(x: Bufs, found: nat -> bool): (y: Bufs)
    requires Shaped(x)
    ensures Shaped(y) && y.queue == []
    ensures y.ring == x.ring && y.cachedHeader == x.cachedHeader && y.jobTensors == x.jobTensors
            && y.seedTensor == x.seedTensor
    decreases |x.queue|
  {
    if x.queue == [] then x else Settled(Executed(x, Hits(x.queue[0], found)), found)
  }

  function Enqueued(x: Bufs, ops: seq<Op>): Bufs { x.(queue := x.queue + ops) }

  /** the buffers with nothing but one operation on the stream */
  function Pending(x: Bufs, op: Op): (y: Bufs)
    requires Shaped(x) && OpFits(op, x.ring)
    ensures Shaped(y) && y.queue == [op]
  {
    x.(queue := [op])
  }

  /** an operation that is enqueued takes effect on the drained buffers */
  lemma {:induction false} SettledAppend(x: Bufs, op: Op, found: nat -> bool)
    requires Shaped(x) && OpFits(op, x.ring)
    ensures Shaped(Enqueued(x, [op]))
    ensures Settled(Enqueued(x, [op]), found) == Executed(Pending(Settled(x, found), op), Hits(op, found))
    decreases |x.queue|
  {
    var z := Enqueued(x, [op]);
    if x.queue == [] {
      assert z.queue == [op] && z.queue[1..] == [];
    } else {
      var hit := Hits(x.queue[0], found);
      assert z.queue[0] == x.queue[0] && z.queue[1..] == x.queue[1..] + [op];
      assert Executed(z, hit) == Enqueued(Executed(x, hit), [op]);
      SettledAppend(Executed(x, hit), op, found);
    }
  }

  predicate Touches(op: Op, slot: nat) {
    match op
    case FillB(_) => false
    case CopyB => false
    case Fill(s, _) => s == slot
    case Search(s, _) => s == slot
    case SnapshotA(s) => s == slot
  }

  ghost predicate NothingInFlight(x: Bufs, slot: nat) { forall k :: 0 <= k < |x.queue| ==> !Touches(x.queue[k], slot) }

  /** zeroing a header at once is the same as zeroing it in order, when no operation of its slot is pending */
  lemma {:induction false} SettledZeroed(x: Bufs, slot: nat, found: nat -> bool)
    requires Shaped(x) && slot < x.ring && NothingInFlight(x, slot)
    ensures var y := Settled(x, found);
            Settled(x.(headers := x.headers[slot := None]), found) == y.(headers := y.headers[slot := None])
    decreases |x.queue|
  {
    if x.queue != [] {
      var hit, z := Hits(x.queue[0], found), x.(headers := x.headers[slot := None]);
      assert !Touches(x.queue[0], slot);
      var x' := Executed(x, hit);
      assert Executed(z, hit) == x'.(headers := x'.headers[slot := None]);
      assert forall k :: 0 <= k < |x'.queue| ==> x'.queue[k] == x.queue[k + 1];
      SettledZeroed(x', slot, found);
    }
  }

  /** two operations that are enqueued together */
  lemma SettledPair(x: Bufs, first: Op, second: Op, found: nat -> bool)
    requires Shaped(x) && OpFits(first, x.ring) && OpFits(second, x.ring)
    ensures Shaped(Enqueued(x, [first, second]))
    ensures Settled(Enqueued(x, [first, second]), found)
         == Executed(Pending(Executed(Pending(Settled(x, found), first), Hits(first, found)), second),
           Hits(second, found))
  {
    SettledAppend(x, first, found);
    EnqueuedTwice(x, first, second);
    hide Settled, Executed, Hits, Pending;
    SettledAppend(Enqueued(x, [first]), second, found);
  }

  lemma EnqueuedTwice(x: Bufs, first: Op, second: Op)
    ensures Enqueued(Enqueued(x, [first]), [second]) == Enqueued(x, [first, second])
    ensures Enqueued(x, [first]).ring == x.ring
  {
    assert (x.queue + [first]) + [second] == x.queue + [first, second];
  }

  /** the drained buffers after a launch: the slot holds the matrix of the iteration, and its header reports it
      exactly when the search finds something */
  lemma LaunchedSettles(x: Bufs, iter: nat, found: nat -> bool)
    requires Shaped(x) && NothingInFlight(x, Slot(x.ring, iter)) && x.seedTensor.Some?
    ensures Shaped(Launched(x, iter))
    ensures var (y, slot, a) := (Settled(x, found), Slot(x.ring, iter), RandomA(x.seedTensor.value, iter));
            Settled(Launched(x, iter), found) ==
            y.(a := y.a[slot := a], headers := y.headers[slot := if found(iter) then Some(Report(x.jobTensors, a, y.b))
              else None])
  {
    var slot := Slot(x.ring, iter);
    var z := x.(headers := x.headers[slot := None]);
    var y := Settled(x, found);
    assert Launched(x, iter) == Enqueued(z, [Fill(slot, iter), Search(slot, iter)]);
    hide Settled, Executed, NothingInFlight, Pending, Enqueued, Launched;
    SettledZeroed(x, slot, found);
    SettledPair(z, Fill(slot, iter), Search(slot, iter), found);
    FillAndSearch(Settled(z, found), slot, iter, found(iter));
    ReportWritten(y, slot, iter, found(iter));
  }

  lemma ReportWritten(y: Bufs, slot: nat, iter: nat, hit: bool)
    requires slot < |y.headers| && slot < |y.a| && y.seedTensor.Some?
    ensures var (z, a) := (y.(headers := y.headers[slot := None]), RandomA(y.seedTensor.value, iter));
            z.(a := z.a[slot := a], headers := if hit then z.headers[slot := Some(Report(z.jobTensors, a, z.b))]
              else z.headers)
            == y.(a := y.a[slot := a], headers := y.headers[slot := if hit then Some(Report(y.jobTensors, a, y.b))
              else None])
  {
  }

  lemma FillAndSearch(y: Bufs, slot: nat, iter: nat, hit: bool)
    requires Shaped(y) && y.queue == [] && slot < y.ring && y.seedTensor.Some?
    ensures var a := RandomA(y.seedTensor.value, iter);
            && Executed(Pending(Executed(Pending(y, Fill(slot, iter)), false), Search(slot, iter)), hit)
            == y.(a := y.a[slot := a], headers := if hit then y.headers[slot := Some(Report(y.jobTensors, a, y.b))]
              else y.headers)
  {
    var z := Executed(Pending(y, Fill(slot, iter)), false);
    assert z.queue == [];
  }

  /** the drained buffers after a new job is loaded on an idle stream */
  lemma JobSettles(x: Bufs, header: nat, seed: Seed, found: nat -> bool)
    requires Shaped(x) && x.queue == [] && x.cachedHeader != Some(header)
    ensures Shaped(JobLoaded(x, header, seed))
    ensures Settled(JobLoaded(x, header, seed), found) ==
            x.(cachedHeader := Some(header), jobTensors := Some(header), seedTensor := Some(seed),
               b := RandomB(seed, 0), bPinned := RandomB(seed, 0))
  {
    var y := JobLoaded(x, header, seed);
    assert y.queue == [FillB(0), CopyB];
    var y1 := Executed(y, false);
    assert y1.queue == [CopyB];
    assert Settled(y, found) == Settled(y1, found) == Settled(Executed(y1, false), found);
  }

  /** B and its copy on the host are those of the job */
  ghost predicate HoldsJob(x: Bufs) {
    x.seedTensor.Some? && x.jobTensors == x.cachedHeader && x.b == x.bPinned == RandomB(x.seedTensor.value, 0)
  }

  ghost predicate OnlySnapshots(queue: seq<Op>) { forall k :: 0 <= k < |queue| ==> queue[k].SnapshotA? }

  /** `MinerBufs`, with the device memory that its pointers name and the stream of its worker. A caller sees
      its requests in order through `After`, whatever the device has executed so far. */
  class MinerBufs {
    const ringSize: nat
    /** what the search of each iteration finds */
    const found: nat -> bool
    var cachedHeader: Option<nat>
    var jobTensors: Option<nat>
    var seedTensor: Option<Seed>
    var b: Matrix
    var bPinned: Matrix
    var aPool: seq<Matrix>
    var headerPool: seq<Option<Report>>
    var snapshotPool: seq<Matrix>
    var stream: seq<Op>

    ghost function View(): Bufs
      reads this
    {
      Bufs(ringSize, cachedHeader, jobTensors, seedTensor, b, bPinned, aPool, headerPool, snapshotPool, stream)
    }

    /** what every read gives after a synchronization */
    ghost function After(): Bufs
      requires Shaped(View())
      reads this
    {
      Settled(View(), found)
    }

    /** once the stream is drained, the device and the host hold the cached job */
    ghost predicate Valid()
      reads this
    {
      Shaped(View()) && (cachedHeader.Some? ==> HoldsJob(After()))
    }

    constructor (ring: nat, found: nat -> bool)
      requires ring > 0
      ensures Valid() && ringSize == ring && this.found == found
      ensures stream == [] && cachedHeader == None && forall slot :: 0 <= slot < ring ==> headerPool[slot] == None
    {
      ringSize, this.found := ring, found;
      cachedHeader, jobTensors, seedTensor, b, bPinned := None, None, None, Unset, Unset;
      aPool, headerPool, snapshotPool, stream := seq(ring, _ => Unset), seq(ring, _ => None), seq(ring, _ => Unset), [];
    }

    /** On an idle stream; a header has one seed. Afterwards B and its copy are those of the seed. */
    method EnsureForJob(header: nat, seed: Seed)
      requires Valid() && stream == [] && (cachedHeader == Some(header) ==> seedTensor == Some(seed))
      modifies this
      ensures Valid() && View() == JobLoaded(old(View()), header, seed)
      ensures After() == old(After()).(cachedHeader := Some(header), jobTensors := Some(header),
              seedTensor := Some(seed),
                                       b := RandomB(seed, 0), bPinned := RandomB(seed, 0))
    {
      if cachedHeader == Some(header) {
        return;
      }
      JobSettles(View(), header, seed, found);
      jobTensors, seedTensor := Some(header), Some(seed);
      stream := stream + [FillB(0)];
      stream := stream + [CopyB];
      assert stream == old(stream) + [FillB(0), CopyB];
      cachedHeader := Some(header);
    }

    /** With nothing in flight on the slot: afterwards the slot holds the matrix of the iteration, its header
        reports that matrix and the job exactly when the search finds something, and no other slot changes. */
    method MineOneWithGraphs(iter: nat)
      requires Valid() && cachedHeader.Some? && NothingInFlight(View(), Slot(ringSize, iter))
      modifies this
      ensures Valid() && View() == Launched(old(View()), iter)
      ensures var (x, slot, a) := (old(After()), Slot(ringSize, iter), RandomA(seedTensor.value, iter));
              After() == x.(a := x.a[slot := a],
                            headers := x.headers[slot := if found(iter) then Some(Report(cachedHeader, a, x.b))
                              else None])
    {
      LaunchedSettles(View(), iter, found);
      var slot := Slot(ringSize, iter);
      headerPool := headerPool[slot := None];
      stream := stream + [Fill(slot, iter), Search(slot, iter)];
    }

    /** Afterwards the snapshot of the slot is the matrix that the slot holds when all earlier requests are done. */
    method SnapshotAForHit(slot: nat)
      requires Valid() && slot < ringSize
      modifies this
      ensures Valid() && View() == SnapshotTaken(old(View()), slot)
      ensures After() == old(After()).(snapshots := old(After()).snapshots[slot := old(After()).a[slot]])
    {
      SettledAppend(View(), SnapshotA(slot), found);
      stream := stream + [SnapshotA(slot)];
    }

    /** The device takes the next operation of the stream; what callers will see does not change. */
    method Execute()
      requires Valid() && stream != []
      modifies this
      ensures Valid() && View() == Executed(old(View()), Hits(old(stream[0]), found))
      ensures After() == old(After())
    {
      var op := stream[0];
      stream := stream[1..];
      match op
      case FillB(i) => b := if seedTensor.Some? then RandomB(seedTensor.value, i) else Unset;
      case CopyB => bPinned := b;
      case Fill(s, i) => aPool := aPool[s := if seedTensor.Some? then RandomA(seedTensor.value, i) else Unset];
      case Search(s, i) =>
        if found(i) {
          headerPool := headerPool[s := Some(Report(jobTensors, aPool[s], b))];
        }
      case SnapshotA(s) => snapshotPool := snapshotPool[s := aPool[s]];
    }

    /** The device executes any number of operations while the host goes on; snapshots only write snapshots. */
    method Progress(count: nat)
      requires Valid() && count <= |stream|
      modifies this
      ensures Valid() && After() == old(After()) && stream == old(stream[count..])
      ensures cachedHeader == old(cachedHeader) && seedTensor == old(seedTensor)
      ensures old(OnlySnapshots(stream)) ==> View() == old(View()).(snapshots := snapshotPool, queue := stream)
    {
      for i := 0 to count
        invariant Valid() && After() == old(After()) && stream == old(stream[i..])
        invariant cachedHeader == old(cachedHeader) && seedTensor == old(seedTensor)
        invariant old(OnlySnapshots(stream)) ==> View() == old(View()).(snapshots := snapshotPool, queue := stream)
      {
        Execute();
      }
    }

    /** `synchronize`: the stream is drained, and the buffers are what the requests announced */
    method Synchronize()
      requires Valid()
      modifies this
      ensures Valid() && stream == [] && View() == After() == old(After())
    {
      Progress(|stream|);
    }
  }
}
