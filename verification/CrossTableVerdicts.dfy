/** When the whole cross-table argument accepts: for every list of looking entries, neighbours or not, by
    counting pushes and takes; and for every proof that meets the constraints, whoever made its columns. */
module CrossTableVerdicts {
  import opened ConstraintConsumers
  import opened CrossTableData
  import opened CrossTableProofs
  import opened CrossTableVerifier
  import opened CrossTables
  import opened Fields
  import opened HelperColumns
  import opened Lookups

  // ----- Counting -----

  /** the openings taken so far, over all tables */
  function Count(pos: seq<nat>): nat { if pos == [] then 0 else Count(pos[..|pos| - 1]) + pos[|pos| - 1] }

  lemma {:induction false} CountMore(pos: seq<nat>, t: nat)
    requires t < |pos|
    ensures Count(pos[t := pos[t] + 1]) == Count(pos) + 1
  {
    var next, init := pos[t := pos[t] + 1], pos[..|pos| - 1];
    if t == |pos| - 1 {
      assert next[..|next| - 1] == init;
    } else {
      assert next[..|next| - 1] == init[t := init[t] + 1];
      CountMore(init, t);
    }
  }

  lemma {:induction false} CountZeros(n: nat)
    ensures Count(seq(n, _ => 0)) == 0
  {
    if n > 0 {
      var zeros: seq<nat> := seq(n, _ => 0);
      assert zeros[..n - 1] == seq(n - 1, _ => 0);
      CountZeros(n - 1);
    }
  }

  /** every opening taken moves one position by one */
  lemma {:induction false} PopsCount<T>(zs: seq<seq<T>>, pos: seq<nat>, tables: seq<nat>)
    requires |pos| == |zs| && forall k :: 0 <= k < |tables| ==> tables[k] < |zs|
    ensures var r := PopAll(zs, pos, tables); r.Some? ==> Count(r.value.1) == Count(pos) + |tables|
    decreases |tables|
  {
    if tables != [] && pos[tables[0]] < |zs[tables[0]]| {
      CountMore(pos, tables[0]);
      PopsCount(zs, pos[tables[0] := pos[tables[0]] + 1], tables[1..]);
    }
  }

  /** the openings that the comparisons take when all of them succeed */
  function Taken<T>(rs: seq<Round<T>>): nat { if rs == [] then 0 else |rs[0].looking| + 1 + Taken(rs[1..]) }

  lemma RoundCount<T>(f: Field<T>, r: Round<T>, zs: seq<seq<T>>, pos: seq<nat>)
    requires |pos| == |zs| && RoundInRange(r, |zs|)
    ensures var v := CheckRound(f, r, zs, pos); v.Accepted? ==> Count(v.pos) == Count(pos) + |r.looking| + 1
  {
    PopsCount(zs, pos, r.looking);
    var a := PopAll(zs, pos, r.looking);
    if a.Some? {
      PopLength(zs, pos, r.looking);
      PopsCount(zs, a.value.1, [r.looked]);
    }
    hide PopAll;
  }

  lemma {:induction false} RoundsCount<T>(f: Field<T>, rs: seq<Round<T>>, zs: seq<seq<T>>, pos: seq<nat>)
    requires |pos| == |zs| && RoundsInRange(rs, |zs|)
    ensures var v := CheckRounds(f, rs, zs, pos); v.Accepted? ==> Count(v.pos) == Count(pos) + Taken(rs)
    decreases |rs|
  {
    if rs != [] {
      RoundCount(f, rs[0], zs, pos);
      var v := CheckRound(f, rs[0], zs, pos);
      if v.Accepted? {
        RoundsCount(f, rs[1..], zs, v.pos);
      }
    }
  }

  lemma PositionsMore<T>(events: seq<Event<T>>, n: nat)
    requires events != [] && events[|events| - 1].table < n
    ensures var (before, t) := (Positions(events[..|events| - 1], n), events[|events| - 1].table);
            Positions(events, n) == before[t := before[t] + 1]
  {
  }

  lemma {:induction false} QueuesCount<T>(events: seq<Event<T>>, n: nat)
    requires TablesInRange(events, n)
    ensures Count(Positions(events, n)) == |events|
  {
    if events == [] {
      assert Positions(events, n) == seq(n, _ => 0);
      CountZeros(n);
    } else {
      var init, e := events[..|events| - 1], events[|events| - 1];
      hide Queue, Count;
      assert TablesInRange(init, n) && e.table < n;
      QueuesCount(init, n);
      CountMore(Positions(init, n), e.table);
      PositionsMore(events, n);
    }
  }

  // ----- Pushes and takes -----

  /** as many groups as tables, exactly when the entries of each table are neighbours; otherwise more */
  lemma {:induction false} GroupsCount<T>(looking: seq<TableWithColumns<T>>)
    ensures |Groups(looking)| == |Unique(TablesOf(looking))| <==> Adjacent(looking)
  {
    if looking != [] {
      var init, last := looking[..|looking| - 1], looking[|looking| - 1].table;
      GroupsCount(init);
      GroupsAtLeastUnique(init);
      AdjacentInit(looking);
      assert TablesOf(looking)[..|init|] == TablesOf(init);
      LastTable(init);
      GroupsStep(looking);
      UniqueStep(TablesOf(looking));
      hide Groups, Unique, TablesOf, Adjacent;
    }
  }

  lemma RoundsStep<T>(f: Field<T>, ctls: seq<CrossTableLookup<T>>, challenges: seq<Challenge<T>>, extras: map<nat,
                      seq<T>>,
                      index: nat, c: nat)
    requires index < |ctls| && c < |challenges|
    ensures |Jobs(ctls, challenges, index, c)| == |Groups(ctls[index].looking)| + 1
            + |Jobs(ctls, challenges, index, c + 1)|
    ensures Taken(Rounds(f, ctls, extras, |challenges|, index, c))
         == |Unique(TablesOf(ctls[index].looking))| + 1 + Taken(Rounds(f, ctls, extras, |challenges|, index, c + 1))
  {
    var rs := Rounds(f, ctls, extras, |challenges|, index, c);
    assert rs[0] == RoundOf(f, ctls[index], extras, index, c)
      && rs[1..] == Rounds(f, ctls, extras, |challenges|, index, c + 1);
    hide Groups, Unique;
  }

  lemma RoundsSkip<T>(f: Field<T>, ctls: seq<CrossTableLookup<T>>, challenges: seq<Challenge<T>>, extras: map<nat,
                      seq<T>>, index: nat)
    requires index < |ctls|
    ensures Jobs(ctls, challenges, index, |challenges|) == Jobs(ctls, challenges, index + 1, 0)
    ensures Rounds(f, ctls, extras, |challenges|, index, |challenges|)
            == Rounds(f, ctls, extras, |challenges|, index + 1, 0)
  {
  }

  lemma NoMorePushes<T>(f: Field<T>, ctls: seq<CrossTableLookup<T>>, challenges: seq<Challenge<T>>, extras: map<nat,
                        seq<T>>, c: nat)
    requires c <= |challenges|
    ensures Jobs(ctls, challenges, |ctls|, c) == [] && Taken(Rounds(f, ctls, extras, |challenges|, |ctls|, c)) == 0
  {
  }

  /** the prover never pushes fewer openings than the verifier takes */
  lemma {:induction false} PushesCover<T>(f: Field<T>, ctls: seq<CrossTableLookup<T>>, challenges: seq<Challenge<T>>,
                                          extras: map<nat, seq<T>>,
                                          index: nat, c: nat)
    requires index <= |ctls| && c <= |challenges|
    ensures |Jobs(ctls, challenges, index, c)| >= Taken(Rounds(f, ctls, extras, |challenges|, index, c))
    decreases |ctls| - index, |challenges| - c
  {
    hide Jobs, Rounds, Taken, Groups, Unique;
    if index == |ctls| {
      NoMorePushes(f, ctls, challenges, extras, c);
    } else {
      if c == |challenges| {
        RoundsSkip(f, ctls, challenges, extras, index);
        PushesCover(f, ctls, challenges, extras, index + 1, 0);
      } else {
        GroupsAtLeastUnique(ctls[index].looking);
        RoundsStep(f, ctls, challenges, extras, index, c);
        PushesCover(f, ctls, challenges, extras, index, c + 1);
      }
    }
  }

  /** and more when the entries of a table are not neighbours in lookup j */
  lemma {:induction false} MorePushes<T>(f: Field<T>, ctls: seq<CrossTableLookup<T>>, challenges: seq<Challenge<T>>,
                                         extras: map<nat, seq<T>>,
                                         index: nat, c: nat, j: nat)
    requires index <= j < |ctls| && c <= |challenges| && challenges != [] && (index == j ==> c < |challenges|)
    requires !Adjacent(ctls[j].looking)
    ensures |Jobs(ctls, challenges, index, c)| > Taken(Rounds(f, ctls, extras, |challenges|, index, c))
    decreases |ctls| - index, |challenges| - c
  {
    hide Jobs, Rounds, Taken, Groups, Unique, Adjacent;
    if c == |challenges| {
      RoundsSkip(f, ctls, challenges, extras, index);
      MorePushes(f, ctls, challenges, extras, index + 1, 0, j);
    } else {
      GroupsAtLeastUnique(ctls[index].looking);
      RoundsStep(f, ctls, challenges, extras, index, c);
      if index == j {
        GroupsCount(ctls[j].looking);
        PushesCover(f, ctls, challenges, extras, index, c + 1);
      } else {
        MorePushes(f, ctls, challenges, extras, index, c + 1, j);
      }
    }
  }

  // ----- The verdict for every list of entries -----

  /** all openings taken, table by table */
  function AllTaken<T>(data: seq<seq<ZData<T>>>): (r: seq<nat>)
    ensures |r| == |data| && forall t :: 0 <= t < |r| ==> r[t] == |data[t]|
  {
    seq(|data|, t requires 0 <= t < |data| => |data[t]|)
  }

  lemma PushedCount<T>(f: Field<T>, traces: seq<seq<seq<T>>>, events: seq<Event<Job<T>>>, data: seq<seq<ZData<T>>>,
                       c: nat)
    requires AllBuilt(f, traces, events, data, c) && AllJobsFit(traces, events)
    ensures Count(AllTaken(data)) == |events|
  {
    assert TablesInRange(events, |traces|) by {
      forall k | 0 <= k < |events|
        ensures events[k].table < |traces|
      {
        assert JobFits(traces, events[k]);
      }
    }
    QueuesCount(events, |traces|);
    hide Built;
    assert Positions(events, |traces|) == AllTaken(data) by {
      forall t | 0 <= t < |data|
        ensures |Queue(events, t)| == |data[t]|
      {
        assert QueueBuilt(f, traces[t], Queue(events, t), data[t], c);
      }
    }
  }

  /** If the entries of some table are not neighbours, openings are left over in every case: the verifier does
      not accept with all of them consumed. */
  lemma LeftOver<T(!new)>(f: Field<T>, traces: seq<seq<seq<T>>>, ctls: seq<CrossTableLookup<T>>,
                          challenges: seq<Challenge<T>>,
                          extras: map<nat, seq<T>>, data: seq<seq<ZData<T>>>, zs: seq<seq<T>>, c: nat, j: nat)
    requires Prepared(f, traces, ctls, challenges) && AllBuilt(f, traces, Jobs(ctls, challenges, 0, 0), data, c)
    requires challenges != [] && j < |ctls| && !Adjacent(ctls[j].looking) && |zs| == |data|
    requires RoundsInRange(Rounds(f, ctls, extras, |challenges|, 0, 0), |data|)
    ensures CheckRounds(f, Rounds(f, ctls, extras, |challenges|, 0, 0), zs,
            seq(|data|, _ => 0)) != Accepted(AllTaken(data))
  {
    JobsFit(f, traces, ctls, challenges, 0, 0);
    PushedCount(f, traces, Jobs(ctls, challenges, 0, 0), data, c);
    MorePushes(f, ctls, challenges, extras, 0, 0, j);
    RoundsCount(f, Rounds(f, ctls, extras, |challenges|, 0, 0), zs, seq(|data|, _ => 0));
    CountZeros(|data|);
    hide Jobs, Rounds, CheckRounds, Prepared, AllBuilt, Adjacent;
  }

  /** The verdict on the prover's columns, for any looking entries: the verifier accepts and consumes all
      openings exactly when the entries of each table are neighbours in every lookup and every comparison balances. */
  lemma VerdictIff<T(!new)>(f: Field<T>, traces: seq<seq<seq<T>>>, ctls: seq<CrossTableLookup<T>>,
                            challenges: seq<Challenge<T>>,
                            extras: map<nat, seq<T>>, data: seq<seq<ZData<T>>>, c: nat)
    requires Prepared(f, traces, ctls, challenges) && AllBuilt(f, traces, Jobs(ctls, challenges, 0, 0), data, c)
    requires challenges != []
    ensures forall t, k :: 0 <= t < |data| && 0 <= k < |data[t]| ==> data[t][k].z != []
    ensures RoundsInRange(Rounds(f, ctls, extras, |challenges|, 0, 0), |data|)
    ensures CheckRounds(f, Rounds(f, ctls, extras, |challenges|, 0, 0), Openings(data), seq(|data|, _ => 0))
            == Accepted(AllTaken(data))
       <==> AllAdjacent(ctls)
            && forall k :: 0 <= k < |Plays(f, traces, ctls, challenges, extras, 0, 0)| ==>
                 PlayBalanced(f, Plays(f, traces, ctls, challenges, extras, 0, 0)[k])
  {
    BuiltAreOpen(f, traces, Jobs(ctls, challenges, 0, 0), data, c);
    PreparedInRange(f, traces, ctls, challenges);
    RoundsAreInRange(f, ctls, extras, |challenges|, 0, 0, |traces|);
    assert |data| == |traces|;
    assert AllTaken(data) == seq(|data|, t requires 0 <= t < |data| => |data[t]|);
    if AllAdjacent(ctls) {
      CrossTableVerdict(f, traces, ctls, challenges, extras, data, c);
    } else {
      var j :| 0 <= j < |ctls| && !Adjacent(ctls[j].looking);
      LeftOver(f, traces, ctls, challenges, extras, data, Openings(data), c, j);
    }
    hide Plays, Jobs, Rounds, CheckRounds, Prepared, AllBuilt, AllAdjacent, PlayBalanced, AllReady;
  }

  /** Three entries of two tables, the one of the other table in the middle: three openings are pushed for the
      looking side, and two are taken. */
  lemma MiddleEntry<T>(a: TableWithColumns<T>, b: TableWithColumns<T>, d: TableWithColumns<T>)
    requires a.table == d.table == 0 && b.table == 1
    ensures !Adjacent([a, b, d]) && GroupTables(Groups([a, b, d])) == [0, 1, 0] && Unique(TablesOf([a, b, d])) == [0, 1]
  {
    var ts := [a, b, d];
    assert ts[0].table == ts[2].table != ts[1].table;
    assert ts[..2] == [a, b] && [a, b][..1] == [a] && [a][..0] == [];
    assert Groups([a]) == [Group(0, [a])];
    assert Groups([a, b]) == [Group(0, [a]), Group(1, [b])];
    var tables := TablesOf(ts);
    assert tables == [0, 1, 0] && tables[..2] == [0, 1] && [0, 1][..1] == [0] && [0][..0] == [];
    assert Unique([0]) == [0];
    assert Unique([0, 1]) == [0, 1];
  }

  // ----- Columns that meet the constraints -----

  /** columns of any origin that meet the verifier's constraints on all rows, for the entries it checks them against */
  ghost predicate Meets<T(!new)>(f: Field<T>, at: seq<Filters<T>>, table: seq<seq<T>>, job: Job<T>, zd: ZData<T>,
                                 c: nat) {
    && 1 <= c <= 2 && ZShape(job.declared, table, zd.helpers, zd.z, c) && |at| == |zd.z| && AtRows(f, at)
    && zd.challenge == job.challenge && zd.es == job.declared
    && CtlAccepted(f, at, zd.challenge, zd.es, table, zd.helpers, zd.z, c)
  }

  ghost predicate QueueMeets<T(!new)>(f: Field<T>, at: seq<Filters<T>>, table: seq<seq<T>>, jobs: seq<Job<T>>,
                                      zds: seq<ZData<T>>, c: nat) {
    |zds| == |jobs| && forall k :: 0 <= k < |jobs| ==> Meets(f, at, table, jobs[k], zds[k], c)
  }

  /** for every table, as many Z polynomials as it has pushes, each with its constraints met */
  ghost predicate AllMeet<T(!new)>(f: Field<T>, ats: seq<seq<Filters<T>>>, traces: seq<seq<seq<T>>>,
                                   events: seq<Event<Job<T>>>,
                                   data: seq<seq<ZData<T>>>, c: nat) {
    && |data| == |traces| == |ats|
    && forall t :: 0 <= t < |data| ==> QueueMeets(f, ats[t], traces[t], Queue(events, t), data[t], c)
  }

  /** a push whose denominators are not zero, and that is checked against the entries it stands for */
  ghost predicate JobSound<T>(f: Field<T>, traces: seq<seq<seq<T>>>, e: Event<Job<T>>) {
    && JobFits(traces, e) && e.value.declared == e.value.computed
    && AllRegular(f, e.value.challenge, e.value.computed, traces[e.table])
  }

  ghost predicate AllJobsSound<T>(f: Field<T>, traces: seq<seq<seq<T>>>, events: seq<Event<Job<T>>>) {
    forall k :: 0 <= k < |events| ==> JobSound(f, traces, events[k])
  }

  lemma CtlEventsSound<T>(f: Field<T>, traces: seq<seq<seq<T>>>, ctl: CrossTableLookup<T>, ch: Challenge<T>)
    requires CtlReady(f, traces, ctl, ch) && Adjacent(ctl.looking)
    ensures AllJobsSound(f, traces, CtlEvents(ctl, ch))
  {
    CtlEventsFit(f, traces, ctl, ch);
    GroupsFit(f, traces, ctl.looking, ch);
    LookedGroupFits(f, traces, ctl, ch);
    var gs, es := Groups(ctl.looking), CtlEvents(ctl, ch);
    hide CtlReady, Groups, GroupFits, Adjacent, JobFits, AllRegular, CtlFits, CtlRegular;
    forall k | 0 <= k < |es|
      ensures JobSound(f, traces, es[k])
    {
      assert JobFits(traces, es[k]);
      DeclaredIsComputed(ctl, ch, k);
      if k < |gs| {
        GroupIsRegular(f, traces, gs[k], ch);
      } else {
        GroupIsRegular(f, traces, Group(ctl.looked.table, [ctl.looked]), ch);
        assert EntriesFrom([ctl.looked]) == [EntryOf(ctl.looked)];
      }
    }
  }

  lemma {:induction false} JobsSound<T>(f: Field<T>, traces: seq<seq<seq<T>>>, ctls: seq<CrossTableLookup<T>>,
                                        challenges: seq<Challenge<T>>,
                                        index: nat, c: nat)
    requires AllReady(f, traces, ctls, challenges) && AllAdjacent(ctls) && index <= |ctls| && c <= |challenges|
    ensures AllJobsSound(f, traces, Jobs(ctls, challenges, index, c))
    decreases |ctls| - index, |challenges| - c
  {
    hide CtlReady, JobSound, CtlEvents, Adjacent;
    if index < |ctls| {
      if c == |challenges| {
        JobsSound(f, traces, ctls, challenges, index + 1, 0);
      } else {
        assert CtlReady(f, traces, ctls[index], challenges[c]);
        CtlEventsSound(f, traces, ctls[index], challenges[c]);
        JobsSound(f, traces, ctls, challenges, index, c + 1);
      }
    }
  }

  lemma {:induction false} QueueSound<T>(f: Field<T>, traces: seq<seq<seq<T>>>, events: seq<Event<Job<T>>>, t: nat,
                                         k: nat)
    requires AllJobsSound(f, traces, events) && k < |Queue(events, t)|
    ensures JobSound(f, traces, Event(t, Queue(events, t)[k]))
  {
    var init, e := events[..|events| - 1], events[|events| - 1];
    assert JobSound(f, traces, e);
    hide JobSound;
    if k < |Queue(init, t)| {
      QueueSound(f, traces, init, t, k);
    } else {
      assert e == Event(t, Queue(events, t)[k]);
    }
  }

  lemma MeetsIsBuilt<T(!new)>(f: Field<T>, at: seq<Filters<T>>, traces: seq<seq<seq<T>>>, t: nat, job: Job<T>,
                              zd: ZData<T>, c: nat)
    requires IsField(f) && JobSound(f, traces, Event(t, job)) && Meets(f, at, traces[t], job, zd, c)
    ensures Built(f, traces[t], job, zd, c)
  {
    BuiltIffAccepted(f, at, traces[t], job, zd, c);
  }

  /** columns that meet the constraints are the prover's */
  lemma MeetingIsBuilt<T(!new)>(f: Field<T>, ats: seq<seq<Filters<T>>>, traces: seq<seq<seq<T>>>,
                                events: seq<Event<Job<T>>>,
                                data: seq<seq<ZData<T>>>, c: nat)
    requires IsField(f) && AllJobsSound(f, traces, events) && AllMeet(f, ats, traces, events, data, c)
    ensures AllBuilt(f, traces, events, data, c)
  {
    hide IsField, Built, Meets, JobSound, Queue;
    forall t | 0 <= t < |data|
      ensures QueueBuilt(f, traces[t], Queue(events, t), data[t], c)
    {
      assert QueueMeets(f, ats[t], traces[t], Queue(events, t), data[t], c);
      forall k | 0 <= k < |data[t]|
        ensures Built(f, traces[t], Queue(events, t)[k], data[t][k], c)
      {
        QueueSound(f, traces, events, t, k);
        MeetsIsBuilt(f, ats[t], traces, t, Queue(events, t)[k], data[t][k], c);
      }
    }
  }

  /** The verdict on any columns that meet the constraints: it is the first lookup for which the sums over whole
      tables differ, and if none differ, every opening is consumed in push order. */
  lemma VerdictOfMeeting<T(!new)>(f: Field<T>, ats: seq<seq<Filters<T>>>, traces: seq<seq<seq<T>>>,
                                  ctls: seq<CrossTableLookup<T>>,
                                  challenges: seq<Challenge<T>>, extras: map<nat, seq<T>>, data: seq<seq<ZData<T>>>,
                                    c: nat)
    requires Setup(f, traces, ctls, challenges) && AllMeet(f, ats, traces, Jobs(ctls, challenges, 0, 0), data, c)
    ensures forall t, k :: 0 <= t < |data| && 0 <= k < |data[t]| ==> data[t][k].z != []
    ensures RoundsInRange(Rounds(f, ctls, extras, |challenges|, 0, 0), |data|)
    ensures CheckRounds(f, Rounds(f, ctls, extras, |challenges|, 0, 0), Openings(data), seq(|data|, _ => 0)) ==
            match FirstUnbalanced(f, Plays(f, traces, ctls, challenges, extras, 0, 0))
            case None => Accepted(AllTaken(data))
            case Some(i) => Rejected(i)
  {
    JobsSound(f, traces, ctls, challenges, 0, 0);
    MeetingIsBuilt(f, ats, traces, Jobs(ctls, challenges, 0, 0), data, c);
    CrossTableVerdict(f, traces, ctls, challenges, extras, data, c);
    hide *;
    assert AllTaken(data) == seq(|data|, t requires 0 <= t < |data| => |data[t]|);
  }
}
