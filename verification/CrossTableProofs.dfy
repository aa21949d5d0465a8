/** The cross-table argument as a whole: the openings of the prover's columns, or of any columns that meet
    the constraints, against the verifier's comparisons. */
module CrossTableProofs {
  import opened ConstraintConsumers
  import opened CrossTableData
  import opened CrossTableSums
  import opened CrossTableVerifier
  import opened CrossTables
  import opened Fields
  import opened HelperColumns
  import opened Lookups
  import opened Wrappers

  // ----- What the openings are -----

  ghost predicate AllJobsFit<T>(traces: seq<seq<seq<T>>>, events: seq<Event<Job<T>>>) {
    forall k :: 0 <= k < |events| ==> JobFits(traces, events[k])
  }

  ghost function JobTotal<T>(f: Field<T>, traces: seq<seq<seq<T>>>, e: Event<Job<T>>): T
    requires JobFits(traces, e)
  {
    TableTotal(f, e.value.challenge, e.value.computed, traces[e.table])
  }

  /** each push with the sum over the whole table that its Z stands for */
  ghost function Valued<T>(f: Field<T>, traces: seq<seq<seq<T>>>, events: seq<Event<Job<T>>>): (r: seq<Event<T>>)
    requires AllJobsFit(traces, events)
    ensures |r| == |events|
    ensures forall k :: 0 <= k < |r| ==> r[k] == Event(events[k].table, JobTotal(f, traces, events[k]))
  {
    seq(|events|, k requires 0 <= k < |events| => Event(events[k].table, JobTotal(f, traces, events[k])))
  }

  lemma {:induction false} QueueValued<T>(f: Field<T>, traces: seq<seq<seq<T>>>, events: seq<Event<Job<T>>>, t: nat,
                                          k: nat)
    requires AllJobsFit(traces, events)
    ensures |Queue(Valued(f, traces, events), t)| == |Queue(events, t)|
    ensures k < |Queue(events, t)| ==>
              var e := Event(t, Queue(events, t)[k]);
              JobFits(traces, e) && Queue(Valued(f, traces, events), t)[k] == JobTotal(f, traces, e)
  {
    if events != [] {
      var init := events[..|events| - 1];
      assert JobFits(traces, events[|init|]);
      assert AllJobsFit(traces, init);
      hide JobFits, JobTotal;
      var all, some := Valued(f, traces, events), Valued(f, traces, init);
      assert all[..|init|] == some;
      assert all[|init|] == Event(events[|init|].table, JobTotal(f, traces, events[|init|]));
      QueueValued(f, traces, init, t, k);
      hide Valued;
      assert Queue(all, t) == Queue(some, t) + if all[|init|].table == t then [all[|init|].value] else [];
      assert Queue(events, t) == Queue(init, t) + if events[|init|].table == t then [events[|init|].value] else [];
    }
  }

  /** the openings of all Z polynomials on the first row */
  function Openings<T>(data: seq<seq<ZData<T>>>): (r: seq<seq<T>>)
    requires forall t, k :: 0 <= t < |data| && 0 <= k < |data[t]| ==> data[t][k].z != []
    ensures |r| == |data|
    ensures forall t {:trigger r[t]} :: 0 <= t < |r| ==>
              |r[t]| == |data[t]| && forall k :: 0 <= k < |r[t]| ==> r[t][k] == data[t][k].z[0]
  {
    seq(|data|, t requires 0 <= t < |data| => seq(|data[t]|, k requires 0 <= k < |data[t]| => data[t][k].z[0]))
  }

  lemma BuiltOpening<T>(f: Field<T>, table: seq<seq<T>>, job: Job<T>, zd: ZData<T>, c: nat)
    requires Built(f, table, job, zd, c)
    ensures zd.z != [] && zd.z[0] == TableTotal(f, job.challenge, job.computed, table)
  {
    var totals := RowTotals(f, job.challenge, job.computed, table);
    assert totals[0..] == totals;
  }

  lemma BuiltAreOpen<T>(f: Field<T>, traces: seq<seq<seq<T>>>, events: seq<Event<Job<T>>>, data: seq<seq<ZData<T>>>,
                        c: nat)
    requires AllBuilt(f, traces, events, data, c)
    ensures forall t, k :: 0 <= t < |data| && 0 <= k < |data[t]| ==> data[t][k].z != []
  {
    hide Built;
    forall t, k | 0 <= t < |data| && 0 <= k < |data[t]|
      ensures data[t][k].z != []
    {
      assert QueueBuilt(f, traces[t], Queue(events, t), data[t], c);
      BuiltOpening(f, traces[t], Queue(events, t)[k], data[t][k], c);
    }
  }

  lemma OpeningsAreQueues<T>(f: Field<T>, traces: seq<seq<seq<T>>>, events: seq<Event<Job<T>>>,
                             data: seq<seq<ZData<T>>>, c: nat)
    requires AllBuilt(f, traces, events, data, c) && AllJobsFit(traces, events)
    requires forall t, k :: 0 <= t < |data| && 0 <= k < |data[t]| ==> data[t][k].z != []
    ensures AreQueues(Openings(data), Valued(f, traces, events))
  {
    hide Built, Queue, Valued;
    var zs := Openings(data);
    forall t | 0 <= t < |zs|
      ensures zs[t] == Queue(Valued(f, traces, events), t)
    {
      assert QueueBuilt(f, traces[t], Queue(events, t), data[t], c);
      QueueValued(f, traces, events, t, 0);
      forall k: nat | k < |zs[t]|
        ensures zs[t][k] == Queue(Valued(f, traces, events), t)[k]
      {
        QueueValued(f, traces, events, t, k);
        BuiltOpening(f, traces[t], Queue(events, t)[k], data[t][k], c);
      }
    }
  }

  // ----- The comparisons -----

  ghost predicate CtlReady<T>(f: Field<T>, traces: seq<seq<seq<T>>>, ctl: CrossTableLookup<T>, ch: Challenge<T>) {
    CtlFits(traces, ctl) && CtlRegular(f, traces, ctl, ch)
  }

  ghost predicate AllReady<T>(f: Field<T>, traces: seq<seq<seq<T>>>, ctls: seq<CrossTableLookup<T>>,
                              challenges: seq<Challenge<T>>) {
    forall i, k :: 0 <= i < |ctls| && 0 <= k < |challenges| ==> CtlReady(f, traces, ctls[i], challenges[k])
  }

  lemma CtlEventsFit<T>(f: Field<T>, traces: seq<seq<seq<T>>>, ctl: CrossTableLookup<T>, ch: Challenge<T>)
    requires CtlReady(f, traces, ctl, ch)
    ensures AllJobsFit(traces, GroupEvents(ctl.looking, Groups(ctl.looking), ch))
            && JobFits(traces, LookedEvent(ctl, ch))
    ensures AllJobsFit(traces, CtlEvents(ctl, ch))
  {
    GroupsFit(f, traces, ctl.looking, ch);
    LookedGroupFits(f, traces, ctl, ch);
    var gs := Groups(ctl.looking);
    hide GroupFits, CtlFits, CtlRegular, Groups;
    forall k | 0 <= k < |gs|
      ensures JobFits(traces, GroupEvent(ctl.looking, gs[k], ch))
    {
      GroupIsRegular(f, traces, gs[k], ch);
      GroupNotEmpty(f, traces, gs[k], ch);
    }
    GroupIsRegular(f, traces, Group(ctl.looked.table, [ctl.looked]), ch);
    assert EntriesFrom([ctl.looked]) == [EntryOf(ctl.looked)];
  }

  lemma GroupNotEmpty<T>(f: Field<T>, traces: seq<seq<seq<T>>>, g: Group<T>, ch: Challenge<T>)
    requires GroupFits(f, traces, g, ch)
    ensures g.ts != []
  {
  }

  lemma {:induction false} JobsFit<T>(f: Field<T>, traces: seq<seq<seq<T>>>, ctls: seq<CrossTableLookup<T>>,
                                      challenges: seq<Challenge<T>>,
                                      index: nat, c: nat)
    requires AllReady(f, traces, ctls, challenges) && index <= |ctls| && c <= |challenges|
    ensures AllJobsFit(traces, Jobs(ctls, challenges, index, c))
    decreases |ctls| - index, |challenges| - c
  {
    hide CtlReady, JobFits, CtlEvents;
    if index < |ctls| {
      if c == |challenges| {
        JobsFit(f, traces, ctls, challenges, index + 1, 0);
      } else {
        CtlEventsFit(f, traces, ctls[index], challenges[c]);
        JobsFit(f, traces, ctls, challenges, index, c + 1);
      }
    }
  }

  /** the openings of one lookup and one challenge, as the prover pushes them */
  ghost function PlayOf<T>(f: Field<T>, traces: seq<seq<seq<T>>>, ctl: CrossTableLookup<T>, ch: Challenge<T>, extra: T,
                           index: nat): Play<T>
    requires CtlReady(f, traces, ctl, ch)
  {
    CtlEventsFit(f, traces, ctl, ch);
    Play(Valued(f, traces, GroupEvents(ctl.looking, Groups(ctl.looking), ch)),
         Event(ctl.looked.table, JobTotal(f, traces, LookedEvent(ctl, ch))), extra, index)
  }

  ghost function Plays<T>(f: Field<T>, traces: seq<seq<seq<T>>>, ctls: seq<CrossTableLookup<T>>,
                          challenges: seq<Challenge<T>>,
                          extras: map<nat, seq<T>>, index: nat, c: nat): seq<Play<T>>
    requires AllReady(f, traces, ctls, challenges) && index <= |ctls| && c <= |challenges|
    decreases |ctls| - index, |challenges| - c
  {
    if index == |ctls| then []
    else if c == |challenges| then Plays(f, traces, ctls, challenges, extras, index + 1, 0)
    else
      [PlayOf(f, traces, ctls[index], challenges[c], ExtraSum(f, extras, index, c), index)]
      + Plays(f, traces, ctls, challenges, extras, index, c + 1)
  }

  lemma PlayMatches<T>(f: Field<T>, traces: seq<seq<seq<T>>>, ctl: CrossTableLookup<T>, ch: Challenge<T>,
                       extras: map<nat, seq<T>>, index: nat, c: nat)
    requires CtlReady(f, traces, ctl, ch) && Adjacent(ctl.looking)
    ensures var p := PlayOf(f, traces, ctl, ch, ExtraSum(f, extras, index, c), index);
            && AllJobsFit(traces, CtlEvents(ctl, ch)) && PlayEvents(p) == Valued(f, traces, CtlEvents(ctl, ch))
            && PlayedRound(p) == RoundOf(f, ctl, extras, index, c)
  {
    CtlEventsFit(f, traces, ctl, ch);
    GroupsAreUnique(ctl.looking);
    var p := PlayOf(f, traces, ctl, ch, ExtraSum(f, extras, index, c), index);
    hide CtlReady, Groups, JobTotal, JobFits;
    assert PlayEvents(p) == Valued(f, traces, CtlEvents(ctl, ch));
    assert EventTables(p.looking) == GroupTables(Groups(ctl.looking));
  }

  /** the pushes are the events of the comparisons, and the comparisons are the verifier's */
  ghost predicate Matched<T>(f: Field<T>, traces: seq<seq<seq<T>>>, ctls: seq<CrossTableLookup<T>>,
                             challenges: seq<Challenge<T>>,
                             extras: map<nat, seq<T>>, index: nat, c: nat)
    requires AllReady(f, traces, ctls, challenges) && index <= |ctls| && c <= |challenges|
  {
    && AllJobsFit(traces, Jobs(ctls, challenges, index, c))
    && AllEvents(Plays(f, traces, ctls, challenges, extras, index, c))
       == Valued(f, traces, Jobs(ctls, challenges, index, c))
    && PlayedRounds(Plays(f, traces, ctls, challenges, extras, index, c))
       == Rounds(f, ctls, extras, |challenges|, index, c)
  }

  lemma {:induction false} PlaysMatch<T>(f: Field<T>, traces: seq<seq<seq<T>>>, ctls: seq<CrossTableLookup<T>>,
                                         challenges: seq<Challenge<T>>,
                                         extras: map<nat, seq<T>>, index: nat, c: nat)
    requires AllReady(f, traces, ctls, challenges) && index <= |ctls| && c <= |challenges|
    requires AllAdjacent(ctls)
    ensures Matched(f, traces, ctls, challenges, extras, index, c)
    decreases |ctls| - index, |challenges| - c
  {
    hide *;
    if index == |ctls| {
      MatchedEnd(f, traces, ctls, challenges, extras, c);
    } else if c == |challenges| {
      PlaysMatch(f, traces, ctls, challenges, extras, index + 1, 0);
      MatchedNext(f, traces, ctls, challenges, extras, index);
    } else {
      PlaysMatch(f, traces, ctls, challenges, extras, index, c + 1);
      NeighboursAt(ctls, index);
      MatchedAhead(f, traces, ctls, challenges, extras, index, c);
    }
  }

  lemma NeighboursAt<T>(ctls: seq<CrossTableLookup<T>>, i: nat)
    requires AllAdjacent(ctls) && i < |ctls|
    ensures Adjacent(ctls[i].looking)
  {
  }

  lemma MatchedEnd<T>(f: Field<T>, traces: seq<seq<seq<T>>>, ctls: seq<CrossTableLookup<T>>,
                      challenges: seq<Challenge<T>>,
                      extras: map<nat, seq<T>>, c: nat)
    requires AllReady(f, traces, ctls, challenges) && c <= |challenges|
    ensures Matched(f, traces, ctls, challenges, extras, |ctls|, c)
  {
    hide AllReady, JobFits, JobTotal, Adjacent;
    assert Valued(f, traces, Jobs(ctls, challenges, |ctls|, c)) == [];
  }

  lemma MatchedNext<T>(f: Field<T>, traces: seq<seq<seq<T>>>, ctls: seq<CrossTableLookup<T>>,
                       challenges: seq<Challenge<T>>,
                       extras: map<nat, seq<T>>, index: nat)
    requires AllReady(f, traces, ctls, challenges) && index < |ctls|
             && Matched(f, traces, ctls, challenges, extras, index + 1, 0)
    ensures Matched(f, traces, ctls, challenges, extras, index, |challenges|)
  {
    hide AllReady, PlayOf, CtlEvents, RoundOf, JobFits, AllEvents, PlayedRounds, Valued, AllJobsFit;
  }

  lemma MatchedAhead<T>(f: Field<T>, traces: seq<seq<seq<T>>>, ctls: seq<CrossTableLookup<T>>,
                        challenges: seq<Challenge<T>>,
                        extras: map<nat, seq<T>>, index: nat, c: nat)
    requires AllReady(f, traces, ctls, challenges) && index < |ctls| && c < |challenges|
             && Adjacent(ctls[index].looking)
    requires Matched(f, traces, ctls, challenges, extras, index, c + 1)
    ensures Matched(f, traces, ctls, challenges, extras, index, c)
  {
    assert CtlReady(f, traces, ctls[index], challenges[c]);
    hide CtlReady, JobFits, CtlEvents, PlayOf, RoundOf, JobTotal, PlayEvents, PlayedRound, AllReady, ExtraSum, Adjacent;
    PlayMatches(f, traces, ctls[index], challenges[c], extras, index, c);
    FirstPlay(PlayOf(f, traces, ctls[index], challenges[c], ExtraSum(f, extras, index, c), index),
              Plays(f, traces, ctls, challenges, extras, index, c + 1));
    ValuedConcat(f, traces, CtlEvents(ctls[index], challenges[c]), Jobs(ctls, challenges, index, c + 1));
    hide AllEvents, PlayedRounds, Valued, AllJobsFit;
  }

  lemma FirstPlay<T>(p: Play<T>, ps: seq<Play<T>>)
    ensures AllEvents([p] + ps) == PlayEvents(p) + AllEvents(ps)
    ensures PlayedRounds([p] + ps) == [PlayedRound(p)] + PlayedRounds(ps)
  {
    assert ([p] + ps)[1..] == ps;
  }

  lemma ValuedConcat<T>(f: Field<T>, traces: seq<seq<seq<T>>>, a: seq<Event<Job<T>>>, b: seq<Event<Job<T>>>)
    requires AllJobsFit(traces, a) && AllJobsFit(traces, b)
    ensures AllJobsFit(traces, a + b) && Valued(f, traces, a + b) == Valued(f, traces, a) + Valued(f, traces, b)
  {
    hide JobFits, JobTotal;
  }

  // ----- The verdict -----

  ghost predicate Prepared<T(!new)>(f: Field<T>, traces: seq<seq<seq<T>>>, ctls: seq<CrossTableLookup<T>>,
                                    challenges: seq<Challenge<T>>) {
    IsField(f) && AllReady(f, traces, ctls, challenges) && forall i :: 0 <= i < |ctls| ==> CtlFits(traces, ctls[i])
  }

  /** the entries of each table are neighbours in every lookup */
  ghost predicate AllAdjacent<T>(ctls: seq<CrossTableLookup<T>>) {
    forall i :: 0 <= i < |ctls| ==> Adjacent(ctls[i].looking)
  }

  ghost predicate Setup<T(!new)>(f: Field<T>, traces: seq<seq<seq<T>>>, ctls: seq<CrossTableLookup<T>>,
                                 challenges: seq<Challenge<T>>) {
    Prepared(f, traces, ctls, challenges) && AllAdjacent(ctls)
  }

  lemma PreparedInRange<T(!new)>(f: Field<T>, traces: seq<seq<seq<T>>>, ctls: seq<CrossTableLookup<T>>,
                                 challenges: seq<Challenge<T>>)
    requires Prepared(f, traces, ctls, challenges)
    ensures CtlsInRange(ctls, |traces|)
  {
    forall i | 0 <= i < |ctls|
      ensures CtlInRange(ctls[i], |traces|)
    {
      assert CtlFits(traces, ctls[i]);
    }
  }

  /** The verdict on the first-row openings: no opening is ever missing; it is the first lookup for which
      the sums differ, and if none differ, each table's openings are consumed in push order to the last. */
  lemma CrossTableVerdict<T(!new)>(f: Field<T>, traces: seq<seq<seq<T>>>, ctls: seq<CrossTableLookup<T>>,
                                   challenges: seq<Challenge<T>>,
                                   extras: map<nat, seq<T>>, data: seq<seq<ZData<T>>>, c: nat)
    requires Setup(f, traces, ctls, challenges) && AllBuilt(f, traces, Jobs(ctls, challenges, 0, 0), data, c)
    ensures forall t, k :: 0 <= t < |data| && 0 <= k < |data[t]| ==> data[t][k].z != []
    ensures RoundsInRange(Rounds(f, ctls, extras, |challenges|, 0, 0), |data|)
    ensures CheckRounds(f, Rounds(f, ctls, extras, |challenges|, 0, 0), Openings(data), seq(|data|, _ => 0)) ==
            match FirstUnbalanced(f, Plays(f, traces, ctls, challenges, extras, 0, 0))
            case None => Accepted(seq(|data|, t requires 0 <= t < |data| => |data[t]|))
            case Some(i) => Rejected(i)
  {
    var events, ps := Jobs(ctls, challenges, 0, 0), Plays(f, traces, ctls, challenges, extras, 0, 0);
    BuiltAreOpen(f, traces, events, data, c);
    PlaysMatch(f, traces, ctls, challenges, extras, 0, 0);
    OpeningsAreQueues(f, traces, events, data, c);
    PreparedInRange(f, traces, ctls, challenges);
    RoundsAreInRange(f, ctls, extras, |challenges|, 0, 0, |data|);
    hide Plays, Jobs, Rounds, CheckRounds, FirstUnbalanced, Prepared, Setup, AllReady, AllAdjacent;
    var zs, all := Openings(data), Valued(f, traces, events);
    assert AllBuilt(f, traces, events, data, c) && |data| == |traces|;
    ValuedInRange(f, traces, events);
    HonestOpenings(f, ps, zs, [] + []) by { assert ([] + []) + AllEvents(ps) == all; }
    assert [] + AllEvents(ps) == all;
    StartAndEnd(zs, all, data);
  }

  lemma ValuedInRange<T>(f: Field<T>, traces: seq<seq<seq<T>>>, events: seq<Event<Job<T>>>)
    requires AllJobsFit(traces, events)
    ensures TablesInRange(Valued(f, traces, events), |traces|)
  {
    forall k | 0 <= k < |events|
      ensures events[k].table < |traces|
    {
      assert JobFits(traces, events[k]);
    }
  }

  lemma StartAndEnd<T>(zs: seq<seq<T>>, all: seq<Event<T>>, data: seq<seq<ZData<T>>>)
    requires AreQueues(zs, all) && |zs| == |data| && forall t :: 0 <= t < |zs| ==> |zs[t]| == |data[t]|
    ensures Positions<T>([] + [], |zs|) == seq(|data|, _ => 0)
    ensures Positions(all, |zs|) == seq(|data|, t requires 0 <= t < |data| => |data[t]|)
  {
    forall t | 0 <= t < |zs|
      ensures |Queue(all, t)| == |data[t]|
    {
      assert zs[t] == Queue(all, t);
    }
  }

  /** Built columns are accepted columns: the constraints on all rows pin a Z and its helpers down, so that
      the verdict above holds for every proof that meets them. */
  lemma BuiltIffAccepted<T(!new)>(f: Field<T>, at: seq<Filters<T>>, table: seq<seq<T>>, job: Job<T>, zd: ZData<T>,
                                  c: nat)
    requires IsField(f) && 1 <= c <= 2 && ZShape(job.computed, table, zd.helpers, zd.z, c)
    requires AllRegular(f, job.challenge, job.computed, table) && |at| == |zd.z| && AtRows(f, at)
    requires zd.challenge == job.challenge && zd.es == job.declared
    ensures Built(f, table, job, zd, c) <==> CtlAccepted(f, at, job.challenge, job.computed, table, zd.helpers, zd.z, c)
  {
    CtlAcceptedIff(f, at, job.challenge, job.computed, table, zd.helpers, zd.z, c);
  }

  /** the entries that a Z is checked against are those that it was computed from */
  lemma DeclaredIsComputed<T>(ctl: CrossTableLookup<T>, ch: Challenge<T>, k: nat)
    requires Adjacent(ctl.looking) && k < |CtlEvents(ctl, ch)|
    ensures CtlEvents(ctl, ch)[k].value.declared == CtlEvents(ctl, ch)[k].value.computed
  {
    if k < |Groups(ctl.looking)| {
      GroupIsComplete(ctl.looking, k);
    }
  }

  // ----- From the traces to the sums -----

  ghost predicate AllGroupsFit<T>(f: Field<T>, traces: seq<seq<seq<T>>>, gs: seq<Group<T>>, ch: Challenge<T>) {
    forall k :: 0 <= k < |gs| ==> GroupFits(f, traces, gs[k], ch)
  }

  ghost function GroupTotals<T>(f: Field<T>, traces: seq<seq<seq<T>>>, gs: seq<Group<T>>, ch: Challenge<T>): (r: seq<T>)
    requires AllGroupsFit(f, traces, gs, ch)
    ensures |r| == |gs|
    ensures forall k :: 0 <= k < |gs| ==> r[k] == GroupTotal(f, traces, gs[k], ch)
  {
    seq(|gs|, k requires 0 <= k < |gs| => GroupTotal(f, traces, gs[k], ch))
  }

  ghost function GroupTotal<T>(f: Field<T>, traces: seq<seq<seq<T>>>, g: Group<T>, ch: Challenge<T>): T
    requires GroupFits(f, traces, g, ch)
  {
    GroupIsRegular(f, traces, g, ch);
    TableTotal(f, ch, EntriesFrom(g.ts), traces[g.table])
  }

  ghost predicate LookingReady<T>(f: Field<T>, traces: seq<seq<seq<T>>>, looking: seq<TableWithColumns<T>>,
                                  ch: Challenge<T>) {
    forall k :: 0 <= k < |looking| ==>
      Fits(traces, looking[k]) && TableRegular(f, traces, looking[k], ch) && Binary(f, traces, looking[k])
  }

  /** a group with one more entry */
  lemma GroupMore<T(!new)>(f: Field<T>, traces: seq<seq<seq<T>>>, g: Group<T>, t: TableWithColumns<T>, ch: Challenge<T>)
    requires IsField(f) && GroupFits(f, traces, g, ch) && t.table == g.table
    requires Fits(traces, t) && TableRegular(f, traces, t, ch) && Binary(f, traces, t)
    ensures GroupFits(f, traces, Group(g.table, g.ts + [t]), ch)
    ensures GroupTotal(f, traces, Group(g.table, g.ts + [t]), ch) ==
            f.Add(GroupTotal(f, traces, g, ch), InverseSum(f, ch, SelectedRows(f, traces, t)))
  {
    var more := Group(g.table, g.ts + [t]);
    assert GroupFits(f, traces, more, ch);
    GroupIsRegular(f, traces, g, ch);
    GroupIsRegular(f, traces, more, ch);
    hide GroupFits, TableRegular, Binary;
    assert EntriesFrom(more.ts) == EntriesFrom(g.ts) + [EntryOf(t)];
    TotalOfMore(f, ch, EntriesFrom(g.ts), EntryOf(t), traces[g.table]);
    TotalOfOne(f, ch, traces, t);
  }

  lemma GroupOne<T(!new)>(f: Field<T>, traces: seq<seq<seq<T>>>, t: TableWithColumns<T>, ch: Challenge<T>)
    requires IsField(f) && Fits(traces, t) && TableRegular(f, traces, t, ch) && Binary(f, traces, t)
    ensures GroupFits(f, traces, Group(t.table, [t]), ch)
    ensures GroupTotal(f, traces, Group(t.table, [t]), ch) == InverseSum(f, ch, SelectedRows(f, traces, t))
  {
    assert GroupFits(f, traces, Group(t.table, [t]), ch);
    GroupIsRegular(f, traces, Group(t.table, [t]), ch);
    assert EntriesFrom([t]) == [EntryOf(t)];
    TotalOfOne(f, ch, traces, t);
  }

  /** the totals of all groups are the inverses of all selected rows, however the entries are grouped */
  lemma {:induction false} GroupsTotal<T(!new)>(f: Field<T>, traces: seq<seq<seq<T>>>,
                                                looking: seq<TableWithColumns<T>>, ch: Challenge<T>)
    requires IsField(f) && LookingReady(f, traces, looking, ch)
    ensures AllFit(traces, looking) && AllGroupsFit(f, traces, Groups(looking), ch)
    ensures Sum(f, GroupTotals(f, traces, Groups(looking), ch)) == InverseSum(f, ch, LookingRows(f, traces, looking))
  {
    GroupsFit(f, traces, looking, ch);
    if looking != [] {
      var init, last := looking[..|looking| - 1], looking[|looking| - 1];
      GroupsTotal(f, traces, init, ch);
      InverseSumConcat(f, ch, LookingRows(f, traces, init), SelectedRows(f, traces, last));
      GroupsExtended(f, traces, looking, ch);
    }
  }

  lemma GroupsExtended<T(!new)>(f: Field<T>, traces: seq<seq<seq<T>>>, looking: seq<TableWithColumns<T>>,
                                ch: Challenge<T>)
    requires IsField(f) && LookingReady(f, traces, looking, ch) && looking != []
    requires AllGroupsFit(f, traces, Groups(looking), ch)
             && AllGroupsFit(f, traces, Groups(looking[..|looking| - 1]), ch)
    ensures Fits(traces, looking[|looking| - 1])
    ensures Sum(f, GroupTotals(f, traces, Groups(looking), ch)) ==
            f.Add(Sum(f, GroupTotals(f, traces, Groups(looking[..|looking| - 1]), ch)),
              InverseSum(f, ch, SelectedRows(f, traces, looking[|looking| - 1])))
  {
    var last := looking[|looking| - 1];
    var gs, all := Groups(looking[..|looking| - 1]), Groups(looking);
    assert all == if gs != [] && gs[|gs| - 1].table == last.table then
      gs[..|gs| - 1] + [Group(last.table, gs[|gs| - 1].ts + [last])]
                  else gs + [Group(last.table, [last])];
    hide Groups, SelectedRows, InverseSum;
    if gs != [] && gs[|gs| - 1].table == last.table {
      GroupMore(f, traces, gs[|gs| - 1], last, ch);
      LastTotalChanged(f, traces, gs, all[|gs| - 1], ch, InverseSum(f, ch, SelectedRows(f, traces, last)));
    } else {
      GroupOne(f, traces, last, ch);
      TotalAppended(f, traces, gs, Group(last.table, [last]), ch);
    }
  }

  lemma LastTotalChanged<T(!new)>(f: Field<T>, traces: seq<seq<seq<T>>>, gs: seq<Group<T>>, g: Group<T>,
                                  ch: Challenge<T>, x: T)
    requires IsField(f) && AllGroupsFit(f, traces, gs, ch) && gs != [] && GroupFits(f, traces, g, ch)
    requires GroupTotal(f, traces, g, ch) == f.Add(GroupTotal(f, traces, gs[|gs| - 1], ch), x)
    ensures AllGroupsFit(f, traces, gs[..|gs| - 1] + [g], ch)
    ensures Sum(f, GroupTotals(f, traces, gs[..|gs| - 1] + [g], ch)) == f.Add(Sum(f, GroupTotals(f, traces, gs, ch)), x)
  {
    var all := gs[..|gs| - 1] + [g];
    hide GroupFits, GroupTotal, IsField, Sum;
    assert AllGroupsFit(f, traces, all, ch);
    var a, b := GroupTotals(f, traces, gs, ch), GroupTotals(f, traces, all, ch);
    assert b[..|a| - 1] == a[..|a| - 1];
    TotalsExtended(f, a, b, x, true);
  }

  lemma TotalAppended<T(!new)>(f: Field<T>, traces: seq<seq<seq<T>>>, gs: seq<Group<T>>, g: Group<T>, ch: Challenge<T>)
    requires IsField(f) && AllGroupsFit(f, traces, gs, ch) && GroupFits(f, traces, g, ch)
    ensures AllGroupsFit(f, traces, gs + [g], ch)
    ensures Sum(f, GroupTotals(f, traces, gs + [g], ch))
            == f.Add(Sum(f, GroupTotals(f, traces, gs, ch)), GroupTotal(f, traces, g, ch))
  {
    hide GroupFits, GroupTotal, IsField, Sum;
    assert AllGroupsFit(f, traces, gs + [g], ch);
    var a, b := GroupTotals(f, traces, gs, ch), GroupTotals(f, traces, gs + [g], ch);
    assert b == a + [GroupTotal(f, traces, g, ch)];
    TotalsExtended(f, a, b, GroupTotal(f, traces, g, ch), false);
  }

  /** a value added to the last of some totals, or after them, is added to their sum */
  lemma TotalsExtended<T(!new)>(f: Field<T>, a: seq<T>, b: seq<T>, x: T, join: bool)
    requires IsField(f)
    requires join ==> a != [] && |b| == |a| && b[..|a| - 1] == a[..|a| - 1] && b[|a| - 1] == f.Add(a[|a| - 1], x)
    requires !join ==> b == a + [x]
    ensures Sum(f, b) == f.Add(Sum(f, a), x)
  {
    SumOne(f, x);
    if join {
      var init, y := a[..|a| - 1], a[|a| - 1];
      SumOne(f, y);
      SumOne(f, f.Add(y, x));
      SumAppend(f, init, [y]);
      SumAppend(f, init, [f.Add(y, x)]);
      assert Law(f, Sum(f, init), y, x);
      hide Sum, IsField;
      assert a == init + [y] && b == init + [f.Add(y, x)];
    } else {
      SumAppend(f, a, [x]);
    }
  }

  /** consistent traces balance every comparison, when the extra sum is that of the extra rows */
  lemma ConsistentIsBalanced<T(!new)>(f: Field<T>, traces: seq<seq<seq<T>>>, ctl: CrossTableLookup<T>, ch: Challenge<T>,
                                      extraRows: seq<seq<T>>, extra: T, index: nat)
    requires IsField(f) && CtlReady(f, traces, ctl, ch) && Consistent(f, traces, ctl, extraRows)
    requires extra == InverseSum(f, ch, extraRows)
    ensures PlayBalanced(f, PlayOf(f, traces, ctl, ch, extra, index))
  {
    assert LookingReady(f, traces, ctl.looking, ch);
    GroupsTotal(f, traces, ctl.looking, ch);
    GroupOne(f, traces, ctl.looked, ch);
    CtlEventsFit(f, traces, ctl, ch);
    InverseSumConcat(f, ch, LookingRows(f, traces, ctl.looking), extraRows);
    InverseSumOfMultiset(f, ch, LookingRows(f, traces, ctl.looking) + extraRows, SelectedRows(f, traces, ctl.looked));
    PlayTotals(f, traces, ctl, ch, extra, index);
  }

  lemma PlayTotals<T(!new)>(f: Field<T>, traces: seq<seq<seq<T>>>, ctl: CrossTableLookup<T>, ch: Challenge<T>, extra: T,
                            index: nat)
    requires CtlReady(f, traces, ctl, ch)
    ensures AllGroupsFit(f, traces, Groups(ctl.looking), ch)
    ensures GroupFits(f, traces, Group(ctl.looked.table, [ctl.looked]), ch)
    ensures var p := PlayOf(f, traces, ctl, ch, extra, index);
            && EventValues(p.looking) == GroupTotals(f, traces, Groups(ctl.looking), ch)
            && p.looked.value == GroupTotal(f, traces, Group(ctl.looked.table, [ctl.looked]), ch)
            && p.extra == extra
  {
    GroupsFit(f, traces, ctl.looking, ch);
    LookedGroupFits(f, traces, ctl, ch);
    CtlEventsFit(f, traces, ctl, ch);
    assert EntriesFrom([ctl.looked]) == [EntryOf(ctl.looked)];
    var p := PlayOf(f, traces, ctl, ch, extra, index);
    hide CtlReady, Groups, GroupFits;
    assert EventValues(p.looking) == GroupTotals(f, traces, Groups(ctl.looking), ch);
  }

  /** the sums that the verifier is given for a lookup are those of its extra rows, one for each challenge, and a
      lookup that is given none has extra rows that sum to nothing */
  ghost predicate ExtrasMatch<T>(f: Field<T>, challenges: seq<Challenge<T>>, extras: map<nat, seq<T>>,
                                 extraRows: seq<seq<seq<T>>>) {
    forall i: nat, k: nat :: i < |extraRows| && k < |challenges| ==>
      && (i in extras ==> k < |extras[i]| && extras[i][k] == InverseSum(f, challenges[k], extraRows[i]))
      && (i !in extras ==> InverseSum(f, challenges[k], extraRows[i]) == f.zero)
  }

  lemma ExtraOfRows<T>(f: Field<T>, challenges: seq<Challenge<T>>, extras: map<nat, seq<T>>,
                       extraRows: seq<seq<seq<T>>>, i: nat, k: nat)
    requires ExtrasMatch(f, challenges, extras, extraRows) && i < |extraRows| && k < |challenges|
    ensures ExtraSum(f, extras, i, k) == InverseSum(f, challenges[k], extraRows[i])
  {
    hide InverseSum;
  }

  lemma {:induction false} AllPlaysBalanced<T(!new)>(f: Field<T>, traces: seq<seq<seq<T>>>,
                                                     ctls: seq<CrossTableLookup<T>>,
      challenges: seq<Challenge<T>>, extras: map<nat, seq<T>>, extraRows: seq<seq<seq<T>>>, index: nat, c: nat)
    requires Setup(f, traces, ctls, challenges) && |extraRows| == |ctls|
             && ExtrasMatch(f, challenges, extras, extraRows)
    requires forall i :: 0 <= i < |ctls| ==> Consistent(f, traces, ctls[i], extraRows[i])
    requires index <= |ctls| && c <= |challenges|
    ensures FirstUnbalanced(f, Plays(f, traces, ctls, challenges, extras, index, c)) == None
    decreases |ctls| - index, |challenges| - c
  {
    hide CtlReady, Consistent, PlayOf, ExtraSum, ExtrasMatch, PlayBalanced, Adjacent, CtlFits, IsField, InverseSum;
    if index < |ctls| {
      if c == |challenges| {
        AllPlaysBalanced(f, traces, ctls, challenges, extras, extraRows, index + 1, 0);
      } else {
        AllPlaysBalanced(f, traces, ctls, challenges, extras, extraRows, index, c + 1);
        assert CtlReady(f, traces, ctls[index], challenges[c]);
        ExtraOfRows(f, challenges, extras, extraRows, index, c);
        ConsistentIsBalanced(f, traces, ctls[index], challenges[c], extraRows[index], ExtraSum(f, extras, index, c),
          index);
        var ps := Plays(f, traces, ctls, challenges, extras, index, c);
        assert ps[1..] == Plays(f, traces, ctls, challenges, extras, index, c + 1);
      }
    }
  }

  /** Completeness: if the debug check passes on every lookup, the verifier accepts the first-row openings
      of the prover's columns and consumes all of them. */
  lemma CrossTableComplete<T(!new)>(f: Field<T>, traces: seq<seq<seq<T>>>, ctls: seq<CrossTableLookup<T>>,
                                    challenges: seq<Challenge<T>>,
                                    extras: map<nat, seq<T>>, extraRows: seq<seq<seq<T>>>, data: seq<seq<ZData<T>>>,
                                      c: nat)
    requires Setup(f, traces, ctls, challenges) && AllBuilt(f, traces, Jobs(ctls, challenges, 0, 0), data, c)
    requires |extraRows| == |ctls| && ExtrasMatch(f, challenges, extras, extraRows)
    requires forall i :: 0 <= i < |ctls| ==> Consistent(f, traces, ctls[i], extraRows[i])
    ensures forall t, k :: 0 <= t < |data| && 0 <= k < |data[t]| ==> data[t][k].z != []
    ensures RoundsInRange(Rounds(f, ctls, extras, |challenges|, 0, 0), |data|)
    ensures CheckRounds(f, Rounds(f, ctls, extras, |challenges|, 0, 0), Openings(data), seq(|data|, _ => 0)) ==
            Accepted(seq(|data|, t requires 0 <= t < |data| => |data[t]|))
  {
    CrossTableVerdict(f, traces, ctls, challenges, extras, data, c);
    AllPlaysBalanced(f, traces, ctls, challenges, extras, extraRows, 0, 0);
  }
}
