/** The prover of cross-table lookups: one Z for each run of looking entries of the same table and one for
    the looked table, pushed to the tables in order; and the completeness of the whole argument. */
module CrossTableData {
  import opened Columns
  import opened CrossTableSums
  import opened CrossTableVerifier
  import opened CrossTables
  import opened Fields
  import opened HelperColumns

  // ----- Grouping of the looking tables -----

  /** a run of looking entries of one table */
  datatype Group<T> = Group(table: nat, ts: seq<TableWithColumns<T>>)

  /** `group_by` joins neighbours only */
  function Groups<T>(looking: seq<TableWithColumns<T>>): seq<Group<T>> {
    if looking == [] then []
    else
      var gs, last := Groups(looking[..|looking| - 1]), looking[|looking| - 1];
      if gs != [] && gs[|gs| - 1].table == last.table
      then gs[..|gs| - 1] + [Group(last.table, gs[|gs| - 1].ts + [last])]
      else gs + [Group(last.table, [last])]
  }

  function GroupTables<T>(gs: seq<Group<T>>): (r: seq<nat>)
    ensures |r| == |gs| && forall k :: 0 <= k < |r| ==> r[k] == gs[k].table
  {
    seq(|gs|, k requires 0 <= k < |gs| => gs[k].table)
  }

  /** the looking entries of table t */
  function EntriesOf<T>(looking: seq<TableWithColumns<T>>, t: nat): seq<TableWithColumns<T>> {
    if looking == [] then []
    else
      var last := looking[|looking| - 1];
      EntriesOf(looking[..|looking| - 1], t) + if last.table == t then [last] else []
  }

  /** entries of the same table are neighbours */
  ghost predicate Adjacent<T>(looking: seq<TableWithColumns<T>>) {
    forall i, j, k :: 0 <= i <= j <= k < |looking| && looking[i].table == looking[k].table ==>
      looking[j].table == looking[i].table
  }

  lemma {:induction false} LastGroup<T>(looking: seq<TableWithColumns<T>>)
    requires looking != []
    ensures Groups(looking) != [] && Groups(looking)[|Groups(looking)| - 1].table == looking[|looking| - 1].table
  {
  }

  lemma {:induction false} GroupsAtLeastUnique<T>(looking: seq<TableWithColumns<T>>)
    ensures |Groups(looking)| >= |Unique(TablesOf(looking))|
  {
    if looking != [] {
      var init := looking[..|looking| - 1];
      GroupsAtLeastUnique(init);
      assert TablesOf(looking)[..|init|] == TablesOf(init);
      if init != [] {
        LastGroup(init);
        assert TablesOf(init)[|init| - 1] in TablesOf(init);
      }
    }
  }

  lemma AdjacentInit<T>(looking: seq<TableWithColumns<T>>)
    requires looking != []
    ensures var (init, last) := (looking[..|looking| - 1], looking[|looking| - 1].table);
            Adjacent(looking) <==> Adjacent(init) && (last in TablesOf(init) ==> init[|init| - 1].table == last)
  {
    var init, n := looking[..|looking| - 1], |looking|;
    var last := looking[n - 1].table;
    if Adjacent(looking) {
      forall i, j, k | 0 <= i <= j <= k < |init| && init[i].table == init[k].table
        ensures init[j].table == init[i].table
      {
        assert looking[i].table == looking[k].table;
      }
      if last in TablesOf(init) {
        var i :| 0 <= i < |init| && TablesOf(init)[i] == last;
        assert looking[i].table == looking[n - 1].table;
        assert looking[n - 2].table == looking[i].table;
      }
    }
    if Adjacent(init) && (last in TablesOf(init) ==> init[|init| - 1].table == last) {
      forall i, j, k | 0 <= i <= j <= k < n && looking[i].table == looking[k].table
        ensures looking[j].table == looking[i].table
      {
        if k == n - 1 && i < n - 1 {
          assert TablesOf(init)[i] == last;
          assert init[i].table == init[n - 2].table;
        }
      }
    }
  }

  /** The prover pushes one Z for each group, the verifier takes one for each table: these are the same
      tables exactly when the entries of each table are neighbours. */
  lemma {:induction false} GroupsAreUnique<T>(looking: seq<TableWithColumns<T>>)
    ensures GroupTables(Groups(looking)) == Unique(TablesOf(looking)) <==> Adjacent(looking)
  {
    if looking != [] {
      var init, last := looking[..|looking| - 1], looking[|looking| - 1].table;
      GroupsAreUnique(init);
      GroupsAtLeastUnique(init);
      AdjacentInit(looking);
      assert TablesOf(looking)[..|init|] == TablesOf(init);
      LastTable(init);
      hide Adjacent;
      GroupTablesExtended(looking);
      var gs, u := Groups(init), Unique(TablesOf(init));
      UniqueStep(TablesOf(looking));
      hide Groups, Unique, TablesOf;
      if gs != [] && gs[|gs| - 1].table == last {
        assert GroupTables(Groups(looking)) == GroupTables(gs);
      } else {
        assert (GroupTables(gs) + [last])[..|gs|] == GroupTables(gs);
      }
    }
  }

  lemma UniqueStep(tables: seq<nat>)
    requires tables != []
    ensures var (u, last) := (Unique(tables[..|tables| - 1]), tables[|tables| - 1]);
            Unique(tables) == if last in u then u else u + [last]
  {
  }

  lemma LastTable<T>(looking: seq<TableWithColumns<T>>)
    ensures looking != [] ==>
              && Groups(looking) != [] && Groups(looking)[|Groups(looking)| - 1].table == looking[|looking| - 1].table
              && looking[|looking| - 1].table in TablesOf(looking)
    ensures looking == [] ==> Groups(looking) == []
  {
    if looking != [] {
      LastGroup(looking);
      assert TablesOf(looking)[|looking| - 1] in TablesOf(looking);
    }
  }

  /** one more entry joins the last group, or starts another */
  lemma GroupTablesExtended<T>(looking: seq<TableWithColumns<T>>)
    requires looking != []
    ensures var (gs, last) := (Groups(looking[..|looking| - 1]), looking[|looking| - 1].table);
            GroupTables(Groups(looking)) ==
            if gs != [] && gs[|gs| - 1].table == last then GroupTables(gs) else GroupTables(gs) + [last]
  {
    var gs, last := Groups(looking[..|looking| - 1]), looking[|looking| - 1];
    GroupsStep(looking);
    hide Groups;
    if gs != [] && gs[|gs| - 1].table == last.table {
      SameTables(gs, Group(last.table, gs[|gs| - 1].ts + [last]));
    } else {
      MoreTables(gs, Group(last.table, [last]));
    }
  }

  lemma GroupsStep<T>(looking: seq<TableWithColumns<T>>)
    requires looking != []
    ensures var (gs, last) := (Groups(looking[..|looking| - 1]), looking[|looking| - 1]);
            Groups(looking) ==
            if gs != [] && gs[|gs| - 1].table == last.table then
              gs[..|gs| - 1] + [Group(last.table, gs[|gs| - 1].ts + [last])]
            else gs + [Group(last.table, [last])]
  {
  }

  lemma SameTables<T>(gs: seq<Group<T>>, g: Group<T>)
    requires gs != [] && g.table == gs[|gs| - 1].table
    ensures GroupTables(gs[..|gs| - 1] + [g]) == GroupTables(gs)
  {
  }

  lemma MoreTables<T>(gs: seq<Group<T>>, g: Group<T>)
    ensures GroupTables(gs + [g]) == GroupTables(gs) + [g.table]
  {
  }

  /** of neighbours, a group holds all the entries of its table */
  lemma {:induction false} GroupIsComplete<T>(looking: seq<TableWithColumns<T>>, k: nat)
    requires Adjacent(looking) && k < |Groups(looking)|
    ensures Groups(looking)[k].ts == EntriesOf(looking, Groups(looking)[k].table)
  {
    var init, last := looking[..|looking| - 1], looking[|looking| - 1];
    var gs := Groups(init);
    AdjacentInit(looking);
    GroupsAreUnique(init);
    if init != [] {
      LastGroup(init);
    }
    if k < |gs| {
      GroupIsComplete(init, k);
      if gs[k].table == last.table {
        GroupTableOnce(init, k, last.table);
      }
    } else {
      NoEntries(init, last.table);
    }
  }

  lemma NoEntries<T>(looking: seq<TableWithColumns<T>>, t: nat)
    requires t !in TablesOf(looking)
    ensures EntriesOf(looking, t) == []
  {
    if looking != [] {
      var init := looking[..|looking| - 1];
      assert TablesOf(looking)[|init|] in TablesOf(looking);
      assert forall k :: 0 <= k < |init| ==> TablesOf(init)[k] == TablesOf(looking)[k];
      NoEntries(init, t);
    }
  }

  /** only the last group can have the table of the last entry */
  lemma GroupTableOnce<T>(looking: seq<TableWithColumns<T>>, k: nat, t: nat)
    requires Adjacent(looking) && k < |Groups(looking)| && Groups(looking)[k].table == t
    requires t in TablesOf(looking) ==> looking[|looking| - 1].table == t
    ensures k == |Groups(looking)| - 1
  {
    var gs := Groups(looking);
    GroupsAreUnique(looking);
    UniqueIsDistinct(TablesOf(looking));
    assert GroupTables(gs)[k] in Unique(TablesOf(looking));
    LastGroup(looking);
    assert GroupTables(gs)[|gs| - 1] == t;
  }

  lemma {:induction false} UniqueIsDistinct(tables: seq<nat>)
    ensures forall i, j :: 0 <= i < j < |Unique(tables)| ==> Unique(tables)[i] != Unique(tables)[j]
  {
    if tables != [] {
      UniqueIsDistinct(tables[..|tables| - 1]);
    }
  }

  // ----- cross_table_lookup_data -----

  /** what a Z is computed from, and the entries it is stored with */
  datatype Job<T> = Job(challenge: Challenge<T>, computed: seq<Entry<T>>, declared: seq<Entry<T>>)

  datatype ZData<T> = ZData(helpers: seq<seq<T>>, z: seq<T>, challenge: Challenge<T>, es: seq<Entry<T>>)

  function EntriesFrom<T>(ts: seq<TableWithColumns<T>>): (r: seq<Entry<T>>)
    ensures |r| == |ts| && forall k :: 0 <= k < |r| ==> r[k] == EntryOf(ts[k])
  {
    seq(|ts|, k requires 0 <= k < |ts| => EntryOf(ts[k]))
  }

  function GroupEvent<T>(looking: seq<TableWithColumns<T>>, g: Group<T>, ch: Challenge<T>): Event<Job<T>> {
    Event(g.table, Job(ch, EntriesFrom(g.ts), EntriesFrom(EntriesOf(looking, g.table))))
  }

  function LookedEvent<T>(ctl: CrossTableLookup<T>, ch: Challenge<T>): Event<Job<T>> {
    Event(ctl.looked.table, Job(ch, [EntryOf(ctl.looked)], [EntryOf(ctl.looked)]))
  }

  function GroupEvents<T>(looking: seq<TableWithColumns<T>>, gs: seq<Group<T>>,
                          ch: Challenge<T>): (r: seq<Event<Job<T>>>)
    ensures |r| == |gs| && forall k :: 0 <= k < |r| ==> r[k] == GroupEvent(looking, gs[k], ch)
  {
    seq(|gs|, k requires 0 <= k < |gs| => GroupEvent(looking, gs[k], ch))
  }

  function CtlEvents<T>(ctl: CrossTableLookup<T>, ch: Challenge<T>): seq<Event<Job<T>>> {
    GroupEvents(ctl.looking, Groups(ctl.looking), ch) + [LookedEvent(ctl, ch)]
  }

  /** the pushes from challenge c of lookup `index` on */
  function Jobs<T>(ctls: seq<CrossTableLookup<T>>, challenges: seq<Challenge<T>>, index: nat,
                   c: nat): seq<Event<Job<T>>>
    requires index <= |ctls| && c <= |challenges|
    decreases |ctls| - index, |challenges| - c
  {
    if index == |ctls| then []
    else if c == |challenges| then Jobs(ctls, challenges, index + 1, 0)
    else CtlEvents(ctls[index], challenges[c]) + Jobs(ctls, challenges, index, c + 1)
  }

  ghost predicate JobFits<T>(traces: seq<seq<seq<T>>>, e: Event<Job<T>>) {
    && e.table < |traces| && IsTable(traces[e.table]) && |e.value.computed| > 0
    && EntriesFit(e.value.computed, |traces[e.table]|)
  }

  /** a Z that `partial_sums` returned for a push */
  ghost predicate Built<T>(f: Field<T>, table: seq<seq<T>>, job: Job<T>, zd: ZData<T>, c: nat) {
    && IsTable(table) && EntriesFit(job.computed, |table|) && c > 0
    && ArePartialSums(f, job.challenge, job.computed, table, c, zd.helpers, zd.z)
    && zd.challenge == job.challenge && zd.es == job.declared
  }

  ghost predicate QueueBuilt<T>(f: Field<T>, table: seq<seq<T>>, jobs: seq<Job<T>>, zds: seq<ZData<T>>, c: nat) {
    |zds| == |jobs| && forall k :: 0 <= k < |jobs| ==> Built(f, table, jobs[k], zds[k], c)
  }

  ghost predicate AllBuilt<T>(f: Field<T>, traces: seq<seq<seq<T>>>, events: seq<Event<Job<T>>>,
                              data: seq<seq<ZData<T>>>, c: nat) {
    |data| == |traces| && forall t :: 0 <= t < |data| ==> QueueBuilt(f, traces[t], Queue(events, t), data[t], c)
  }

  lemma BuiltMore<T>(f: Field<T>, traces: seq<seq<seq<T>>>, events: seq<Event<Job<T>>>, data: seq<seq<ZData<T>>>,
                     c: nat,
                     e: Event<Job<T>>, zd: ZData<T>)
    requires AllBuilt(f, traces, events, data, c) && e.table < |traces| && Built(f, traces[e.table], e.value, zd, c)
    ensures AllBuilt(f, traces, events + [e], data[e.table := data[e.table] + [zd]], c)
  {
    hide Built;
    var data' := data[e.table := data[e.table] + [zd]];
    assert (events + [e])[..|events|] == events;
    forall t | 0 <= t < |data'|
      ensures QueueBuilt(f, traces[t], Queue(events + [e], t), data'[t], c)
    {
      assert QueueBuilt(f, traces[t], Queue(events, t), data[t], c);
    }
  }

  ghost predicate CtlFits<T>(traces: seq<seq<seq<T>>>, ctl: CrossTableLookup<T>) { AllFit(traces, ctl.looking)
                             && Fits(traces, ctl.looked) }

  ghost predicate TableRegular<T>(f: Field<T>, traces: seq<seq<seq<T>>>, t: TableWithColumns<T>, ch: Challenge<T>)
    requires Fits(traces, t)
  {
    Regular(f, ch, EntryOf(t), traces[t.table])
  }

  ghost predicate CtlRegular<T>(f: Field<T>, traces: seq<seq<seq<T>>>, ctl: CrossTableLookup<T>, ch: Challenge<T>)
    requires CtlFits(traces, ctl)
  {
    (forall k :: 0 <= k < |ctl.looking| ==> TableRegular(f, traces, ctl.looking[k], ch))
      && TableRegular(f, traces, ctl.looked, ch)
  }

  /** the entries of a group are of its table */
  ghost predicate GroupFits<T>(f: Field<T>, traces: seq<seq<seq<T>>>, g: Group<T>, ch: Challenge<T>) {
    && g.ts != [] && forall k :: 0 <= k < |g.ts| ==>
       g.ts[k].table == g.table && Fits(traces, g.ts[k]) && TableRegular(f, traces, g.ts[k], ch)
  }

  lemma {:induction false} GroupsFit<T>(f: Field<T>, traces: seq<seq<seq<T>>>, looking: seq<TableWithColumns<T>>,
                                        ch: Challenge<T>)
    requires AllFit(traces, looking) && forall k :: 0 <= k < |looking| ==> TableRegular(f, traces, looking[k], ch)
    ensures forall k :: 0 <= k < |Groups(looking)| ==> GroupFits(f, traces, Groups(looking)[k], ch)
  {
    if looking != [] {
      hide Fits, TableRegular;
      GroupsFit(f, traces, looking[..|looking| - 1], ch);
    }
  }

  lemma GroupIsRegular<T>(f: Field<T>, traces: seq<seq<seq<T>>>, g: Group<T>, ch: Challenge<T>)
    requires GroupFits(f, traces, g, ch)
    ensures g.table < |traces| && IsTable(traces[g.table]) && EntriesFit(EntriesFrom(g.ts), |traces[g.table]|)
    ensures AllRegular(f, ch, EntriesFrom(g.ts), traces[g.table])
  {
    assert Fits(traces, g.ts[0]);
    var es, table := EntriesFrom(g.ts), traces[g.table];
    hide EntryFits, Regular;
    forall k | 0 <= k < |es|
      ensures EntryFits(es[k], |table|) && Regular(f, ch, es[k], table)
    {
      assert Fits(traces, g.ts[k]) && TableRegular(f, traces, g.ts[k], ch);
    }
  }

  method CrossTableLookupData<T(!new)>(f: Field<T>, traces: seq<seq<seq<T>>>, ctls: seq<CrossTableLookup<T>>,
                                       challenges: seq<Challenge<T>>, c: nat) returns (data: seq<seq<ZData<T>>>)
    requires IsField(f) && c > 0 && forall i :: 0 <= i < |ctls| ==> CtlFits(traces, ctls[i])
    requires forall i, k :: 0 <= i < |ctls| && 0 <= k < |challenges| ==> CtlRegular(f, traces, ctls[i], challenges[k])
    ensures AllBuilt(f, traces, Jobs(ctls, challenges, 0, 0), data, c)
  {
    hide AllBuilt, Jobs, CtlFits, CtlRegular, IsField, CtlEvents;
    data := seq(|traces|, _ => []);
    ghost var events: seq<Event<Job<T>>> := [];
    ghost var all := Jobs(ctls, challenges, 0, 0);
    NothingBuilt(f, traces, data, c);
    assert [] + all == all;
    for index := 0 to |ctls|
      invariant AllBuilt(f, traces, events, data, c) && events + Jobs(ctls, challenges, index, 0) == all
    {
      for k := 0 to |challenges|
        invariant AllBuilt(f, traces, events, data, c) && events + Jobs(ctls, challenges, index, k) == all
      {
        data := PushCtl(f, traces, ctls[index], challenges[k], c, events, data);
        JobsStep(ctls, challenges, index, k, events);
        events := events + CtlEvents(ctls[index], challenges[k]);
      }
      JobsNext(ctls, challenges, index);
    }
    JobsDone(ctls, challenges, events);
  }

  lemma JobsStep<T>(ctls: seq<CrossTableLookup<T>>, challenges: seq<Challenge<T>>, index: nat, k: nat,
                    events: seq<Event<Job<T>>>)
    requires index < |ctls| && k < |challenges|
    ensures events + Jobs(ctls, challenges, index, k) == (events + CtlEvents(ctls[index], challenges[k]))
            + Jobs(ctls, challenges, index, k + 1)
  {
    hide CtlEvents;
  }

  lemma JobsNext<T>(ctls: seq<CrossTableLookup<T>>, challenges: seq<Challenge<T>>, index: nat)
    requires index < |ctls|
    ensures Jobs(ctls, challenges, index, |challenges|) == Jobs(ctls, challenges, index + 1, 0)
  {
  }

  lemma JobsDone<T>(ctls: seq<CrossTableLookup<T>>, challenges: seq<Challenge<T>>, events: seq<Event<Job<T>>>)
    ensures events + Jobs(ctls, challenges, |ctls|, 0) == events
  {
  }

  lemma NothingBuilt<T>(f: Field<T>, traces: seq<seq<seq<T>>>, data: seq<seq<ZData<T>>>, c: nat)
    requires |data| == |traces| && forall t :: 0 <= t < |data| ==> data[t] == []
    ensures AllBuilt(f, traces, [], data, c)
  {
  }

  /** the looking groups of one lookup and one challenge, then its looked table */
  method PushCtl<T(!new)>(f: Field<T>, traces: seq<seq<seq<T>>>, ctl: CrossTableLookup<T>, ch: Challenge<T>, c: nat,
                          ghost events: seq<Event<Job<T>>>,
                            start: seq<seq<ZData<T>>>) returns (data: seq<seq<ZData<T>>>)
    requires IsField(f) && c > 0 && CtlFits(traces, ctl) && CtlRegular(f, traces, ctl, ch)
             && AllBuilt(f, traces, events, start, c)
    ensures AllBuilt(f, traces, events + CtlEvents(ctl, ch), data, c)
  {
    GroupsFit(f, traces, ctl.looking, ch);
    LookedGroupFits(f, traces, ctl, ch);
    hide AllBuilt, Groups, GroupFits, IsField, CtlFits, CtlRegular, Fits, TableRegular, AllFit, ArePartialSums, Built,
      GroupEvents, CtlEvents, EntriesOf, EntriesFrom;
    data := start;
    var gs := Groups(ctl.looking);
    NoGroupEvents(ctl.looking, gs, ch, events);
    for k := 0 to |gs|
      invariant AllBuilt(f, traces, events + GroupEvents(ctl.looking, gs[..k], ch), data, c)
    {
      GroupEventsStep(ctl.looking, gs, k, ch, events);
      data := PushZ(f, traces, gs[k], EntriesFrom(EntriesOf(ctl.looking, gs[k].table)), ch, c,
        events + GroupEvents(ctl.looking, gs[..k], ch), data);
    }
    CtlEventsEnd(ctl, ch, events);
    assert gs[..|gs|] == gs;
    data := PushZ(f, traces, Group(ctl.looked.table, [ctl.looked]), [EntryOf(ctl.looked)], ch, c,
                  events + GroupEvents(ctl.looking, gs, ch), data);
  }

  lemma NoGroupEvents<T>(looking: seq<TableWithColumns<T>>, gs: seq<Group<T>>, ch: Challenge<T>,
                         events: seq<Event<Job<T>>>)
    ensures events + GroupEvents(looking, gs[..0], ch) == events
  {
  }

  lemma GroupEventsStep<T>(looking: seq<TableWithColumns<T>>, gs: seq<Group<T>>, k: nat, ch: Challenge<T>,
                           events: seq<Event<Job<T>>>)
    requires k < |gs|
    ensures events + GroupEvents(looking, gs[..k + 1], ch) == (events + GroupEvents(looking, gs[..k], ch)) +
              [Event(gs[k].table, Job(ch, EntriesFrom(gs[k].ts), EntriesFrom(EntriesOf(looking, gs[k].table))))]
  {
  }

  lemma CtlEventsEnd<T>(ctl: CrossTableLookup<T>, ch: Challenge<T>, events: seq<Event<Job<T>>>)
    ensures events + CtlEvents(ctl, ch) == (events + GroupEvents(ctl.looking, Groups(ctl.looking), ch)) +
              [Event(ctl.looked.table, Job(ch, EntriesFrom([ctl.looked]), [EntryOf(ctl.looked)]))]
  {
    assert EntriesFrom([ctl.looked]) == [EntryOf(ctl.looked)];
  }

  lemma LookedGroupFits<T>(f: Field<T>, traces: seq<seq<seq<T>>>, ctl: CrossTableLookup<T>, ch: Challenge<T>)
    requires CtlFits(traces, ctl) && CtlRegular(f, traces, ctl, ch)
    ensures GroupFits(f, traces, Group(ctl.looked.table, [ctl.looked]), ch)
  {
  }

  method PushZ<T(!new)>(f: Field<T>, traces: seq<seq<seq<T>>>, g: Group<T>, declared: seq<Entry<T>>, ch: Challenge<T>,
                        c: nat,
                        ghost events: seq<Event<Job<T>>>, start: seq<seq<ZData<T>>>) returns (data: seq<seq<ZData<T>>>)
    requires IsField(f) && c > 0 && GroupFits(f, traces, g, ch) && AllBuilt(f, traces, events, start, c)
    ensures AllBuilt(f, traces, events + [Event(g.table, Job(ch, EntriesFrom(g.ts), declared))], data, c)
  {
    GroupIsRegular(f, traces, g, ch);
    hide GroupFits, IsField, Regular, EntryFits, ArePartialSums, QueueBuilt;
    var helpers, z := PartialSums(f, traces[g.table], EntriesFrom(g.ts), ch, c);
    var zd := ZData(helpers, z, ch, declared);
    BuiltMore(f, traces, events, start, c, Event(g.table, Job(ch, EntriesFrom(g.ts), declared)), zd);
    data := start[g.table := start[g.table] + [zd]];
  }
}
