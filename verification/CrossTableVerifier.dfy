/** The verifier of cross-table lookups: it takes the first-row openings of each table in turn, and compares
    the sums of the looking tables with the looked table. */
module CrossTableVerifier {
  import opened Columns
  import opened Fields
  import opened HelperColumns
  import opened Wrappers

  datatype TableWithColumns<T> = TableWithColumns(table: nat, columns: seq<Column<T>>, filter: Filter<T>)

  datatype CrossTableLookup<T> = CrossTableLookup(looking: seq<TableWithColumns<T>>, looked: TableWithColumns<T>)

  function EntryOf<T>(t: TableWithColumns<T>): Entry<T> { Entry(t.columns, t.filter) }

  function TablesOf<T>(looking: seq<TableWithColumns<T>>): (r: seq<nat>)
    ensures |r| == |looking| && forall k :: 0 <= k < |r| ==> r[k] == looking[k].table
  {
    seq(|looking|, k requires 0 <= k < |looking| => looking[k].table)
  }

  /** each table once, in the order of its first appearance */
  function Unique(tables: seq<nat>): (r: seq<nat>)
    ensures forall t :: t in r <==> t in tables
  {
    if tables == [] then []
    else
      var u, last := Unique(tables[..|tables| - 1]), tables[|tables| - 1];
      assert tables == tables[..|tables| - 1] + [last];
      if last in u then u else u + [last]
  }

  // ----- Queues of openings -----

  /** an opening pushed to the queue of a table */
  datatype Event<T> = Event(table: nat, value: T)

  /** what the queue of table t holds after some events */
  function Queue<T>(events: seq<Event<T>>, t: nat): seq<T> {
    if events == [] then []
    else Queue(events[..|events| - 1], t) + if events[|events| - 1].table == t then [events[|events| - 1].value] else []
  }

  lemma {:induction false} QueueConcat<T>(a: seq<Event<T>>, b: seq<Event<T>>, t: nat)
    ensures Queue(a + b, t) == Queue(a, t) + Queue(b, t)
  {
    if b == [] {
      assert a + b == a;
    } else {
      assert (a + b)[..|a + b| - 1] == a + b[..|b| - 1];
      QueueConcat(a, b[..|b| - 1], t);
    }
  }

  /** openings taken one after the other; no value when a queue is empty */
  function PopAll<T>(zs: seq<seq<T>>, pos: seq<nat>, tables: seq<nat>): Option<(seq<T>, seq<nat>)>
    requires |pos| == |zs| && forall k :: 0 <= k < |tables| ==> tables[k] < |zs|
    decreases |tables|
  {
    if tables == [] then Some(([], pos))
    else
      var t := tables[0];
      if pos[t] >= |zs[t]| then None
      else match PopAll(zs, pos[t := pos[t] + 1], tables[1..])
        case None => None
        case Some(rest) => Some(([zs[t][pos[t]]] + rest.0, rest.1))
  }

  function Positions<T>(events: seq<Event<T>>, n: nat): (r: seq<nat>)
    ensures |r| == n && forall t :: 0 <= t < n ==> r[t] == |Queue(events, t)|
  {
    seq(n, t requires 0 <= t < n => |Queue(events, t)|)
  }

  function EventTables<T>(events: seq<Event<T>>): (r: seq<nat>)
    ensures |r| == |events| && forall k :: 0 <= k < |r| ==> r[k] == events[k].table
  {
    seq(|events|, k requires 0 <= k < |events| => events[k].table)
  }

  function EventValues<T>(events: seq<Event<T>>): (r: seq<T>)
    ensures |r| == |events| && forall k :: 0 <= k < |r| ==> r[k] == events[k].value
  {
    seq(|events|, k requires 0 <= k < |events| => events[k].value)
  }

  ghost predicate TablesInRange<T>(events: seq<Event<T>>, n: nat) { forall k :: 0 <= k < |events| ==>
                                   events[k].table < n }

  /** the queues of the tables after all events */
  ghost predicate AreQueues<T>(zs: seq<seq<T>>, events: seq<Event<T>>) {
    forall t :: 0 <= t < |zs| ==> zs[t] == Queue(events, t)
  }

  lemma NextOpening<T>(zs: seq<seq<T>>, done: seq<Event<T>>, e: Event<T>, rest: seq<Event<T>>)
    requires AreQueues(zs, done + [e] + rest) && e.table < |zs|
    ensures var p := Positions(done, |zs|)[e.table]; p < |zs[e.table]| && zs[e.table][p] == e.value
    ensures Positions(done, |zs|)[e.table := Positions(done, |zs|)[e.table] + 1] == Positions(done + [e], |zs|)
  {
    QueueConcat(done + [e], rest, e.table);
    forall t | 0 <= t < |zs|
      ensures |Queue(done + [e], t)| == |Queue(done, t)| + if t == e.table then 1 else 0
    {
      assert (done + [e])[..|done|] == done;
    }
    assert (done + [e])[..|done|] == done;
  }

  /** taking openings in the order in which they were pushed returns each of them */
  lemma {:induction false} Replay<T>(zs: seq<seq<T>>, done: seq<Event<T>>, now: seq<Event<T>>, rest: seq<Event<T>>)
    requires AreQueues(zs, done + now + rest) && TablesInRange(now, |zs|)
    ensures PopAll(zs, Positions(done, |zs|), EventTables(now)) == Some((EventValues(now), Positions(done + now, |zs|)))
    decreases |now|
  {
    if now == [] {
      assert done + now == done;
    } else {
      var e, later := now[0], now[1..];
      hide Queue, AreQueues, PopAll;
      assert done + now + rest == done + [e] + (later + rest);
      assert done + [e] + (later + rest) == (done + [e]) + later + rest;
      NextOpening(zs, done, e, later + rest);
      Replay(zs, done + [e], later, rest);
      assert (done + [e]) + later == done + now;
      hide Positions;
      PopEvent(zs, Positions(done, |zs|), now, Positions(done + now, |zs|));
    }
  }

  lemma PopEvent<T>(zs: seq<seq<T>>, pos: seq<nat>, now: seq<Event<T>>, end: seq<nat>)
    requires |pos| == |zs| && TablesInRange(now, |zs|) && now != []
    requires pos[now[0].table] < |zs[now[0].table]| && zs[now[0].table][pos[now[0].table]] == now[0].value
    requires PopAll(zs, pos[now[0].table := pos[now[0].table] + 1], EventTables(now[1..]))
             == Some((EventValues(now[1..]), end))
    ensures PopAll(zs, pos, EventTables(now)) == Some((EventValues(now), end))
  {
    PopFirst(zs, pos, EventTables(now));
    hide PopAll;
    assert EventTables(now)[1..] == EventTables(now[1..]);
    assert EventValues(now) == [now[0].value] + EventValues(now[1..]);
  }

  lemma PopFirst<T>(zs: seq<seq<T>>, pos: seq<nat>, tables: seq<nat>)
    requires |pos| == |zs| && (forall k :: 0 <= k < |tables| ==> tables[k] < |zs|) && tables != []
    ensures var t := tables[0];
            PopAll(zs, pos, tables) ==
            if pos[t] >= |zs[t]| then None else Popped([zs[t][pos[t]]], PopAll(zs, pos[t := pos[t] + 1], tables[1..]))
  {
  }

  /** openings taken before the rest */
  function Popped<T>(values: seq<T>, rest: Option<(seq<T>, seq<nat>)>): Option<(seq<T>, seq<nat>)> {
    match rest
    case None => None
    case Some(r) => Some((values + r.0, r.1))
  }

  // ----- verify_cross_table_lookups -----

  /** one comparison: the looking tables, the looked table, and the sum over no table */
  datatype Round<T> = Round(looking: seq<nat>, looked: nat, extra: T, index: nat)

  datatype Verdict = Accepted(pos: seq<nat>) | Rejected(index: nat) | Panicked

  predicate RoundInRange<T>(r: Round<T>, n: nat) {
    r.looked < n && forall k :: 0 <= k < |r.looking| ==> r.looking[k] < n
  }

  predicate RoundsInRange<T>(rs: seq<Round<T>>, n: nat) { forall k :: 0 <= k < |rs| ==> RoundInRange(rs[k], n) }

  function CheckRound<T(==)>(f: Field<T>, r: Round<T>, zs: seq<seq<T>>, pos: seq<nat>): (v: Verdict)
    requires |pos| == |zs| && RoundInRange(r, |zs|)
    ensures v.Accepted? ==> |v.pos| == |zs|
  {
    match PopAll(zs, pos, r.looking)
    case None => Panicked
    case Some(a) =>
      PopLength(zs, pos, r.looking);
      match PopAll(zs, a.1, [r.looked])
      case None => Panicked
      case Some(b) =>
        PopLength(zs, a.1, [r.looked]);
        if f.Add(Sum(f, a.0), r.extra) == b.0[0] then Accepted(b.1) else Rejected(r.index)
  }

  lemma {:induction false} PopLength<T>(zs: seq<seq<T>>, pos: seq<nat>, tables: seq<nat>)
    requires |pos| == |zs| && forall k :: 0 <= k < |tables| ==> tables[k] < |zs|
    ensures var r := PopAll(zs, pos, tables); r.Some? ==> |r.value.0| == |tables| && |r.value.1| == |zs|
    decreases |tables|
  {
    if tables != [] && pos[tables[0]] < |zs[tables[0]]| {
      PopLength(zs, pos[tables[0] := pos[tables[0]] + 1], tables[1..]);
    }
  }

  function CheckRounds<T(==)>(f: Field<T>, rs: seq<Round<T>>, zs: seq<seq<T>>, pos: seq<nat>): Verdict
    requires |pos| == |zs| && RoundsInRange(rs, |zs|)
    decreases |rs|
  {
    if rs == [] then Accepted(pos)
    else match CheckRound(f, rs[0], zs, pos)
      case Accepted(p) => CheckRounds(f, rs[1..], zs, p)
      case Rejected(i) => Rejected(i)
      case Panicked => Panicked
  }

  /** the sum of the looking values outside of all tables, or the default */
  function ExtraSum<T>(f: Field<T>, extras: map<nat, seq<T>>, index: nat, c: nat): T {
    if index in extras && c < |extras[index]| then extras[index][c] else f.zero
  }

  function RoundOf<T>(f: Field<T>, ctl: CrossTableLookup<T>, extras: map<nat, seq<T>>, index: nat, c: nat): Round<T> {
    Round(Unique(TablesOf(ctl.looking)), ctl.looked.table, ExtraSum(f, extras, index, c), index)
  }

  /** the rounds from challenge c of lookup `index` on */
  function Rounds<T>(f: Field<T>, ctls: seq<CrossTableLookup<T>>, extras: map<nat, seq<T>>, challenges: nat, index: nat,
                     c: nat): seq<Round<T>>
    requires index <= |ctls| && c <= challenges
    decreases |ctls| - index, challenges - c
  {
    if index == |ctls| then []
    else if c == challenges then Rounds(f, ctls, extras, challenges, index + 1, 0)
    else [RoundOf(f, ctls[index], extras, index, c)] + Rounds(f, ctls, extras, challenges, index, c + 1)
  }

  /** the comparisons of one lookup: one for each challenge, in order, each with the sum over no table that belongs
      to both */
  lemma {:induction false} RoundsOfLookup<T>(f: Field<T>, ctls: seq<CrossTableLookup<T>>, extras: map<nat, seq<T>>,
                                             challenges: nat, index: nat, c: nat)
    requires index < |ctls| && c <= challenges
    ensures Rounds(f, ctls, extras, challenges, index, c) ==
            seq(challenges - c, k requires 0 <= k < challenges - c => RoundOf(f, ctls[index], extras, index, c + k))
            + Rounds(f, ctls, extras, challenges, index + 1, 0)
    decreases challenges - c
  {
    var n, rest := challenges - c, Rounds(f, ctls, extras, challenges, index + 1, 0);
    var all := seq(n, k requires 0 <= k < n => RoundOf(f, ctls[index], extras, index, c + k));
    if n == 0 {
      assert all + rest == rest;
    } else {
      RoundsOfLookup(f, ctls, extras, challenges, index, c + 1);
      hide RoundOf;
      var later := seq(n - 1, k requires 0 <= k < n - 1 => RoundOf(f, ctls[index], extras, index, c + 1 + k));
      assert all == [RoundOf(f, ctls[index], extras, index, c)] + later;
      assert [all[0]] + (later + rest) == all + rest;
    }
  }

  predicate CtlInRange<T>(ctl: CrossTableLookup<T>, n: nat) {
    ctl.looked.table < n && forall k :: 0 <= k < |ctl.looking| ==> ctl.looking[k].table < n
  }

  predicate CtlsInRange<T>(ctls: seq<CrossTableLookup<T>>, n: nat) { forall k :: 0 <= k < |ctls| ==>
                           CtlInRange(ctls[k], n) }

  lemma {:induction false} RoundsAreInRange<T>(f: Field<T>, ctls: seq<CrossTableLookup<T>>, extras: map<nat, seq<T>>,
                                               challenges: nat, index: nat, c: nat, n: nat)
    requires index <= |ctls| && c <= challenges && CtlsInRange(ctls, n)
    ensures RoundsInRange(Rounds(f, ctls, extras, challenges, index, c), n)
    decreases |ctls| - index, challenges - c
  {
    if index < |ctls| {
      if c == challenges {
        RoundsAreInRange(f, ctls, extras, challenges, index + 1, 0, n);
      } else {
        RoundsAreInRange(f, ctls, extras, challenges, index, c + 1, n);
        RoundIsInRange(f, ctls[index], extras, index, c, n);
      }
    }
  }

  lemma RoundIsInRange<T>(f: Field<T>, ctl: CrossTableLookup<T>, extras: map<nat, seq<T>>, index: nat, c: nat, n: nat)
    requires CtlInRange(ctl, n)
    ensures RoundInRange(RoundOf(f, ctl, extras, index, c), n)
  {
    var looking := RoundOf(f, ctl, extras, index, c).looking;
    forall k | 0 <= k < |looking|
      ensures looking[k] < n
    {
      assert looking[k] in TablesOf(ctl.looking);
    }
  }

  /** The sums of the extra values have one element for each challenge. Leftover openings are only looked
      for in a debug assertion, which the positions of the verdict decide. */
  method VerifyCrossTableLookups<T(==)>(f: Field<T>, ctls: seq<CrossTableLookup<T>>, zsFirst: seq<seq<T>>,
                                        extras: map<nat, seq<T>>, numChallenges: nat) returns (verdict: Verdict)
    requires CtlsInRange(ctls, |zsFirst|) && forall k :: k in extras ==> |extras[k]| >= numChallenges
    requires RoundsInRange(Rounds(f, ctls, extras, numChallenges, 0, 0), |zsFirst|)
    ensures verdict == CheckRounds(f, Rounds(f, ctls, extras, numChallenges, 0, 0), zsFirst, seq(|zsFirst|, _ => 0))
  {
    hide CheckRounds, CheckRound, PopAll, Rounds;
    var n := |zsFirst|;
    var pos: seq<nat> := seq(n, _ => 0);
    ghost var goal := CheckRounds(f, Rounds(f, ctls, extras, numChallenges, 0, 0), zsFirst, pos);
    for index := 0 to |ctls|
      invariant |pos| == n && Checking(f, ctls, extras, numChallenges, index, 0, zsFirst, pos, goal)
    {
      var looking := ctls[index].looking;
      var filteredLookingTables: seq<nat> := [];
      for k := 0 to |looking|
        invariant filteredLookingTables == Unique(TablesOf(looking)[..k])
      {
        assert TablesOf(looking)[..k + 1][..k] == TablesOf(looking)[..k];
        if looking[k].table !in filteredLookingTables {
          filteredLookingTables := filteredLookingTables + [looking[k].table];
        }
      }
      assert TablesOf(looking)[..|looking|] == TablesOf(looking);
      for c := 0 to numChallenges
        invariant |pos| == n && Checking(f, ctls, extras, numChallenges, index, c, zsFirst, pos, goal)
      {
        RoundIsInRange(f, ctls[index], extras, index, c, n);
        CheckingStep(f, ctls, extras, numChallenges, index, c, zsFirst, pos, goal);
        var v := PlayRound(f, RoundOf(f, ctls[index], extras, index, c), zsFirst, pos);
        if !v.Accepted? {
          return v;
        }
        pos := v.pos;
      }
      CheckingNext(f, ctls, extras, numChallenges, index, zsFirst, pos, goal);
    }
    CheckingDone(f, ctls, extras, numChallenges, zsFirst, pos, goal);
    return Accepted(pos);
  }

  /** one comparison with the openings that are next */
  method PlayRound<T(==)>(f: Field<T>, r: Round<T>, zs: seq<seq<T>>, start: seq<nat>) returns (v: Verdict)
    requires |start| == |zs| && RoundInRange(r, |zs|)
    ensures v == CheckRound(f, r, zs, start)
  {
    hide PopAll;
    var pos, values: seq<T> := start, [];
    assert r.looking[0..] == r.looking;
    PoppedStart(PopAll(zs, pos, r.looking));
    for k := 0 to |r.looking|
      invariant |pos| == |zs| && |values| == k
      invariant Popped(values, PopAll(zs, pos, r.looking[k..])) == PopAll(zs, start, r.looking)
    {
      var t := r.looking[k];
      assert r.looking[k..][1..] == r.looking[k + 1..];
      PopFirst(zs, pos, r.looking[k..]);
      if pos[t] >= |zs[t]| {
        return Panicked;
      }
      PoppedStep(values, zs[t][pos[t]], PopAll(zs, pos[t := pos[t] + 1], r.looking[k + 1..]));
      values := values + [zs[t][pos[t]]];
      pos := pos[t := pos[t] + 1];
    }
    PopNone(zs, pos);
    assert values + [] == values && r.looking[|r.looking|..] == [];
    var lookingSum := f.Add(Sum(f, values), r.extra);
    var t := r.looked;
    PopFirst(zs, pos, [t]);
    assert [t][1..] == [];
    if pos[t] >= |zs[t]| {
      return Panicked;
    }
    var lookedZ := zs[t][pos[t]];
    pos := pos[t := pos[t] + 1];
    PopNone(zs, pos);
    return if lookingSum == lookedZ then Accepted(pos) else Rejected(r.index);
  }

  lemma PopNone<T>(zs: seq<seq<T>>, pos: seq<nat>)
    requires |pos| == |zs|
    ensures PopAll(zs, pos, []) == Some(([], pos))
  {
  }

  lemma PoppedStart<T>(rest: Option<(seq<T>, seq<nat>)>)
    ensures Popped([], rest) == rest
  {
    if rest.Some? {
      assert [] + rest.value.0 == rest.value.0;
    }
  }

  lemma PoppedStep<T>(values: seq<T>, x: T, rest: Option<(seq<T>, seq<nat>)>)
    ensures Popped(values, Popped([x], rest)) == Popped(values + [x], rest)
  {
    if rest.Some? {
      assert values + ([x] + rest.value.0) == (values + [x]) + rest.value.0;
    }
  }

  /** the rounds that are left lead to the goal */
  ghost predicate Checking<T>(f: Field<T>, ctls: seq<CrossTableLookup<T>>, extras: map<nat, seq<T>>, challenges: nat,
                              index: nat, c: nat,
                              zs: seq<seq<T>>, pos: seq<nat>, goal: Verdict) {
    && index <= |ctls| && c <= challenges && |pos| == |zs|
    && RoundsInRange(Rounds(f, ctls, extras, challenges, index, c), |zs|)
    && CheckRounds(f, Rounds(f, ctls, extras, challenges, index, c), zs, pos) == goal
  }

  lemma CheckingStep<T>(f: Field<T>, ctls: seq<CrossTableLookup<T>>, extras: map<nat, seq<T>>, challenges: nat,
                        index: nat, c: nat,
                        zs: seq<seq<T>>, pos: seq<nat>, goal: Verdict)
    requires Checking(f, ctls, extras, challenges, index, c, zs, pos, goal) && index < |ctls| && c < challenges
    ensures RoundInRange(RoundOf(f, ctls[index], extras, index, c), |zs|)
    ensures var v := CheckRound(f, RoundOf(f, ctls[index], extras, index, c), zs, pos);
            if v.Accepted? then Checking(f, ctls, extras, challenges, index, c + 1, zs, v.pos, goal) else v == goal
  {
    var rs := Rounds(f, ctls, extras, challenges, index, c);
    assert rs[0] == RoundOf(f, ctls[index], extras, index, c);
    assert rs[1..] == Rounds(f, ctls, extras, challenges, index, c + 1);
    hide Rounds, CheckRound;
  }

  lemma CheckingNext<T>(f: Field<T>, ctls: seq<CrossTableLookup<T>>, extras: map<nat, seq<T>>, challenges: nat,
                        index: nat,
                        zs: seq<seq<T>>, pos: seq<nat>, goal: Verdict)
    requires Checking(f, ctls, extras, challenges, index, challenges, zs, pos, goal) && index < |ctls|
    ensures Checking(f, ctls, extras, challenges, index + 1, 0, zs, pos, goal)
  {
    hide CheckRounds;
  }

  lemma CheckingDone<T>(f: Field<T>, ctls: seq<CrossTableLookup<T>>, extras: map<nat, seq<T>>, challenges: nat,
                        zs: seq<seq<T>>, pos: seq<nat>, goal: Verdict)
    requires Checking(f, ctls, extras, challenges, |ctls|, 0, zs, pos, goal)
    ensures goal == Accepted(pos)
  {
  }

  // ----- Honest openings -----

  /** the openings that the prover pushes for one comparison, looking tables first */
  datatype Play<T> = Play(looking: seq<Event<T>>, looked: Event<T>, extra: T, index: nat)

  function PlayEvents<T>(p: Play<T>): seq<Event<T>> { p.looking + [p.looked] }

  function AllEvents<T>(ps: seq<Play<T>>): seq<Event<T>> {
    if ps == [] then [] else PlayEvents(ps[0]) + AllEvents(ps[1..])
  }

  function PlayedRound<T>(p: Play<T>): Round<T> { Round(EventTables(p.looking), p.looked.table, p.extra, p.index) }

  function PlayedRounds<T>(ps: seq<Play<T>>): seq<Round<T>> {
    if ps == [] then [] else [PlayedRound(ps[0])] + PlayedRounds(ps[1..])
  }

  predicate PlayBalanced<T(==)>(f: Field<T>, p: Play<T>) {
    f.Add(Sum(f, EventValues(p.looking)), p.extra) == p.looked.value
  }

  /** the first comparison that fails, if any */
  function FirstUnbalanced<T(==)>(f: Field<T>, ps: seq<Play<T>>): (r: Option<nat>)
    ensures r.None? <==> forall k :: 0 <= k < |ps| ==> PlayBalanced(f, ps[k])
  {
    if ps == [] then None
    else if !PlayBalanced(f, ps[0]) then Some(ps[0].index)
    else
      assert forall k :: 0 < k < |ps| ==> ps[k] == ps[1..][k - 1];
      FirstUnbalanced(f, ps[1..])
  }

  lemma {:induction false} PlayPeel<T>(ps: seq<Play<T>>, done: seq<Event<T>>, n: nat)
    requires ps != [] && TablesInRange(AllEvents(ps), n)
    ensures TablesInRange(ps[0].looking, n) && TablesInRange([ps[0].looked], n) && TablesInRange(AllEvents(ps[1..]), n)
    ensures done + AllEvents(ps) == done + ps[0].looking + ([ps[0].looked] + AllEvents(ps[1..]))
    ensures done + AllEvents(ps) == (done + ps[0].looking) + [ps[0].looked] + AllEvents(ps[1..])
    ensures done + AllEvents(ps) == ((done + ps[0].looking) + [ps[0].looked]) + AllEvents(ps[1..])
  {
    var all := AllEvents(ps);
    assert all == ps[0].looking + [ps[0].looked] + AllEvents(ps[1..]);
    assert forall k :: 0 <= k < |ps[0].looking| ==> ps[0].looking[k] == all[k];
    assert all[|ps[0].looking|] == ps[0].looked;
    assert forall k :: 0 <= k < |AllEvents(ps[1..])| ==> AllEvents(ps[1..])[k] == all[|ps[0].looking| + 1 + k];
  }

  /** Against the queues of the prover's events, no opening is missing; the verdict is the first comparison
      that does not balance, and if all do, every opening is consumed. */
  lemma {:induction false} HonestOpenings<T>(f: Field<T>, ps: seq<Play<T>>, zs: seq<seq<T>>, done: seq<Event<T>>)
    requires AreQueues(zs, done + AllEvents(ps)) && TablesInRange(AllEvents(ps), |zs|)
    ensures RoundsInRange(PlayedRounds(ps), |zs|)
    ensures CheckRounds(f, PlayedRounds(ps), zs, Positions(done, |zs|)) ==
            match FirstUnbalanced(f, ps)
            case None => Accepted(Positions(done + AllEvents(ps), |zs|))
            case Some(i) => Rejected(i)
    decreases |ps|
  {
    if ps == [] {
      assert done + [] == done;
    } else {
      var p, n := ps[0], |zs|;
      PlayPeel(ps, done, n);
      var middle := done + p.looking;
      var after := middle + [p.looked];
      HonestOpenings(f, ps[1..], zs, after);
      Replay(zs, done, p.looking, [p.looked] + AllEvents(ps[1..]));
      Replay(zs, middle, [p.looked], AllEvents(ps[1..]));
      assert EventTables([p.looked]) == [p.looked.table] && EventValues([p.looked]) == [p.looked.value];
      hide PopAll, Positions, AreQueues, AllEvents;
      var r := PlayedRound(p);
      assert RoundInRange(r, n);
      assert CheckRound(f, r, zs, Positions(done, n)) == if PlayBalanced(f, p) then Accepted(Positions(after, n))
        else Rejected(p.index);
      assert PlayedRounds(ps)[1..] == PlayedRounds(ps[1..]);
    }
  }
}
