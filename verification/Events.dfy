/** The device cache over time: the database changes and queues events, the daemon starts up with two
    scans and then handles one event after the other. Every handler reads the database as it is when
    the handler runs, not as it was when the event was queued. */
module Events {
  import opened Options
  import opened Hal
  import opened Cells
  import opened Handlers

  /** `scans` counts the lists of all devices that start-up has asked for; `todo` is what is left of
      the last one. */
  datatype State = State(hal: Database, queue: seq<Event>, cache: seq<Cell>, scans: nat, todo: seq<string>)

  datatype Step =
    | HalAdd(udi: string, props: Props)
    | HalRemove(udi: string)
    | HalSet(udi: string, key: string, value: Value)
    | HalUnset(udi: string, key: string)
    | ListDevices(udis: seq<string>)
    | ScanDevice(entries: seq<Entry>)
    | Dispatch(entries: seq<Entry>)

  const SCANS := 2

  predicate Ready(s: State) {
    s.scans == SCANS && s.todo == []
  }

  predicate ListsDevices(udis: seq<string>, hal: Database) {
    (forall i | 0 <= i < |udis| :: udis[i] in hal) &&
    (forall i, j | 0 <= i < j < |udis| :: udis[i] != udis[j]) &&
    (forall u | u in hal :: u in udis)
  }

  ghost predicate Enabled(s: State, step: Step) {
    match step
    case HalAdd(udi, _) => udi !in s.hal
    case HalRemove(udi) => udi in s.hal
    case HalSet(udi, _, _) => udi in s.hal
    case HalUnset(udi, key) => udi in s.hal && key in s.hal[udi]
    case ListDevices(udis) => s.scans < SCANS && s.todo == [] && ListsDevices(udis, s.hal)
    case ScanDevice(entries) => s.todo != [] && MayList(s.hal, s.todo[0], entries)
    case Dispatch(entries) => Ready(s) && s.queue != [] && MayList(s.hal, s.queue[0].udi, entries)
  }

  function Apply(s: State, step: Step): State
    requires Enabled(s, step)
  {
    match step
    case HalAdd(udi, props) => s.(hal := s.hal[udi := props], queue := s.queue + [Added(udi)])
    case HalRemove(udi) => s.(hal := s.hal - {udi}, queue := s.queue + [Removed(udi)])
    case HalSet(udi, key, value) =>
      s.(hal := s.hal[udi := s.hal[udi][key := value]], queue := s.queue + [Modified(udi, key, false)])
    case HalUnset(udi, key) =>
      s.(hal := s.hal[udi := s.hal[udi] - {key}], queue := s.queue + [Modified(udi, key, true)])
    case ListDevices(udis) => s.(scans := s.scans + 1, todo := udis)
    case ScanDevice(entries) => s.(cache := AddDevice(s.hal, s.cache, s.todo[0], entries), todo := s.todo[1..])
    case Dispatch(entries) =>
      s.(cache := Handle(s.hal, s.cache, s.queue[0], entries), queue := s.queue[1..])
  }

  /** A run: every step is enabled where it is taken. */
  ghost predicate IsRun(s: State, steps: seq<Step>)
    decreases |steps|
  {
    steps == [] || (Enabled(s, steps[0]) && IsRun(Apply(s, steps[0]), steps[1..]))
  }

  function Run(s: State, steps: seq<Step>): State
    requires IsRun(s, steps)
    decreases |steps|
  {
    if steps == [] then s else Run(Apply(s, steps[0]), steps[1..])
  }

  /** The program before it asks for anything. */
  predicate Starting(s: State) {
    s.queue == [] && s.cache == [] && s.scans == 0 && s.todo == []
  }

  /* The last pending event */

  predicate Concerns(e: Event, udi: string, key: string) {
    e.udi == udi && (e.Modified? ==> e.key == key)
  }

  function LastFor(q: seq<Event>, udi: string, key: string): Option<Event> {
    if q == [] then None
    else if Concerns(q[|q| - 1], udi, key) then Some(q[|q| - 1])
    else LastFor(q[..|q| - 1], udi, key)
  }

  lemma LastForSnoc(q: seq<Event>, e: Event, udi: string, key: string)
    ensures LastFor(q + [e], udi, key) == if Concerns(e, udi, key) then Some(e) else LastFor(q, udi, key)
  {
    assert (q + [e])[..|q|] == q;
  }

  lemma {:induction false} LastForCons(q: seq<Event>, udi: string, key: string)
    requires q != []
    ensures LastFor(q, udi, key) ==
            if LastFor(q[1..], udi, key).Some? then LastFor(q[1..], udi, key)
            else if Concerns(q[0], udi, key) then Some(q[0]) else None
  {
    var n := |q| - 1;
    if n > 0 && !Concerns(q[n], udi, key) {
      LastForCons(q[..n], udi, key);
      assert q[..n][1..] == q[1..][..n - 1];
    } else if n == 0 {
      assert q[1..] == [] == q[..0];
    }
  }

  /** Whether an insertion or removal of the device is pending. */
  predicate ComesOrGoes(q: seq<Event>, udi: string) {
    exists i | 0 <= i < |q| :: q[i].udi == udi && !q[i].Modified?
  }

  lemma ComesOrGoesSnoc(q: seq<Event>, e: Event, udi: string)
    ensures ComesOrGoes(q + [e], udi) <==> ComesOrGoes(q, udi) || (e.udi == udi && !e.Modified?)
  {
    if i :| 0 <= i < |q| && q[i].udi == udi && !q[i].Modified? { assert (q + [e])[i] == q[i]; }
    assert (q + [e])[|q|] == e;
  }

  lemma ComesOrGoesCons(q: seq<Event>, udi: string)
    requires q != []
    ensures ComesOrGoes(q, udi) <==> (q[0].udi == udi && !q[0].Modified?) || ComesOrGoes(q[1..], udi)
  {
    if i :| 0 <= i < |q[1..]| && q[1..][i].udi == udi && !q[1..][i].Modified? { assert q[i + 1] == q[1..][i]; }
    if i :| 0 <= i < |q| && q[i].udi == udi && !q[i].Modified? {
      if i > 0 { assert q[1..][i - 1] == q[i]; }
    }
  }

  /* The invariant of every run */

  /** What the last pending event for a device and key says about the database. */
  predicate Explains(e: Event, hal: Database, udi: string, key: string) {
    match e
    case Added(_) => udi in hal
    case Removed(_) => udi !in hal
    case Modified(_, _, removed) => udi in hal && (removed <==> key !in hal[udi])
  }

  /** Whether start-up has scanned the device, if it was there to be scanned. */
  predicate Scanned(s: State, udi: string) {
    s.scans >= 1 && (udi in s.todo ==> s.scans == SCANS)
  }

  predicate QueueExplains(s: State, udi: string, key: string) {
    var last := LastFor(s.queue, udi, key);
    last.Some? ==> Explains(last.value, s.hal, udi, key)
  }

  /** A device that neither comes nor goes has a cell, and the cell is right about every key without a
      pending event. */
  predicate CacheExplains(s: State, udi: string, key: string) {
    udi in s.hal && !ComesOrGoes(s.queue, udi) && Scanned(s, udi) ==>
      Lookup(s.cache, udi).Some? &&
      (LastFor(s.queue, udi, key).None? ==> Get(Lookup(s.cache, udi).value, key) == PropertyValue(s.hal, udi, key))
  }

  ghost predicate Invariant(s: State) {
    && s.scans <= SCANS && AllDistinct(s.cache)
    && forall udi, key :: QueueExplains(s, udi, key) && CacheExplains(s, udi, key)
  }

  lemma StartingHolds(s: State)
    requires Starting(s)
    ensures Invariant(s)
  {
  }

  lemma HalStep(s: State, step: Step, udi: string, key: string)
    requires Invariant(s) && Enabled(s, step)
    requires step.HalAdd? || step.HalRemove? || step.HalSet? || step.HalUnset?
    ensures QueueExplains(Apply(s, step), udi, key) && CacheExplains(Apply(s, step), udi, key)
  {
    var t := Apply(s, step);
    var e := t.queue[|s.queue|];
    assert t.queue == s.queue + [e];
    assert QueueExplains(s, udi, key) && CacheExplains(s, udi, key);
    LastForSnoc(s.queue, e, udi, key);
    ComesOrGoesSnoc(s.queue, e, udi);
  }

  lemma ScanStep(s: State, step: Step, udi: string, key: string)
    requires Invariant(s) && Enabled(s, step) && step.ScanDevice?
    ensures QueueExplains(Apply(s, step), udi, key) && CacheExplains(Apply(s, step), udi, key)
  {
    var t, u := Apply(s, step), s.todo[0];
    assert QueueExplains(s, udi, key) && CacheExplains(s, udi, key);
    if udi == u {
      if u in s.hal { AddedLookup(s.hal, s.cache, u, step.entries); }
    } else {
      OtherLookups(s.hal, s.cache, Added(u), step.entries, udi);
      assert udi in s.todo ==> udi in s.todo[1..];
    }
  }

  lemma ListStep(s: State, step: Step, udi: string, key: string)
    requires Invariant(s) && Enabled(s, step) && step.ListDevices?
    ensures QueueExplains(Apply(s, step), udi, key) && CacheExplains(Apply(s, step), udi, key)
  {
    assert QueueExplains(s, udi, key) && CacheExplains(s, udi, key);
  }

  lemma DispatchStep(s: State, step: Step, udi: string, key: string)
    requires Invariant(s) && Enabled(s, step) && step.Dispatch?
    ensures QueueExplains(Apply(s, step), udi, key) && CacheExplains(Apply(s, step), udi, key)
  {
    var t, e := Apply(s, step), s.queue[0];
    assert QueueExplains(s, udi, key) && CacheExplains(s, udi, key);
    LastForCons(s.queue, udi, key);
    ComesOrGoesCons(s.queue, udi);
    if e.udi != udi {
      OtherLookups(s.hal, s.cache, e, step.entries, udi);
    } else if e.Added? {
      if udi in s.hal { AddedLookup(s.hal, s.cache, udi, step.entries); }
    } else if e.Modified? && udi in s.hal && !ComesOrGoes(s.queue, udi) {
      ModifiedLookup(s.hal, s.cache, udi, e.key, e.removed, key);
    } else if e.Removed? && udi in s.hal {
      LastIsKnown(s, udi, key);
    }
  }

  /** While the device is there, a pending removal is not the last thing that happened to it. */
  lemma LastIsKnown(s: State, udi: string, key: string)
    requires Invariant(s) && s.queue != [] && s.queue[0] == Removed(udi) && udi in s.hal
    ensures ComesOrGoes(s.queue[1..], udi)
  {
    var k := UnusedKey(s.queue);
    assert QueueExplains(s, udi, k);
    LastForCons(s.queue, udi, k);
    LastForUnused(s.queue[1..], udi, k);
  }

  /** A key that no event mentions. */
  lemma {:induction false} UnusedKey(q: seq<Event>) returns (k: string)
    ensures forall i | 0 <= i < |q| && q[i].Modified? :: |q[i].key| < |k|
  {
    if q == [] {
      k := "";
    } else {
      k := UnusedKey(q[1..]);
      var n := if q[0].Modified? then |q[0].key| else 0;
      k := k + seq(n + 1, i => 'x');
      forall i | 0 <= i < |q| && q[i].Modified? ensures |q[i].key| < |k| {
        if i > 0 { assert q[i] == q[1..][i - 1]; }
      }
    }
  }

  lemma {:induction false} LastForUnused(q: seq<Event>, udi: string, k: string)
    requires forall i | 0 <= i < |q| && q[i].Modified? :: |q[i].key| < |k|
    ensures LastFor(q, udi, k).Some? ==> ComesOrGoes(q, udi)
  {
    if q != [] {
      var n := |q| - 1;
      assert forall i | 0 <= i < |q| && q[i].Modified? :: q[i].key != k;
      if !Concerns(q[n], udi, k) {
        LastForUnused(q[..n], udi, k);
        ComesOrGoesSnoc(q[..n], q[n], udi);
        assert q == q[..n] + [q[n]];
      }
    }
  }

  lemma StepKeepsInvariant(s: State, step: Step)
    requires Invariant(s) && Enabled(s, step)
    ensures Invariant(Apply(s, step))
  {
    var t := Apply(s, step);
    forall udi, key ensures QueueExplains(t, udi, key) && CacheExplains(t, udi, key) {
      match step
      case ListDevices(_) => ListStep(s, step, udi, key);
      case ScanDevice(_) => ScanStep(s, step, udi, key);
      case Dispatch(_) => DispatchStep(s, step, udi, key);
      case _ => HalStep(s, step, udi, key);
    }
    match step
    case ScanDevice(entries) => DistinctAfter(s.hal, s.cache, Added(s.todo[0]), entries);
    case Dispatch(entries) => DistinctAfter(s.hal, s.cache, s.queue[0], entries);
    case _ =>
  }

  lemma {:induction false} RunKeepsInvariant(s: State, steps: seq<Step>)
    requires Invariant(s) && IsRun(s, steps)
    ensures Invariant(Run(s, steps))
    decreases |steps|
  {
    if steps != [] {
      StepKeepsInvariant(s, steps[0]);
      RunKeepsInvariant(Apply(s, steps[0]), steps[1..]);
    }
  }

  /** Every device of the database is in the cache with exactly its keys and their formatted values. */
  ghost predicate Covers(cs: seq<Cell>, hal: Database) {
    forall udi | udi in hal :: Lookup(cs, udi).Some? && Shows(Lookup(cs, udi).value, hal[udi])
  }

  lemma QuietCovers(s: State)
    requires Invariant(s) && Ready(s) && s.queue == []
    ensures Covers(s.cache, s.hal)
  {
    forall udi | udi in s.hal ensures Lookup(s.cache, udi).Some? && Shows(Lookup(s.cache, udi).value, s.hal[udi]) {
      assert CacheExplains(s, udi, "");
      forall key ensures Get(Lookup(s.cache, udi).value, key) == if key in s.hal[udi] then Some(Format(s.hal[udi][key])) else None {
        assert CacheExplains(s, udi, key);
      }
    }
  }

  /** The main result: from the real start, with both of its scans, in every interleaving of database
      changes, scans and handled events, whenever the program is up and no event is pending, a lookup
      of any device that the database has yields exactly what the database has. */
  lemma QuiescentConsistency(s: State, steps: seq<Step>)
    requires Starting(s) && IsRun(s, steps)
    ensures var t := Run(s, steps);
            Ready(t) && t.queue == [] ==> Covers(t.cache, t.hal)
  {
    StartingHolds(s);
    RunKeepsInvariant(s, steps);
    if Ready(Run(s, steps)) && Run(s, steps).queue == [] { QuietCovers(Run(s, steps)); }
  }

  /** The same from any quiet state in which the cache covers the database, whatever else it holds. */
  lemma ConsistencyFromAnyCover(s: State, steps: seq<Step>)
    requires Ready(s) && s.queue == [] && AllDistinct(s.cache) && Covers(s.cache, s.hal) && IsRun(s, steps)
    ensures var t := Run(s, steps);
            t.queue == [] ==> Covers(t.cache, t.hal)
  {
    forall udi, key ensures CacheExplains(s, udi, key) { }
    RunKeepsInvariant(s, steps);
    RunStaysReady(s, steps);
    if Run(s, steps).queue == [] { QuietCovers(Run(s, steps)); }
  }

  lemma {:induction false} RunStaysReady(s: State, steps: seq<Step>)
    requires Ready(s) && IsRun(s, steps)
    ensures Ready(Run(s, steps))
    decreases |steps|
  {
    if steps != [] { RunStaysReady(Apply(s, steps[0]), steps[1..]); }
  }

  /* Without duplicates: no other device is in the cache either */

  /** The pending insertions and removals of a device, in order; true for an insertion. */
  function Comings(q: seq<Event>, udi: string): seq<bool> {
    if q == [] then []
    else (if q[0].udi == udi && !q[0].Modified? then [q[0].Added?] else []) + Comings(q[1..], udi)
  }

  lemma {:induction false} ComingsSnoc(q: seq<Event>, e: Event, udi: string)
    ensures Comings(q + [e], udi) == Comings(q, udi) + if e.udi == udi && !e.Modified? then [e.Added?] else []
  {
    if q == [] {
      assert ([] + [e])[1..] == [];
    } else {
      assert (q + [e])[1..] == q[1..] + [e];
      ComingsSnoc(q[1..], e, udi);
    }
  }

  /** Insertions and removals alternate, and the last one says whether the device is there. */
  predicate Alternate(c: seq<bool>, there: bool) {
    (forall i | 0 < i < |c| :: c[i - 1] != c[i]) && (c != [] ==> c[|c| - 1] == there)
  }

  lemma AlternateTail(c: seq<bool>, there: bool)
    requires c != [] && Alternate(c, there)
    ensures Alternate(c[1..], there) && if |c| == 1 then c[0] == there && c[1..] == [] else c[1..][0] == !c[0]
  {
  }

  /** A device has one cell at most; none while its insertion is the next thing to come; and when
      nothing is to come, a cell exactly if it is there. */
  predicate Single(s: State, udi: string) {
    var c, cells := Comings(s.queue, udi), |Stack(s.cache, udi)|;
    Alternate(c, udi in s.hal) &&
    if c == [] then cells == if udi in s.hal then 1 else 0
    else if c[0] then cells == 0 else cells <= 1
  }

  ghost predicate SingleCells(s: State) {
    Ready(s) && forall udi :: Single(s, udi)
  }

  lemma SingleStep(s: State, step: Step, udi: string)
    requires SingleCells(s) && Enabled(s, step)
    ensures Single(Apply(s, step), udi)
  {
    assert Single(s, udi);
    if step.Dispatch? {
      SingleDispatch(s, step.entries, udi);
    } else {
      SingleHalStep(s, step, udi);
    }
  }

  lemma SingleHalStep(s: State, step: Step, udi: string)
    requires Ready(s) && Single(s, udi) && Enabled(s, step) && !step.Dispatch?
    ensures Single(Apply(s, step), udi)
  {
    var t := Apply(s, step);
    var e := t.queue[|s.queue|];
    assert t.queue == s.queue + [e];
    ComingsSnoc(s.queue, e, udi);
  }

  lemma SingleDispatch(s: State, entries: seq<Entry>, udi: string)
    requires Single(s, udi) && Enabled(s, Dispatch(entries))
    ensures Single(Apply(s, Dispatch(entries)), udi)
  {
    ComingsTail(s.queue, udi);
    if s.queue[0].udi != udi {
      HandleOnStack(s.hal, s.cache, s.queue[0], entries, udi);
    } else {
      SingleHandled(s, entries);
    }
  }

  lemma SingleHandled(s: State, entries: seq<Entry>)
    requires Enabled(s, Dispatch(entries)) && Single(s, s.queue[0].udi)
    ensures Single(Apply(s, Dispatch(entries)), s.queue[0].udi)
  {
    var e := s.queue[0];
    var c := Comings(s.queue, e.udi);
    ComingsTail(s.queue, e.udi);
    DispatchOne(s.hal, s.cache, e, entries);
    if c != [] { AlternateTail(c, e.udi in s.hal); }
  }

  lemma ComingsTail(q: seq<Event>, udi: string)
    requires q != []
    ensures var c := Comings(q, udi);
            if q[0].udi == udi && !q[0].Modified? then c != [] && c[0] == q[0].Added? && Comings(q[1..], udi) == c[1..]
            else Comings(q[1..], udi) == c
  {
  }

  lemma DispatchOne(hal: Database, cs: seq<Cell>, e: Event, entries: seq<Entry>)
    ensures var before, after := Stack(cs, e.udi), Stack(Handle(hal, cs, e, entries), e.udi);
            match e
            case Added(u) => |after| == |before| + if u in hal then 1 else 0
            case Removed(_) => |after| == if before == [] then 0 else |before| - 1
            case Modified(_, _, _) => |after| == |before|
  {
    HandleOnStack(hal, cs, e, entries, e.udi);
  }

  lemma {:induction false} RunKeepsSingle(s: State, steps: seq<Step>)
    requires SingleCells(s) && IsRun(s, steps)
    ensures SingleCells(Run(s, steps))
    decreases |steps|
  {
    if steps != [] {
      forall udi ensures Single(Apply(s, steps[0]), udi) { SingleStep(s, steps[0], udi); }
      RunKeepsSingle(Apply(s, steps[0]), steps[1..]);
    }
  }

  /** The cache and the database hold the same. */
  ghost predicate Represents(cs: seq<Cell>, hal: Database) {
    Covers(cs, hal) && forall udi | udi !in hal :: Lookup(cs, udi).None?
  }

  /** A start without duplicates: nothing pending, one cell for each device and none for any other. */
  ghost predicate DuplicateFree(s: State) {
    && Ready(s) && s.queue == [] && AllDistinct(s.cache) && Covers(s.cache, s.hal)
    && forall udi :: |Stack(s.cache, udi)| == if udi in s.hal then 1 else 0
  }

  /** From a start without duplicates, every quiet state of every run represents the database exactly. */
  lemma ExactConsistency(s: State, steps: seq<Step>)
    requires DuplicateFree(s) && IsRun(s, steps)
    ensures var t := Run(s, steps);
            t.queue == [] ==> DuplicateFree(t) && Represents(t.cache, t.hal)
  {
    var t := Run(s, steps);
    forall udi, key ensures CacheExplains(s, udi, key) { }
    RunKeepsInvariant(s, steps);
    forall udi ensures Single(s, udi) { }
    RunKeepsSingle(s, steps);
    if t.queue == [] {
      QuietCovers(t);
      forall udi ensures |Stack(t.cache, udi)| == if udi in t.hal then 1 else 0 { assert Single(t, udi); }
      forall udi | udi !in t.hal ensures Lookup(t.cache, udi).None? { LookupIsTop(t.cache, udi); }
    }
  }

  /* The real start makes duplicates */

  /** A start-up during which the database does not change. */
  predicate OnlyScans(steps: seq<Step>) {
    forall i | 0 <= i < |steps| :: steps[i].ListDevices? || steps[i].ScanDevice?
  }

  /** During such a start-up each device has a cell for every scan that reached it. */
  predicate Scanning(s: State, udi: string) {
    |Stack(s.cache, udi)| == if udi in s.hal then s.scans - (if udi in s.todo then 1 else 0) else 0
  }

  ghost predicate QuietScan(s: State) {
    && s.queue == [] && s.scans <= SCANS && (s.todo != [] ==> s.scans >= 1)
    && (forall i, j | 0 <= i < j < |s.todo| :: s.todo[i] != s.todo[j])
    && forall udi :: Scanning(s, udi)
  }

  lemma {:induction false} QuietScans(s: State, steps: seq<Step>)
    requires QuietScan(s) && OnlyScans(steps) && IsRun(s, steps)
    ensures QuietScan(Run(s, steps)) && Run(s, steps).hal == s.hal
    decreases |steps|
  {
    if steps != [] {
      var step := steps[0];
      var t := Apply(s, step);
      forall udi ensures Scanning(t, udi) {
        assert Scanning(s, udi);
        if step.ScanDevice? {
          var u := s.todo[0];
          assert s.todo == [u] + t.todo;
          PushPushes(s.cache, u, step.entries, udi);
        }
      }
      QuietScans(t, steps[1..]);
    }
  }

  /** After the real start, if nothing changed meanwhile, every device has exactly two cells. */
  lemma RealStartDoubles(s: State, steps: seq<Step>)
    requires Starting(s) && OnlyScans(steps) && IsRun(s, steps) && Ready(Run(s, steps))
    ensures var t := Run(s, steps);
            t.hal == s.hal && t.queue == [] && forall udi :: |Stack(t.cache, udi)| == if udi in t.hal then 2 else 0
  {
    assert forall udi :: Scanning(s, udi);
    QuietScans(s, steps);
    var t := Run(s, steps);
    forall udi ensures |Stack(t.cache, udi)| == if udi in t.hal then 2 else 0 { assert Scanning(t, udi); }
  }

  /** When a device is removed from a quiet state, its entry survives exactly if it had a duplicate. */
  lemma RemovalLeavesStale(s: State, udi: string)
    requires Ready(s) && s.queue == [] && udi in s.hal
    ensures IsRun(s, [HalRemove(udi), Dispatch([])])
    ensures var t := Run(s, [HalRemove(udi), Dispatch([])]);
            t.queue == [] && udi !in t.hal && (Lookup(t.cache, udi).Some? <==> |Stack(s.cache, udi)| >= 2)
  {
    var r := Apply(s, HalRemove(udi));
    assert r.queue == [Removed(udi)];
    var t := Apply(r, Dispatch([]));
    var steps := [HalRemove(udi), Dispatch([])];
    assert steps[1..] == [Dispatch([])] && steps[1..][1..] == [];
    assert Run(s, steps) == Run(r, steps[1..]) == Run(t, []);
    PopPops(s.cache, udi, udi);
    LookupIsTop(t.cache, udi);
  }

  /* What the doubles of the real start become */

  predicate IsChange(step: Step) {
    step.HalAdd? || step.HalRemove? || step.HalSet? || step.HalUnset?
  }

  /** Every change of the database is handled before the next one. */
  predicate Prompt(steps: seq<Step>)
    decreases |steps|
  {
    steps == [] || (|steps| >= 2 && IsChange(steps[0]) && steps[1].Dispatch? && Prompt(steps[2..]))
  }

  /** The cells of a device beyond the one that it should have. */
  function Excess(s: State, udi: string): int {
    |Stack(s.cache, udi)| - if udi in s.hal then 1 else 0
  }

  lemma {:induction false} PromptStep(s: State, change: Step, entries: seq<Entry>, udi: string)
    requires Ready(s) && s.queue == [] && IsChange(change) && Enabled(s, change)
    requires Enabled(Apply(s, change), Dispatch(entries)) && Excess(s, udi) >= 0
    ensures var t := Apply(Apply(s, change), Dispatch(entries));
            Ready(t) && t.queue == [] && Excess(t, udi) == Excess(s, udi)
  {
    var r := Apply(s, change);
    assert r.queue == [r.queue[0]];
    HandleOnStack(r.hal, r.cache, r.queue[0], entries, udi);
  }

  /** When every change is handled before the next one, no device ever gains or loses an excess cell. */
  lemma {:induction false} ExcessStays(s: State, steps: seq<Step>, udi: string)
    requires Ready(s) && s.queue == [] && Prompt(steps) && IsRun(s, steps) && Excess(s, udi) >= 0
    ensures var t := Run(s, steps); Ready(t) && t.queue == [] && Excess(t, udi) == Excess(s, udi)
    decreases |steps|
  {
    if steps != [] {
      var r := Apply(s, steps[0]);
      assert steps[1..][0] == steps[1] && steps[1..][1..] == steps[2..];
      PromptStep(s, steps[0], steps[1].entries, udi);
      ExcessStays(Apply(r, steps[1]), steps[2..], udi);
    }
  }

  /** After an undisturbed real start, and from then on with every change handled before the next one: the
      devices that were there at the start have one cell too many for ever, the others none. A lookup of a
      device that is gone finds a stale cell exactly if it was there at the start. */
  lemma {:induction false} StartLeavesOneStale(s: State, start: seq<Step>, steps: seq<Step>, udi: string)
    requires Starting(s) && OnlyScans(start) && IsRun(s, start) && Ready(Run(s, start))
    requires Prompt(steps) && IsRun(Run(s, start), steps)
    ensures var t := Run(Run(s, start), steps);
            t.queue == [] &&
            |Stack(t.cache, udi)| == (if udi in t.hal then 1 else 0) + (if udi in s.hal then 1 else 0) &&
            (udi !in t.hal ==> (Lookup(t.cache, udi).Some? <==> udi in s.hal))
  {
    RealStartDoubles(s, start);
    ExcessStays(Run(s, start), steps, udi);
    LookupIsTop(Run(Run(s, start), steps).cache, udi);
  }
}
