/** What the device list holds, as values: cells in list order, each with its properties in list
    order. A udi may have several cells; the first one is the one that a lookup finds. */
module Cells {
  import opened Options
  import opened Hal

  datatype Property = Property(key: string, values: seq<string>)
  datatype Cell = Cell(udi: string, properties: seq<Property>)

  /* Lookup */

  function FirstKey(ps: seq<Property>, key: string, from: nat): (i: nat)
    requires from <= |ps|
    ensures from <= i <= |ps| && (i < |ps| ==> ps[i].key == key)
    ensures forall k | from <= k < i :: ps[k].key != key
    decreases |ps| - from
  {
    if from == |ps| || ps[from].key == key then from else FirstKey(ps, key, from + 1)
  }

  function FirstUdi(cs: seq<Cell>, udi: string, from: nat): (i: nat)
    requires from <= |cs|
    ensures from <= i <= |cs| && (i < |cs| ==> cs[i].udi == udi)
    ensures forall k | from <= k < i :: cs[k].udi != udi
    decreases |cs| - from
  {
    if from == |cs| || cs[from].udi == udi then from else FirstUdi(cs, udi, from + 1)
  }

  function Get(ps: seq<Property>, key: string): Option<seq<string>> {
    var i := FirstKey(ps, key, 0);
    if i < |ps| then Some(ps[i].values) else None
  }

  function Lookup(cs: seq<Cell>, udi: string): Option<seq<Property>> {
    var i := FirstUdi(cs, udi, 0);
    if i < |cs| then Some(cs[i].properties) else None
  }

  /* Changes */

  /** The properties of a new cell: each one is put in front. */
  function Load(entries: seq<Entry>): (ps: seq<Property>)
    ensures |ps| == |entries|
  {
    seq(|entries|, i requires 0 <= i < |entries| =>
      var e := entries[|entries| - 1 - i]; Property(e.key, Format(e.value)))
  }

  function SetKey(ps: seq<Property>, key: string, values: seq<string>): seq<Property> {
    var i := FirstKey(ps, key, 0);
    if i < |ps| then ps[i := Property(key, values)] else [Property(key, values)] + ps
  }

  function DropKey(ps: seq<Property>, key: string): seq<Property> {
    var i := FirstKey(ps, key, 0);
    if i < |ps| then ps[..i] + ps[i + 1..] else ps
  }

  function Push(cs: seq<Cell>, udi: string, entries: seq<Entry>): seq<Cell> {
    [Cell(udi, Load(entries))] + cs
  }

  function Pop(cs: seq<Cell>, udi: string): seq<Cell> {
    var i := FirstUdi(cs, udi, 0);
    if i < |cs| then cs[..i] + cs[i + 1..] else cs
  }

  function Change(cs: seq<Cell>, udi: string, ps: seq<Property>): seq<Cell> {
    var i := FirstUdi(cs, udi, 0);
    if i < |cs| then cs[i := Cell(udi, ps)] else cs
  }

  /* The list as a map from udis to stacks */

  function Stack(cs: seq<Cell>, udi: string): seq<seq<Property>> {
    if cs == [] then [] else (if cs[0].udi == udi then [cs[0].properties] else []) + Stack(cs[1..], udi)
  }

  lemma {:induction false} StackAppend(a: seq<Cell>, b: seq<Cell>, udi: string)
    ensures Stack(a + b, udi) == Stack(a, udi) + Stack(b, udi)
  {
    if a == [] {
      assert a + b == b;
    } else {
      assert (a + b)[1..] == a[1..] + b;
      StackAppend(a[1..], b, udi);
    }
  }

  lemma {:induction false} StackWithout(cs: seq<Cell>, udi: string)
    requires forall k | 0 <= k < |cs| :: cs[k].udi != udi
    ensures Stack(cs, udi) == []
  {
    if cs != [] { StackWithout(cs[1..], udi); }
  }

  lemma StackOne(c: Cell, udi: string)
    ensures Stack([c], udi) == if c.udi == udi then [c.properties] else []
  {
    assert [c][1..] == [];
  }

  /** The list around its first cell for a udi. */
  lemma StackSplit(cs: seq<Cell>, i: nat, udi: string)
    requires i < |cs|
    ensures Stack(cs, udi) == Stack(cs[..i], udi) + Stack([cs[i]], udi) + Stack(cs[i + 1..], udi)
  {
    assert cs == cs[..i] + ([cs[i]] + cs[i + 1..]);
    StackAppend(cs[..i], [cs[i]] + cs[i + 1..], udi);
    StackAppend([cs[i]], cs[i + 1..], udi);
  }

  /** A lookup finds the top of the stack. */
  lemma LookupIsTop(cs: seq<Cell>, udi: string)
    ensures Lookup(cs, udi) == if Stack(cs, udi) == [] then None else Some(Stack(cs, udi)[0])
  {
    var i := FirstUdi(cs, udi, 0);
    if i < |cs| {
      StackSplit(cs, i, udi);
      StackOne(cs[i], udi);
      StackWithout(cs[..i], udi);
    } else {
      StackWithout(cs, udi);
    }
  }

  /** Adding a device pushes on its stack and leaves every other stack alone. */
  lemma PushPushes(cs: seq<Cell>, udi: string, entries: seq<Entry>, other: string)
    ensures Stack(Push(cs, udi, entries), other) == (if other == udi then [Load(entries)] else []) + Stack(cs, other)
  {
    assert Push(cs, udi, entries)[1..] == cs;
  }

  /** Removing a device pops its newest cell and leaves every other stack alone. */
  lemma PopPops(cs: seq<Cell>, udi: string, other: string)
    ensures Stack(Pop(cs, udi), other) ==
            if other == udi && Stack(cs, udi) != [] then Stack(cs, udi)[1..] else Stack(cs, other)
  {
    var i := FirstUdi(cs, udi, 0);
    if i < |cs| {
      StackSplit(cs, i, other);
      StackOne(cs[i], other);
      StackAppend(cs[..i], cs[i + 1..], other);
      if other == udi { StackWithout(cs[..i], udi); }
    } else {
      StackWithout(cs, udi);
    }
  }

  lemma StackUpdate(cs: seq<Cell>, i: nat, c: Cell, udi: string)
    requires i < |cs|
    ensures Stack(cs[i := c], udi) == Stack(cs[..i], udi) + Stack([c], udi) + Stack(cs[i + 1..], udi)
  {
    var d := cs[i := c];
    StackSplit(d, i, udi);
    assert d[..i] == cs[..i] && d[i + 1..] == cs[i + 1..];
  }

  /** Changing a device touches the newest cell only. */
  lemma ChangeTouchesTop(cs: seq<Cell>, udi: string, ps: seq<Property>, other: string)
    ensures Stack(Change(cs, udi, ps), other) ==
            if other == udi && Stack(cs, udi) != [] then [ps] + Stack(cs, udi)[1..] else Stack(cs, other)
  {
    var i := FirstUdi(cs, udi, 0);
    if i < |cs| {
      StackSplit(cs, i, other);
      StackUpdate(cs, i, Cell(udi, ps), other);
      StackOne(cs[i], other);
      StackOne(Cell(udi, ps), other);
      if other == udi { StackWithout(cs[..i], udi); }
    } else {
      StackWithout(cs, udi);
    }
  }

  /* Keys */

  predicate DistinctKeys(ps: seq<Property>) {
    forall i, j | 0 <= i < j < |ps| :: ps[i].key != ps[j].key
  }

  predicate AllDistinct(cs: seq<Cell>) {
    forall i | 0 <= i < |cs| :: DistinctKeys(cs[i].properties)
  }

  lemma LoadIsDistinct(entries: seq<Entry>, props: Props)
    requires Lists(entries, props)
    ensures DistinctKeys(Load(entries))
  {
    var ps, n := Load(entries), |entries|;
    forall i, j | 0 <= i < j < n ensures ps[i].key != ps[j].key {
      assert entries[n - 1 - j].key != entries[n - 1 - i].key;
    }
  }

  lemma SetKeeps(ps: seq<Property>, key: string, values: seq<string>)
    requires DistinctKeys(ps)
    ensures DistinctKeys(SetKey(ps, key, values))
  {
  }

  lemma DropKeeps(ps: seq<Property>, key: string)
    requires DistinctKeys(ps)
    ensures DistinctKeys(DropKey(ps, key))
  {
  }

  lemma KeyAt(ps: seq<Property>, key: string, i: nat)
    requires DistinctKeys(ps) && i < |ps| && ps[i].key == key
    ensures Get(ps, key) == Some(ps[i].values)
  {
  }

  lemma NoKey(ps: seq<Property>, key: string)
    requires forall i | 0 <= i < |ps| :: ps[i].key != key
    ensures Get(ps, key) == None
  {
  }

  /** The properties are those of the database, with their formatted values. */
  ghost predicate Shows(ps: seq<Property>, props: Props) {
    forall key :: Get(ps, key) == if key in props then Some(Format(props[key])) else None
  }

  /** A cell that was just loaded shows the properties it was loaded from. */
  lemma LoadShows(entries: seq<Entry>, props: Props)
    requires Lists(entries, props)
    ensures Shows(Load(entries), props)
  {
    LoadIsDistinct(entries, props);
    forall key ensures Get(Load(entries), key) == if key in props then Some(Format(props[key])) else None {
      if i :| 0 <= i < |entries| && entries[i].key == key {
        KeyAt(Load(entries), key, |entries| - 1 - i);
      } else {
        NoKey(Load(entries), key);
      }
    }
  }

  lemma GetAfterSet(ps: seq<Property>, key: string, values: seq<string>, other: string)
    requires DistinctKeys(ps)
    ensures Get(SetKey(ps, key, values), other) == if other == key then Some(values) else Get(ps, other)
  {
    var qs, i := SetKey(ps, key, values), FirstKey(ps, key, 0);
    SetKeeps(ps, key, values);
    if other == key {
      KeyAt(qs, key, if i < |ps| then i else 0);
    } else {
      var j := FirstKey(ps, other, 0);
      if j < |ps| {
        KeyAt(qs, other, if i < |ps| then j else j + 1);
      } else {
        NoKey(qs, other);
      }
    }
  }

  lemma GetAfterDrop(ps: seq<Property>, key: string, other: string)
    requires DistinctKeys(ps)
    ensures Get(DropKey(ps, key), other) == if other == key then None else Get(ps, other)
  {
    var qs, i := DropKey(ps, key), FirstKey(ps, key, 0);
    DropKeeps(ps, key);
    if other == key {
      NoKey(qs, key);
    } else {
      var j := FirstKey(ps, other, 0);
      if j < |ps| {
        KeyAt(qs, other, if i < |ps| && i < j then j - 1 else j);
      } else {
        NoKey(qs, other);
      }
    }
  }
}

/** The operations of the device list on values, as the event handlers use them. Every one reads the
    database as it is when the handler runs. */
module Handlers {
  import opened Options
  import opened Hal
  import opened Cells

  datatype Event = Added(udi: string) | Removed(udi: string) | Modified(udi: string, key: string, removed: bool)

  /** Whether `entries` may be the property set that the database hands out for a udi. */
  ghost predicate MayList(hal: Database, udi: string, entries: seq<Entry>) {
    udi in hal ==> Lists(entries, hal[udi])
  }

  /** `halevt_device_list_add_device`: no check for a cell that exists. */
  function AddDevice(hal: Database, cs: seq<Cell>, udi: string, entries: seq<Entry>): seq<Cell> {
    if udi in hal then Push(cs, udi, entries) else cs
  }

  /** `halevt_device_list_set_property`. */
  function SetProperty(hal: Database, cs: seq<Cell>, udi: string, key: string): seq<Cell> {
    var ps, values := Lookup(cs, udi), PropertyValue(hal, udi, key);
    if ps.None? || values.None? then cs else Change(cs, udi, SetKey(ps.value, key, values.value))
  }

  /** `halevt_device_list_remove_property`. */
  function RemoveProperty(cs: seq<Cell>, udi: string, key: string): seq<Cell> {
    var ps := Lookup(cs, udi);
    if ps.None? then cs else Change(cs, udi, DropKey(ps.value, key))
  }

  /** What a callback does to the list. */
  function Handle(hal: Database, cs: seq<Cell>, event: Event, entries: seq<Entry>): seq<Cell> {
    match event
    case Added(udi) => AddDevice(hal, cs, udi, entries)
    case Removed(udi) => Pop(cs, udi)
    case Modified(udi, key, removed) => if removed then RemoveProperty(cs, udi, key) else SetProperty(hal, cs, udi, key)
  }

  lemma DistinctAfter(hal: Database, cs: seq<Cell>, event: Event, entries: seq<Entry>)
    requires AllDistinct(cs) && MayList(hal, event.udi, entries)
    ensures AllDistinct(Handle(hal, cs, event, entries))
  {
    if event.Added? && event.udi in hal {
      LoadIsDistinct(entries, hal[event.udi]);
    } else if event.Modified? {
      var i := FirstUdi(cs, event.udi, 0);
      if i < |cs| {
        var ps := cs[i].properties;
        DropKeeps(ps, event.key);
        if HasProperty(hal, event.udi, event.key) { SetKeeps(ps, event.key, Format(hal[event.udi][event.key])); }
      }
    }
  }

  /* The list refines a map from udis to stacks */

  /** What an event does to the stack of its udi: an insertion pushes, a removal pops the newest entry,
      and a modification touches the newest entry only. */
  function OnStack(hal: Database, st: seq<seq<Property>>, event: Event, entries: seq<Entry>): seq<seq<Property>> {
    match event
    case Added(udi) => if udi in hal then [Load(entries)] + st else st
    case Removed(_) => if st == [] then st else st[1..]
    case Modified(udi, key, removed) =>
      if st == [] then st
      else if removed then [DropKey(st[0], key)] + st[1..]
      else if HasProperty(hal, udi, key) then [SetKey(st[0], key, Format(hal[udi][key]))] + st[1..]
      else st
  }

  /** An event acts on the stack of its udi and leaves the stack of every other udi alone. */
  lemma HandleOnStack(hal: Database, cs: seq<Cell>, event: Event, entries: seq<Entry>, udi: string)
    ensures Stack(Handle(hal, cs, event, entries), udi) ==
            if udi == event.udi then OnStack(hal, Stack(cs, udi), event, entries) else Stack(cs, udi)
  {
    match event
    case Added(u) => PushPushes(cs, u, entries, udi); assert [] + Stack(cs, udi) == Stack(cs, udi);
    case Removed(u) => PopPops(cs, u, udi);
    case Modified(u, key, removed) =>
      LookupIsTop(cs, u);
      if Lookup(cs, u).Some? {
        var ps := Lookup(cs, u).value;
        ChangeTouchesTop(cs, u, DropKey(ps, key), udi);
        if HasProperty(hal, u, key) { ChangeTouchesTop(cs, u, SetKey(ps, key, Format(hal[u][key])), udi); }
      }
  }

  /** A handled event, with the database that its handler saw. */
  datatype Handled = Handled(hal: Database, event: Event, entries: seq<Entry>)

  function HandleAll(cs: seq<Cell>, log: seq<Handled>): seq<Cell> {
    if log == [] then cs else
    var h := log[|log| - 1];
    Handle(h.hal, HandleAll(cs, log[..|log| - 1]), h.event, h.entries)
  }

  function OnStackAll(st: seq<seq<Property>>, log: seq<Handled>, udi: string): seq<seq<Property>> {
    if log == [] then st else
    var h, before := log[|log| - 1], OnStackAll(st, log[..|log| - 1], udi);
    if h.event.udi == udi then OnStack(h.hal, before, h.event, h.entries) else before
  }

  /** From any start and for any events: the list is a stack for each udi, run on its own. */
  lemma {:induction false} RefinesStacks(cs: seq<Cell>, log: seq<Handled>, udi: string)
    ensures Stack(HandleAll(cs, log), udi) == OnStackAll(Stack(cs, udi), log, udi)
  {
    if log != [] {
      var n := |log| - 1;
      RefinesStacks(cs, log[..n], udi);
      HandleOnStack(log[n].hal, HandleAll(cs, log[..n]), log[n].event, log[n].entries, udi);
    }
  }

  lemma OtherLookups(hal: Database, cs: seq<Cell>, event: Event, entries: seq<Entry>, udi: string)
    requires udi != event.udi
    ensures Lookup(Handle(hal, cs, event, entries), udi) == Lookup(cs, udi)
  {
    HandleOnStack(hal, cs, event, entries, udi);
    LookupIsTop(cs, udi);
    LookupIsTop(Handle(hal, cs, event, entries), udi);
  }

  lemma AddedLookup(hal: Database, cs: seq<Cell>, udi: string, entries: seq<Entry>)
    requires udi in hal && Lists(entries, hal[udi])
    ensures Lookup(AddDevice(hal, cs, udi, entries), udi) == Some(Load(entries))
    ensures Shows(Load(entries), hal[udi])
  {
    PushPushes(cs, udi, entries, udi);
    LookupIsTop(Push(cs, udi, entries), udi);
    LoadShows(entries, hal[udi]);
  }

  lemma ChangedLookup(cs: seq<Cell>, udi: string, ps: seq<Property>)
    requires Lookup(cs, udi).Some?
    ensures Lookup(Change(cs, udi, ps), udi) == Some(ps)
  {
    LookupIsTop(cs, udi);
    ChangeTouchesTop(cs, udi, ps, udi);
    LookupIsTop(Change(cs, udi, ps), udi);
  }

  /** What a modification leaves for a lookup: the key as it is now, every other key as before. */
  lemma ModifiedLookup(hal: Database, cs: seq<Cell>, udi: string, key: string, removed: bool, other: string)
    requires AllDistinct(cs) && Lookup(cs, udi).Some?
    ensures var after := Lookup(Handle(hal, cs, Modified(udi, key, removed), []), udi);
            after.Some? &&
            Get(after.value, other) ==
            if other != key then Get(Lookup(cs, udi).value, other)
            else if removed then None
            else if HasProperty(hal, udi, key) then Some(Format(hal[udi][key])) else Get(Lookup(cs, udi).value, other)
  {
    var ps := Lookup(cs, udi).value;
    assert DistinctKeys(ps);
    GetAfterDrop(ps, key, other);
    ChangedLookup(cs, udi, DropKey(ps, key));
    if HasProperty(hal, udi, key) {
      GetAfterSet(ps, key, Format(hal[udi][key]), other);
      ChangedLookup(cs, udi, SetKey(ps, key, Format(hal[udi][key])));
    }
  }
}
