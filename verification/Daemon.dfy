/** The daemon's callbacks: the commands of the rules that fire are spawned, then the device list follows
    the event. */
module Daemon {
  import opened Options
  import opened CStrings
  import opened CBuffers
  import opened ExecTemplates
  import opened Hal
  import opened Cells
  import opened Handlers
  import opened Matching
  import opened Reference
  import opened PropertyRules
  import opened DeviceList
  import opened Evaluation

  /** The commands of a callback. */
  function Fired(hal: Database, cs: seq<Cell>, event: Event, insertions: seq<Rule>, removals: seq<Rule>,
                 properties: seq<PropertyRule>): seq<string> {
    match event
    case Added(udi) => Commands(insertions, Live(hal, udi), LiveValue(hal, udi))
    case Removed(udi) => RemovalCommands(hal, cs, udi, removals)
    case Modified(udi, key, _) => PropertyCommands(hal, udi, key, properties)
  }

  /** The newest cell of the udi, if there is one, is where the removal rules look; else the database. */
  ghost predicate RemovalSpawned(hal: Database, cs: seq<Cell>, udi: string, removals: seq<Rule>, before: seq<string>, after: seq<string>) {
    (forall ps :: NewestCell(cs, udi, ps) ==> Spawned(OnCell(cs, ps, udi), removals, before, after)) &&
    ((forall ps :: !NewestCell(cs, udi, ps)) ==> Spawned(OnHal(hal, udi), removals, before, after))
  }

  /** What the callback for an event spawns. */
  ghost predicate EventSpawned(hal: Database, cs: seq<Cell>, event: Event, insertions: seq<Rule>, removals: seq<Rule>,
                               properties: seq<PropertyRule>, before: seq<string>, after: seq<string>) {
    match event
    case Added(udi) => Spawned(OnHal(hal, udi), insertions, before, after)
    case Removed(udi) => RemovalSpawned(hal, cs, udi, removals, before, after)
    case Modified(udi, key, _) => ActedSince(hal, udi, key, properties, before, after)
  }

  lemma RemovalMeans(hal: Database, cs: seq<Cell>, udi: string, removals: seq<Rule>, before: seq<string>)
    ensures RemovalSpawned(hal, cs, udi, removals, before, before + RemovalCommands(hal, cs, udi, removals))
  {
    var newest := Lookup(cs, udi);
    forall ps ensures NewestCell(cs, udi, ps) <==> newest == Some(ps) { NewestCellIsLookup(cs, udi, ps); }
    if newest.Some? {
      assert NewestCell(cs, udi, newest.value);
      CommandsSpawned(OnCell(cs, newest.value, udi), removals, before);
    } else {
      CommandsSpawned(OnHal(hal, udi), removals, before);
    }
  }

  lemma FiredMeans(hal: Database, cs: seq<Cell>, event: Event, insertions: seq<Rule>, removals: seq<Rule>,
                   properties: seq<PropertyRule>, before: seq<string>)
    ensures EventSpawned(hal, cs, event, insertions, removals, properties, before,
                         before + Fired(hal, cs, event, insertions, removals, properties))
  {
    match event
    case Added(udi) => CommandsSpawned(OnHal(hal, udi), insertions, before);
    case Removed(udi) => RemovalMeans(hal, cs, udi, removals, before);
    case Modified(udi, key, _) => PropertyCommandsAct(hal, udi, key, properties, before);
  }

  /* C strings: none of them holds a terminator */

  predicate PropertiesText(ps: seq<Property>) {
    forall i | 0 <= i < |ps| :: TextList(ps[i].values)
  }

  predicate CellsText(cs: seq<Cell>) {
    forall i | 0 <= i < |cs| :: PropertiesText(cs[i].properties)
  }

  ghost predicate HalText(hal: Database) {
    forall udi, key | HasProperty(hal, udi, key) :: TextList(Format(hal[udi][key]))
  }

  predicate ExecText(l: seq<Element>) {
    forall i | 0 <= i < |l| && l[i].Literal? :: IsText(l[i].text)
  }

  lemma {:induction false} ResolvedText(cs: seq<Cell>, ps: seq<Property>, parents: seq<string>)
    requires CellsText(cs) && PropertiesText(ps)
    ensures var qs := ResolveCached(cs, ps, parents); qs.Some? ==> PropertiesText(qs.value)
    decreases |parents|
  {
    if parents != [] {
      var values := Get(ps, parents[0]);
      if values.Some? && values.value != [] {
        var next := Lookup(cs, values.value[0]);
        if next.Some? { ResolvedText(cs, next.value, parents[1..]); }
      }
    }
  }

  lemma CommandIsText(hal: Database, cs: seq<Cell>, udi: string, device: DeviceNode?, ps: seq<Property>, exec: seq<Element>)
    requires HalText(hal) && CellsText(cs) && PropertiesText(ps) && IsText(udi) && ExecText(exec)
    ensures ExpandsToText(exec, Given(hal, cs, udi, device, ps))
  {
    var value := Given(hal, cs, udi, device, ps);
    forall i | 0 <= i < |exec| ensures IsText(ElementValue(exec[i], value)) {
      if exec[i].Property? {
        var path := exec[i].path;
        ResolvedText(cs, ps, path.parents);
        assert value(path).Some? ==> TextList(value(path).value);
      }
    }
  }

  lemma HandleKeepsText(hal: Database, cs: seq<Cell>, event: Event, entries: seq<Entry>)
    requires HalText(hal) && CellsText(cs) && (event.Added? ==> MayList(hal, event.udi, entries))
    ensures CellsText(Handle(hal, cs, event, entries))
  {
    if event.Added? && event.udi in hal {
      forall i | 0 <= i < |entries| ensures TextList(Format(entries[i].value)) {
        assert HasProperty(hal, event.udi, entries[i].key);
      }
      assert PropertiesText(Load(entries));
    } else if event.Modified? && Lookup(cs, event.udi).Some? {
      var ps := Lookup(cs, event.udi).value;
      assert PropertiesText(ps) && PropertiesText(DropKey(ps, event.key));
      if HasProperty(hal, event.udi, event.key) {
        assert PropertiesText(SetKey(ps, event.key, Format(hal[event.udi][event.key])));
      }
    }
  }

  ghost predicate RuleOk(r: Rule) {
    InRange(r.tree) && ExecText(r.exec)
  }

  ghost predicate PropertyRuleOk(r: PropertyRule) {
    InRange(r.tree) && forall i | 0 <= i < |r.actions| :: ExecText(r.actions[i].exec)
  }

  ghost predicate RulesOk(rules: seq<Rule>) {
    forall i | 0 <= i < |rules| :: RuleOk(rules[i])
  }

  ghost predicate PropertyRulesOk(rules: seq<PropertyRule>) {
    forall i | 0 <= i < |rules| :: PropertyRuleOk(rules[i])
  }

  class Daemon {
    const list: DeviceList
    const starts: seq<Rule>
    const insertions: seq<Rule>
    const removals: seq<Rule>
    const properties: seq<PropertyRule>
    var spawned: seq<string>

    /** What the loops over rules rely on. */
    ghost predicate Sound()
      reads list, list.repr
    {
      this !in list.repr && list.Valid() && CellsText(list.cells)
    }

    ghost predicate Valid()
      reads list, list.repr
    {
      Sound() && RulesOk(starts) && RulesOk(insertions) && RulesOk(removals) && PropertyRulesOk(properties)
    }

    constructor (starts: seq<Rule>, insertions: seq<Rule>, removals: seq<Rule>, properties: seq<PropertyRule>)
      requires RulesOk(starts) && RulesOk(insertions) && RulesOk(removals) && PropertyRulesOk(properties)
      ensures Valid() && fresh(list.repr) && list.cells == [] && spawned == []
      ensures this.starts == starts && this.insertions == insertions && this.removals == removals && this.properties == properties
    {
      this.starts, this.insertions, this.removals, this.properties := starts, insertions, removals, properties;
      spawned := [];
      list := new DeviceList();
    }

    /** The command of a template, as it is spawned. */
    method CommandLine(hal: Database, exec: seq<Element>, udi: string, device: DeviceNode?, ghost ps: seq<Property>)
      returns (command: string)
      requires Sound() && HalText(hal) && IsText(udi) && ExecText(exec)
      requires PropertiesText(ps) && (device != null ==> device.Shows(ps))
      ensures command == Expand(exec, Given(hal, list.cells, udi, device, ps))
    {
      CommandIsText(hal, list.cells, udi, device, ps, exec);
      var buf, text := ExpandCommand(hal, list, exec, udi, device, ps);
      var length := StrLen(buf, text);
      command := buf[..length];
    }

    /** The loop over the rules that each callback has, by udi, or by device when there is one: the commands
        that it spawns. */
    method Fire(hal: Database, rules: seq<Rule>, udi: string, device: DeviceNode?, ghost ps: seq<Property>)
      returns (commands: seq<string>)
      requires Sound() && HalText(hal) && IsText(udi) && RulesOk(rules)
      requires PropertiesText(ps) && (device != null ==> device.Shows(ps))
      ensures commands == Commands(rules, Asked(hal, list.cells, if device == null then Some(udi) else None, ps),
                                   Given(hal, list.cells, udi, device, ps))
      ensures Reference.Fire(if device == null then OnHal(hal, udi) else OnCell(list.cells, ps, udi), rules, commands)
    {
      var asked := if device == null then Some(udi) else None;
      ghost var holds, value := Asked(hal, list.cells, asked, ps), Given(hal, list.cells, udi, device, ps);
      commands := [];
      for k := 0 to |rules|
        invariant commands == Commands(rules[..k], holds, value)
      {
        assert rules[..k + 1][..k] == rules[..k];
        var fires := TrueTree(hal, list, rules[k].tree, asked, device, ps);
        if fires {
          var command := CommandLine(hal, rules[k].exec, udi, device, ps);
          commands := commands + [command];
        }
      }
      assert rules[..|rules|] == rules;
      CommandsFire(if device == null then OnHal(hal, udi) else OnCell(list.cells, ps, udi), rules);
    }

    /** One device of the list of all devices that a start goes through. */
    method Scan(hal: Database, udi: string, entries: seq<Entry>)
      requires Valid() && HalText(hal) && IsText(udi) && MayList(hal, udi, entries)
      modifies this, list, list.repr
      ensures Valid() && fresh(list.repr - old(list.repr))
      ensures list.cells == AddDevice(hal, old(list.cells), udi, entries)
      ensures spawned == old(spawned) + Commands(starts, Live(hal, udi), LiveValue(hal, udi))
      ensures Spawned(OnHal(hal, udi), starts, old(spawned), spawned)
    {
      var commands := Fire(hal, starts, udi, null, []);
      CommandsSpawned(OnHal(hal, udi), starts, spawned);
      spawned := spawned + commands;
      HandleKeepsText(hal, list.cells, Added(udi), entries);
      var _ := list.AddDevice(hal, udi, entries);
    }

    /** `halevt_device_added`. */
    method DeviceAdded(hal: Database, udi: string, entries: seq<Entry>)
      requires Valid() && HalText(hal) && IsText(udi) && MayList(hal, udi, entries)
      modifies this, list, list.repr
      ensures Valid() && fresh(list.repr - old(list.repr))
      ensures list.cells == Handle(hal, old(list.cells), Added(udi), entries)
      ensures spawned == old(spawned) + Fired(hal, old(list.cells), Added(udi), insertions, removals, properties)
      ensures Spawned(OnHal(hal, udi), insertions, old(spawned), spawned)
    {
      var commands := Fire(hal, insertions, udi, null, []);
      CommandsSpawned(OnHal(hal, udi), insertions, spawned);
      spawned := spawned + commands;
      HandleKeepsText(hal, list.cells, Added(udi), entries);
      var _ := list.AddDevice(hal, udi, entries);
    }

    /** The commands for a removal: by device if the list has one, else by udi. */
    method FireRemovals(hal: Database, udi: string, device: DeviceNode?) returns (commands: seq<string>)
      requires Valid() && HalText(hal) && IsText(udi)
      requires device == DeviceAfter(list.nodes, FirstUdi(list.cells, udi, 0) - 1)
      ensures commands == RemovalCommands(hal, list.cells, udi, removals)
    {
      ghost var i := FirstUdi(list.cells, udi, 0);
      if device != null {
        list.At(i);
        commands := Fire(hal, removals, udi, device, list.cells[i].properties);
      } else {
        commands := Fire(hal, removals, udi, null, []);
      }
    }

    /** `halevt_device_removed`: the rules see the cell, if there is one, before it goes. */
    method DeviceRemoved(hal: Database, udi: string)
      requires Valid() && HalText(hal) && IsText(udi)
      modifies this, list, list.repr
      ensures Valid() && fresh(list.repr - old(list.repr))
      ensures list.cells == Handle(hal, old(list.cells), Removed(udi), [])
      ensures spawned == old(spawned) + Fired(hal, old(list.cells), Removed(udi), insertions, removals, properties)
      ensures RemovalSpawned(hal, old(list.cells), udi, removals, old(spawned), spawned)
    {
      RemovalMeans(hal, list.cells, udi, removals, spawned);
      var _, device := list.FindDevice(udi);
      var commands := FireRemovals(hal, udi, device);
      spawned := spawned + commands;
      if device != null {
        HandleKeepsText(hal, list.cells, Removed(udi), []);
        var _ := list.RemoveDevice(udi);
      }
    }

    /** One action of a rule about a property. */
    method ActOne(hal: Database, udi: string, key: string, a: Action) returns (commands: seq<string>)
      requires Sound() && HalText(hal) && IsText(udi) && ExecText(a.exec)
      ensures commands == ActionCommand(hal, udi, key, a)
    {
      commands := [];
      var applies := a.value == ANY;
      if !applies {
        applies := PropertyMatchesUdi(hal, key, Some(a.value), udi);
      }
      if applies {
        var command := CommandLine(hal, a.exec, udi, null, []);
        commands := [command];
      }
    }

    /** The actions of one rule about a property. */
    method Act(hal: Database, udi: string, key: string, actions: seq<Action>) returns (commands: seq<string>)
      requires Sound() && HalText(hal) && IsText(udi) && forall i | 0 <= i < |actions| :: ExecText(actions[i].exec)
      ensures commands == ActionCommands(hal, udi, key, actions)
    {
      commands := [];
      for k := 0 to |actions|
        invariant commands == ActionCommands(hal, udi, key, actions[..k])
      {
        assert actions[..k + 1][..k] == actions[..k];
        var more := ActOne(hal, udi, key, actions[k]);
        commands := commands + more;
      }
      assert actions[..|actions|] == actions;
    }

    /** One rule about a property. */
    method FireOne(hal: Database, udi: string, key: string, r: PropertyRule) returns (commands: seq<string>)
      requires Sound() && HalText(hal) && IsText(udi) && PropertyRuleOk(r)
      ensures commands == PropertyCommand(hal, udi, key, r)
    {
      commands := [];
      if r.name == key {
        var fires := TrueTree(hal, list, r.tree, Some(udi), null, []);
        if fires {
          commands := Act(hal, udi, key, r.actions);
        }
      }
    }

    /** The loop over the rules about properties: the commands that it spawns. */
    method FireProperty(hal: Database, rules: seq<PropertyRule>, udi: string, key: string) returns (commands: seq<string>)
      requires Sound() && HalText(hal) && IsText(udi) && PropertyRulesOk(rules)
      ensures commands == PropertyCommands(hal, udi, key, rules)
    {
      commands := [];
      PropertyLoop(hal, udi, key, rules, 0);
      for k := 0 to |rules|
        invariant commands == PropertyCommands(hal, udi, key, rules[..k])
      {
        PropertyLoop(hal, udi, key, rules, k);
        var more := FireOne(hal, udi, key, rules[k]);
        commands := commands + more;
      }
      PropertyLoop(hal, udi, key, rules, |rules|);
    }

    /** `halevt_device_property_modified`. */
    method PropertyModified(hal: Database, udi: string, key: string, removed: bool)
      requires Valid() && HalText(hal) && IsText(udi)
      modifies this, list, list.repr
      ensures Valid() && fresh(list.repr - old(list.repr))
      ensures list.cells == Handle(hal, old(list.cells), Modified(udi, key, removed), [])
      ensures spawned == old(spawned) + Fired(hal, old(list.cells), Modified(udi, key, removed), insertions, removals, properties)
      ensures ActedSince(hal, udi, key, properties, old(spawned), spawned)
    {
      PropertyCommandsAct(hal, udi, key, properties, spawned);
      var commands := FireProperty(hal, properties, udi, key);
      spawned := spawned + commands;
      HandleKeepsText(hal, list.cells, Modified(udi, key, removed), []);
      if removed {
        var _ := list.RemoveProperty(udi, key);
      } else {
        var _ := list.SetProperty(hal, udi, key);
      }
    }

    /** The callback for an event. */
    method Dispatch(hal: Database, event: Event, entries: seq<Entry>)
      requires Valid() && HalText(hal) && IsText(event.udi) && MayList(hal, event.udi, entries)
      modifies this, list, list.repr
      ensures Valid() && fresh(list.repr - old(list.repr))
      ensures list.cells == Handle(hal, old(list.cells), event, entries)
      ensures spawned == old(spawned) + Fired(hal, old(list.cells), event, insertions, removals, properties)
      ensures EventSpawned(hal, old(list.cells), event, insertions, removals, properties, old(spawned), spawned)
    {
      match event {
        case Added(udi) => DeviceAdded(hal, udi, entries);
        case Removed(udi) => DeviceRemoved(hal, udi);
        case Modified(udi, key, removed) => PropertyModified(hal, udi, key, removed);
      }
    }
  }
}
