/** The daemon over time: its linked lists and the commands that it spawns in any run of the step system. */
module Runs {
  import opened CStrings
  import opened Matching
  import opened Reference
  import opened PropertyRules
  import opened Events
  import opened Daemon

  /** What the program gets to see in a state holds no terminators. */
  ghost predicate StateText(s: State) {
    HalText(s.hal) && (forall i | 0 <= i < |s.queue| :: IsText(s.queue[i].udi)) && TextList(s.todo)
  }

  ghost predicate RunText(s: State, steps: seq<Step>)
    requires IsRun(s, steps)
    decreases |steps|
  {
    StateText(s) && (steps != [] ==> RunText(Apply(s, steps[0]), steps[1..]))
  }

  /** The rules of a program. */
  datatype RuleSet = RuleSet(starts: seq<Rule>, insertions: seq<Rule>, removals: seq<Rule>, properties: seq<PropertyRule>)

  /** The commands that a step makes the program spawn. */
  function StepCommands(s: State, step: Step, rules: RuleSet): seq<string>
    requires Enabled(s, step)
  {
    match step
    case ScanDevice(_) => Commands(rules.starts, Live(s.hal, s.todo[0]), LiveValue(s.hal, s.todo[0]))
    case Dispatch(_) => Fired(s.hal, s.cache, s.queue[0], rules.insertions, rules.removals, rules.properties)
    case _ => []
  }

  /** The same, said about the rules and the database themselves. */
  ghost predicate StepSpawned(s: State, step: Step, rules: RuleSet, before: seq<string>, after: seq<string>)
    requires Enabled(s, step)
  {
    match step
    case ScanDevice(_) => Spawned(OnHal(s.hal, s.todo[0]), rules.starts, before, after)
    case Dispatch(_) => EventSpawned(s.hal, s.cache, s.queue[0], rules.insertions, rules.removals, rules.properties, before, after)
    case _ => after == before
  }

  function RunCommands(s: State, steps: seq<Step>, rules: RuleSet): seq<string>
    requires IsRun(s, steps)
    decreases |steps|
  {
    if steps == [] then [] else StepCommands(s, steps[0], rules) + RunCommands(Apply(s, steps[0]), steps[1..], rules)
  }

  /** After `k` steps, with the commands `done`: what is left of the run. */
  ghost predicate Remaining(s: State, steps: seq<Step>, k: nat, t: State, done: seq<string>, rules: RuleSet) {
    var state :=
      && k <= |steps| && IsRun(s, steps) && IsRun(t, steps[k..]) && RunText(t, steps[k..])
      && Run(t, steps[k..]) == Run(s, steps)
      && done + RunCommands(t, steps[k..], rules) == RunCommands(s, steps, rules);
    state
  }

  lemma AllRemains(s: State, steps: seq<Step>, rules: RuleSet)
    requires IsRun(s, steps) && RunText(s, steps)
    ensures Remaining(s, steps, 0, s, [], rules)
  {
    assert steps[0..] == steps;
  }

  lemma OneLess(s: State, steps: seq<Step>, k: nat, t: State, done: seq<string>, rules: RuleSet)
    requires Remaining(s, steps, k, t, done, rules) && k < |steps|
    ensures StateText(t) && Enabled(t, steps[k])
    ensures Remaining(s, steps, k + 1, Apply(t, steps[k]), done + StepCommands(t, steps[k], rules), rules)
  {
    assert steps[k..][0] == steps[k] && steps[k..][1..] == steps[k + 1..];
    var u := Apply(t, steps[k]);
    assert done + (StepCommands(t, steps[k], rules) + RunCommands(u, steps[k + 1..], rules)) ==
           (done + StepCommands(t, steps[k], rules)) + RunCommands(u, steps[k + 1..], rules);
  }

  lemma NoneRemain(s: State, steps: seq<Step>, t: State, done: seq<string>, rules: RuleSet)
    requires Remaining(s, steps, |steps|, t, done, rules)
    ensures t == Run(s, steps) && done == RunCommands(s, steps, rules)
  {
    assert steps[|steps|..] == [];
  }

  function RulesOf(d: Daemon): RuleSet {
    RuleSet(d.starts, d.insertions, d.removals, d.properties)
  }

  /** One step: the program scans a device or handles an event; other steps are not its own. */
  method Take(d: Daemon, s: State, step: Step)
    requires d.Valid() && d.list.cells == s.cache && Enabled(s, step) && StateText(s)
    modifies d, d.list, d.list.repr
    ensures d.Valid() && fresh(d.list.repr - old(d.list.repr))
    ensures d.list.cells == Apply(s, step).cache
    ensures d.spawned == old(d.spawned) + StepCommands(s, step, RulesOf(d))
    ensures StepSpawned(s, step, RulesOf(d), old(d.spawned), d.spawned)
  {
    match step {
      case ScanDevice(entries) => d.Scan(s.hal, s.todo[0], entries);
      case Dispatch(entries) => d.Dispatch(s.hal, s.queue[0], entries);
      case _ =>
    }
  }

  /** One step of a run. */
  method TakeNext(d: Daemon, s: State, steps: seq<Step>, k: nat, t: State, ghost done: seq<string>)
    returns (u: State, ghost more: seq<string>)
    requires d.Valid() && d.list.cells == t.cache && Remaining(s, steps, k, t, done, RulesOf(d)) && k < |steps|
    modifies d, d.list, d.list.repr
    ensures d.Valid() && fresh(d.list.repr - old(d.list.repr)) && d.list.cells == u.cache
    ensures Remaining(s, steps, k + 1, u, done + more, RulesOf(d)) && d.spawned == old(d.spawned) + more
  {
    OneLess(s, steps, k, t, done, RulesOf(d));
    more := StepCommands(t, steps[k], RulesOf(d));
    Take(d, t, steps[k]);
    u := Apply(t, steps[k]);
  }

  method TakeAll(d: Daemon, s: State, steps: seq<Step>) returns (t: State, ghost done: seq<string>)
    requires d.Valid() && d.list.cells == s.cache && Remaining(s, steps, 0, s, [], RulesOf(d))
    modifies d, d.list, d.list.repr
    ensures d.Valid() && d.list.cells == t.cache
    ensures Remaining(s, steps, |steps|, t, done, RulesOf(d)) && d.spawned == old(d.spawned) + done
  {
    t, done := s, [];
    for k := 0 to |steps|
      invariant d.Valid() && fresh(d.list.repr - old(d.list.repr)) && d.list.cells == t.cache
      invariant Remaining(s, steps, k, t, done, RulesOf(d)) && d.spawned == old(d.spawned) + done
    {
      ghost var more;
      t, more := TakeNext(d, s, steps, k, t, done);
      done := done + more;
    }
  }

  /** The program in any run: its linked lists go through the caches of the step system. So from the real
      start, whenever it is up and no event is pending, they hold what the database holds. */
  method Follow(d: Daemon, s: State, steps: seq<Step>) returns (t: State)
    requires d.Valid() && d.list.cells == s.cache && IsRun(s, steps) && RunText(s, steps)
    modifies d, d.list, d.list.repr
    ensures d.Valid() && t == Run(s, steps) && d.list.cells == t.cache
    ensures d.spawned == old(d.spawned) + RunCommands(s, steps, RulesOf(d))
    ensures Starting(s) && Ready(t) && t.queue == [] ==> Covers(d.list.cells, t.hal)
  {
    AllRemains(s, steps, RulesOf(d));
    ghost var done;
    t, done := TakeAll(d, s, steps);
    NoneRemain(s, steps, t, done, RulesOf(d));
    if Starting(s) { QuiescentConsistency(s, steps); }
  }
}
