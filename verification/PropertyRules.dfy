/** Rules about a property and the values that it takes: the commands of their actions, and what these are. */
module PropertyRules {
  import opened Options
  import opened ExecTemplates
  import opened Hal
  import opened Matching
  import opened Reference

  datatype Action = Action(value: string, exec: seq<Element>)
  datatype PropertyRule = PropertyRule(name: string, tree: Expression, actions: seq<Action>)

  const ANY := "*"

  function ActionCommands(hal: Database, udi: string, key: string, actions: seq<Action>): seq<string> {
    if actions == [] then [] else
    ActionCommands(hal, udi, key, actions[..|actions| - 1]) + ActionCommand(hal, udi, key, actions[|actions| - 1])
  }

  function ActionCommand(hal: Database, udi: string, key: string, a: Action): seq<string> {
    if a.value == ANY || LiveHas(hal, udi, key, Some(a.value)) then [Expand(a.exec, LiveValue(hal, udi))] else []
  }

  /** The commands for a modification: of the rules about the key that hold for the device, the actions
      for the value that the key has now. */
  function PropertyCommands(hal: Database, udi: string, key: string, rules: seq<PropertyRule>): seq<string> {
    if rules == [] then [] else
    PropertyCommands(hal, udi, key, rules[..|rules| - 1]) + PropertyCommand(hal, udi, key, rules[|rules| - 1])
  }

  function PropertyCommand(hal: Database, udi: string, key: string, r: PropertyRule): seq<string> {
    if r.name == key && Verdict(r.tree, Live(hal, udi)) then ActionCommands(hal, udi, key, r.actions) else []
  }

  lemma PropertyLoop(hal: Database, udi: string, key: string, rules: seq<PropertyRule>, k: nat)
    requires k <= |rules|
    ensures k == 0 ==> PropertyCommands(hal, udi, key, rules[..k]) == []
    ensures k < |rules| ==> PropertyCommands(hal, udi, key, rules[..k + 1]) ==
                            PropertyCommands(hal, udi, key, rules[..k]) + PropertyCommand(hal, udi, key, rules[k])
    ensures k == |rules| ==> PropertyCommands(hal, udi, key, rules[..k]) == PropertyCommands(hal, udi, key, rules)
  {
    if k < |rules| {
      assert rules[..k + 1][..k] == rules[..k];
    } else {
      assert rules[..k] == rules;
    }
  }

  /* What the commands for a modification are, said about the rules and the database themselves */

  /** An action of a rule, by their numbers. */
  datatype Position = Position(rule: int, action: int)

  predicate Precedes(p: Position, q: Position) {
    p.rule < q.rule || (p.rule == q.rule && p.action < q.action)
  }

  /** The rule is about the key, its expression is true for the udi, and the action is for any value or for
      one that the key has now. */
  ghost predicate Applies(hal: Database, udi: string, key: string, r: PropertyRule, a: Action) {
    r.name == key && TreeTrue(OnHal(hal, udi), r.tree) &&
    (a.value == "*" || (udi in hal && key in hal[udi] && Compares(hal[udi][key], a.value)))
  }

  ghost predicate AppliesAt(hal: Database, udi: string, key: string, rules: seq<PropertyRule>, p: Position) {
    0 <= p.rule < |rules| && 0 <= p.action < |rules[p.rule].actions| &&
    Applies(hal, udi, key, rules[p.rule], rules[p.rule].actions[p.action])
  }

  /** The commands are those of the actions at these positions, which are all that apply, in order. */
  ghost predicate Acting(hal: Database, udi: string, key: string, rules: seq<PropertyRule>, at: seq<Position>, commands: seq<string>) {
    && |at| == |commands|
    && (forall i, j | 0 <= i < j < |at| :: Precedes(at[i], at[j]))
    && (forall p :: p in at <==> AppliesAt(hal, udi, key, rules, p))
    && (forall i | 0 <= i < |at| :: AppliesAt(hal, udi, key, rules, at[i]) &&
          IsCommand(OnHal(hal, udi), rules[at[i].rule].actions[at[i].action].exec, commands[i]))
  }

  ghost predicate ActedSince(hal: Database, udi: string, key: string, rules: seq<PropertyRule>, before: seq<string>, after: seq<string>) {
    |before| <= |after| && after[..|before|] == before &&
    exists at :: Acting(hal, udi, key, rules, at, after[|before|..])
  }

  lemma AppliesIs(hal: Database, udi: string, key: string, r: PropertyRule, a: Action)
    ensures Applies(hal, udi, key, r, a) <==>
              r.name == key && Verdict(r.tree, Live(hal, udi)) && (a.value == ANY || LiveHas(hal, udi, key, Some(a.value)))
  {
    VerdictIsTrue(OnHal(hal, udi), r.tree);
    if HasProperty(hal, udi, key) { ComparesIsEquals(hal[udi][key], a.value); }
  }

  /** Rules up to the last one, and of that one the first actions: what they contribute. */
  ghost predicate ActingUpTo(hal: Database, udi: string, key: string, rules: seq<PropertyRule>, n: nat, m: nat, at: seq<Position>,
                             commands: seq<string>) {
    && |at| == |commands|
    && (forall i, j | 0 <= i < j < |at| :: Precedes(at[i], at[j]))
    && (forall p :: p in at <==> AppliesAt(hal, udi, key, rules, p) && Precedes(p, Position(n, m)))
    && (forall i | 0 <= i < |at| :: AppliesAt(hal, udi, key, rules, at[i]) &&
          IsCommand(OnHal(hal, udi), rules[at[i].rule].actions[at[i].action].exec, commands[i]))
  }

  lemma OneMoreAction(hal: Database, udi: string, key: string, rules: seq<PropertyRule>, n: nat, m: nat, at: seq<Position>,
                      commands: seq<string>) returns (more: seq<Position>)
    requires n < |rules| && m < |rules[n].actions| && ActingUpTo(hal, udi, key, rules, n, m, at, commands)
    requires rules[n].name == key && Verdict(rules[n].tree, Live(hal, udi))
    ensures ActingUpTo(hal, udi, key, rules, n, m + 1, more, commands + ActionCommand(hal, udi, key, rules[n].actions[m]))
  {
    var here, a := Position(n, m), rules[n].actions[m];
    AppliesIs(hal, udi, key, rules[n], a);
    forall p ensures Precedes(p, Position(n, m + 1)) <==> Precedes(p, here) || p == here { }
    if AppliesAt(hal, udi, key, rules, here) {
      var cuts := ExpandFalls(OnHal(hal, udi), a.exec);
      more := at + [here];
      ActionHere(hal, udi, key, rules, n, m, at, commands, Expand(a.exec, LiveValue(hal, udi)));
    } else {
      more := at;
      assert commands + [] == commands;
    }
  }

  lemma ActionHere(hal: Database, udi: string, key: string, rules: seq<PropertyRule>, n: nat, m: nat, at: seq<Position>,
                   commands: seq<string>, command: string)
    requires ActingUpTo(hal, udi, key, rules, n, m, at, commands) && AppliesAt(hal, udi, key, rules, Position(n, m))
    requires IsCommand(OnHal(hal, udi), rules[n].actions[m].exec, command)
    ensures ActingUpTo(hal, udi, key, rules, n, m + 1, at + [Position(n, m)], commands + [command])
  {
    var here, all := Position(n, m), at + [Position(n, m)];
    forall i | 0 <= i < |at| ensures Precedes(at[i], here) { assert at[i] in at; }
    forall p ensures p in all <==> AppliesAt(hal, udi, key, rules, p) && Precedes(p, Position(n, m + 1)) {
      assert p in all <==> p in at || p == here;
    }
  }

  lemma {:induction false} ActionsAct(hal: Database, udi: string, key: string, rules: seq<PropertyRule>, n: nat, m: nat,
                                      at: seq<Position>, commands: seq<string>) returns (more: seq<Position>)
    requires n < |rules| && m <= |rules[n].actions| && ActingUpTo(hal, udi, key, rules, n, 0, at, commands)
    requires rules[n].name == key && Verdict(rules[n].tree, Live(hal, udi))
    ensures ActingUpTo(hal, udi, key, rules, n, m, more, commands + ActionCommands(hal, udi, key, rules[n].actions[..m]))
  {
    more := at;
    if m == 0 {
      assert commands + [] == commands;
    } else {
      var before := ActionCommands(hal, udi, key, rules[n].actions[..m - 1]);
      var most := ActionsAct(hal, udi, key, rules, n, m - 1, at, commands);
      more := OneMoreAction(hal, udi, key, rules, n, m - 1, most, commands + before);
      ActionsSnoc(hal, udi, key, rules[n].actions, m, commands);
    }
  }

  lemma ActionsSnoc(hal: Database, udi: string, key: string, actions: seq<Action>, m: nat, commands: seq<string>)
    requires 0 < m <= |actions|
    ensures commands + ActionCommands(hal, udi, key, actions[..m]) ==
            commands + ActionCommands(hal, udi, key, actions[..m - 1]) + ActionCommand(hal, udi, key, actions[m - 1])
  {
    assert actions[..m][..m - 1] == actions[..m - 1];
  }

  /** A whole rule, and then the next one from its first action on. */
  lemma RuleActs(hal: Database, udi: string, key: string, rules: seq<PropertyRule>, n: nat, at: seq<Position>, commands: seq<string>)
      returns (more: seq<Position>)
    requires n < |rules| && ActingUpTo(hal, udi, key, rules, n, 0, at, commands)
    ensures ActingUpTo(hal, udi, key, rules, n + 1, 0, more, commands + PropertyCommand(hal, udi, key, rules[n]))
  {
    var r := rules[n];
    if r.name == key && Verdict(r.tree, Live(hal, udi)) {
      more := ActionsAct(hal, udi, key, rules, n, |r.actions|, at, commands);
      assert r.actions[..|r.actions|] == r.actions;
      NextRule(hal, udi, key, rules, n, |r.actions|);
    } else {
      more := at;
      assert commands + [] == commands;
      forall m: int | 0 <= m < |r.actions| ensures !AppliesAt(hal, udi, key, rules, Position(n, m)) {
        AppliesIs(hal, udi, key, r, r.actions[m]);
      }
      NextRule(hal, udi, key, rules, n, 0);
    }
  }

  lemma NextRule(hal: Database, udi: string, key: string, rules: seq<PropertyRule>, n: nat, m: nat)
    requires n < |rules| && forall k: int | m <= k < |rules[n].actions| :: !AppliesAt(hal, udi, key, rules, Position(n, k))
    ensures forall p :: AppliesAt(hal, udi, key, rules, p) && Precedes(p, Position(n, m)) <==>
                        AppliesAt(hal, udi, key, rules, p) && Precedes(p, Position(n + 1, 0))
  {
    forall p | AppliesAt(hal, udi, key, rules, p) ensures Precedes(p, Position(n, m)) <==> Precedes(p, Position(n + 1, 0)) {
      assert p == Position(p.rule, p.action);
    }
  }

  lemma {:induction false} RulesAct(hal: Database, udi: string, key: string, rules: seq<PropertyRule>, n: nat) returns (at: seq<Position>)
    requires n <= |rules|
    ensures ActingUpTo(hal, udi, key, rules, n, 0, at, PropertyCommands(hal, udi, key, rules[..n]))
  {
    at := [];
    if n == 0 {
      forall p ensures !(AppliesAt(hal, udi, key, rules, p) && Precedes(p, Position(0, 0))) { }
    } else {
      var most := RulesAct(hal, udi, key, rules, n - 1);
      at := RuleActs(hal, udi, key, rules, n - 1, most, PropertyCommands(hal, udi, key, rules[..n - 1]));
      assert rules[..n][..n - 1] == rules[..n - 1];
    }
  }

  /** The commands for a modification. */
  lemma PropertyCommandsAct(hal: Database, udi: string, key: string, rules: seq<PropertyRule>, before: seq<string>)
    ensures ActedSince(hal, udi, key, rules, before, before + PropertyCommands(hal, udi, key, rules))
  {
    var commands := PropertyCommands(hal, udi, key, rules);
    var at := RulesAct(hal, udi, key, rules, |rules|);
    assert rules[..|rules|] == rules;
    assert (before + commands)[|before|..] == commands;
    forall p | AppliesAt(hal, udi, key, rules, p) ensures Precedes(p, Position(|rules|, 0)) { }
    assert Acting(hal, udi, key, rules, at, commands);
  }
}
