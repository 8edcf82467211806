/** Matching and value lookup, once on the database by udi and once on the cached device, and why the
    two agree. */
module Matching {
  import opened Options
  import opened Numbers
  import opened PropertyPaths
  import opened ExecTemplates
  import opened BoolStuff
  import opened MatchParser
  import opened Hal
  import opened Cells
  import opened Handlers
  import opened Events

  /* On the database */

  /** Whether a value compares equal to a text (`halevt_property_matches_udi`, by type). */
  predicate Equals(v: Value, text: string) {
    match v
    case Str(s) => s == text
    case Bool(b) => b == (text == "true")
    case Int(i) => i == Atoi(text)
    case StrList(l) => text in l
    case Number(_, equals) => equals(text)
    case Unhandled => false
  }

  predicate LiveHas(hal: Database, udi: string, name: string, value: Option<string>) {
    HasProperty(hal, udi, name) && (value.None? || Equals(hal[udi][name], value.value))
  }

  /** The udi at the end of a chain of parents; every parent but the last names the device of the next. */
  function ResolveLive(hal: Database, udi: string, parents: seq<string>): Option<string>
    decreases |parents|
  {
    if parents == [] then Some(udi)
    else if !HasProperty(hal, udi, parents[0]) || !hal[udi][parents[0]].Str? then None
    else ResolveLive(hal, hal[udi][parents[0]].s, parents[1..])
  }

  predicate MatchLive(hal: Database, udi: string, m: Match) {
    m.path.name == "*" ||
    var target := ResolveLive(hal, udi, m.path.parents);
    target.Some? && LiveHas(hal, target.value, m.path.name, m.value)
  }

  function ValueLive(hal: Database, udi: string, path: Path): Option<seq<string>> {
    if path.name == "udi" && path.parents == [] then Some([udi]) else
    var target := ResolveLive(hal, udi, path.parents);
    if target.None? then None else PropertyValue(hal, target.value, path.name)
  }

  /* On the cache */

  predicate CachedHas(ps: seq<Property>, name: string, value: Option<string>) {
    var values := Get(ps, name);
    values.Some? && (value.None? || value.value in values.value)
  }

  /** The newest cell of the device that a parent property names. */
  function ParentOf(cs: seq<Cell>, ps: seq<Property>, parent: string): Option<seq<Property>> {
    var values := Get(ps, parent);
    if values.None? || values.value == [] then None else Lookup(cs, values.value[0])
  }

  function ResolveCached(cs: seq<Cell>, ps: seq<Property>, parents: seq<string>): Option<seq<Property>>
    decreases |parents|
  {
    if parents == [] then Some(ps) else
    var next := ParentOf(cs, ps, parents[0]);
    if next.None? then None else ResolveCached(cs, next.value, parents[1..])
  }

  /** The chain comes to a parent that is there and has no value at all. */
  predicate Derails(cs: seq<Cell>, ps: seq<Property>, parents: seq<string>)
    decreases |parents|
  {
    parents != [] &&
    var next := ParentOf(cs, ps, parents[0]);
    Get(ps, parents[0]) == Some([]) || (next.Some? && Derails(cs, next.value, parents[1..]))
  }

  lemma NextParent(cs: seq<Cell>, ps: seq<Property>, parents: seq<string>, k: nat)
    requires k < |parents|
    ensures var next := ParentOf(cs, ps, parents[k]);
            ResolveCached(cs, ps, parents[k..]) ==
              (if next.None? then None else ResolveCached(cs, next.value, parents[k + 1..])) &&
            (Derails(cs, ps, parents[k..]) <==>
              Get(ps, parents[k]) == Some([]) || (next.Some? && Derails(cs, next.value, parents[k + 1..])))
  {
    assert parents[k..][0] == parents[k] && parents[k..][1..] == parents[k + 1..];
  }

  predicate MatchCached(cs: seq<Cell>, ps: seq<Property>, m: Match) {
    m.path.name == "*" ||
    var target := ResolveCached(cs, ps, m.path.parents);
    target.Some? && CachedHas(target.value, m.path.name, m.value)
  }

  function ValueCached(cs: seq<Cell>, ps: seq<Property>, udi: string, path: Path): Option<seq<string>> {
    if path.name == "udi" && path.parents == [] then Some([udi]) else
    var target := ResolveCached(cs, ps, path.parents);
    if target.None? then None else Get(target.value, path.name)
  }

  /* Agreement, one property at a time */

  /** A text is canonical for a value when it compares equal only if it is how the value prints. */
  predicate Canonical(v: Value, text: string) {
    match v
    case Str(_) => true
    case Bool(b) => b || text == "true" || text == "false"
    case Int(i) => Atoi(text) == i ==> text == Dec(i)
    case StrList(_) => true
    case Number(printed, equals) => equals(text) <==> text == printed
    case Unhandled => true
  }

  /** Comparing by type and comparing the printed form agree exactly on the canonical texts. */
  lemma EqualsPrinted(v: Value, text: string)
    ensures (Equals(v, text) <==> text in Format(v)) <==> Canonical(v, text)
  {
    if v.Int? { AtoiInvertsDec(v.i); }
  }

  /** The properties of the newest cell of a udi. */
  function Newest(cs: seq<Cell>, udi: string): seq<Property> {
    var ps := Lookup(cs, udi);
    if ps.Some? then ps.value else []
  }

  /** The cache follows the chain where the database does not: through a parent that is not a string, or
      to a device that is gone and has a cell all the same. */
  predicate Strays(hal: Database, cs: seq<Cell>, udi: string, parents: seq<string>)
    decreases |parents|
  {
    parents != [] && HasProperty(hal, udi, parents[0]) &&
    var v := hal[udi][parents[0]];
    if v.Str? && v.s in hal then Strays(hal, cs, v.s, parents[1..])
    else Format(v) != [] && Lookup(cs, Format(v)[0]).Some?
  }

  /** For chains of any length, and whatever stale cells there are: following parents through the cache
      ends at the cell of the device that following them through the database ends at, unless the chain
      strays; then the database leads to no device. */
  lemma {:induction false} ResolveAgrees(hal: Database, cs: seq<Cell>, udi: string, parents: seq<string>)
    requires Covers(cs, hal) && udi in hal
    ensures var live := ResolveLive(hal, udi, parents);
            var there := live.Some? && live.value in hal;
            if Strays(hal, cs, udi, parents) then !there
            else ResolveCached(cs, Newest(cs, udi), parents) == if there then Lookup(cs, live.value) else None
    decreases |parents|
  {
    if parents != [] {
      var ps := Newest(cs, udi);
      assert Shows(ps, hal[udi]);
      assert Get(ps, parents[0]) == if parents[0] in hal[udi] then Some(Format(hal[udi][parents[0]])) else None;
      if parents[0] in hal[udi] && hal[udi][parents[0]].Str? {
        var next := hal[udi][parents[0]].s;
        if next in hal {
          ResolveAgrees(hal, cs, next, parents[1..]);
        } else {
          AbsentStays(hal, next, parents[1..]);
        }
      }
    }
  }

  /** A device that is not there leads nowhere. */
  lemma AbsentStays(hal: Database, udi: string, parents: seq<string>)
    requires udi !in hal
    ensures var live := ResolveLive(hal, udi, parents); live.Some? ==> live.value !in hal
  {
  }

  /** The condition for a property in a command: a chain that strays finds nothing. */
  predicate ValueFits(hal: Database, cs: seq<Cell>, udi: string, path: Path) {
    Strays(hal, cs, udi, path.parents) ==> ValueCached(cs, Newest(cs, udi), udi, path).None?
  }

  /** The values that a property name stands for agree, without any condition on the values, exactly if
      its chain does not stray to a device that has the property. */
  lemma {:induction false} ValuesAgree(hal: Database, cs: seq<Cell>, udi: string, path: Path)
    requires Covers(cs, hal) && udi in hal
    ensures var ps := Newest(cs, udi);
            ValueCached(cs, ps, udi, path) == ValueLive(hal, udi, path) <==> ValueFits(hal, cs, udi, path)
  {
    ResolveAgrees(hal, cs, udi, path.parents);
    var live := ResolveLive(hal, udi, path.parents);
    if live.Some? && live.value in hal {
      assert Shows(Newest(cs, live.value), hal[live.value]);
    }
  }

  /** When the property that a match asks for is there, its value is one for which the text is canonical. */
  predicate Fits(hal: Database, udi: string, m: Match) {
    var live := ResolveLive(hal, udi, m.path.parents);
    m.path.name != "*" && m.value.Some? && live.Some? && HasProperty(hal, live.value, m.path.name) ==>
      Canonical(hal[live.value][m.path.name], m.value.value)
  }

  /** The condition for a match: it fits, or its chain strays and then finds nothing that matches. */
  predicate MatchFits(hal: Database, cs: seq<Cell>, udi: string, m: Match) {
    if m.path.name != "*" && Strays(hal, cs, udi, m.path.parents) then !MatchCached(cs, Newest(cs, udi), m) else Fits(hal, udi, m)
  }

  /** A match has the same verdict on the device's cell as on the database, exactly under that condition. */
  lemma {:induction false} MatchAgrees(hal: Database, cs: seq<Cell>, udi: string, m: Match)
    requires Covers(cs, hal) && udi in hal
    ensures var ps := Newest(cs, udi);
            (MatchCached(cs, ps, m) <==> MatchLive(hal, udi, m)) <==> MatchFits(hal, cs, udi, m)
  {
    ResolveAgrees(hal, cs, udi, m.path.parents);
    var live := ResolveLive(hal, udi, m.path.parents);
    if live.Some? && live.value in hal {
      var ps, name := Newest(cs, live.value), m.path.name;
      assert Shows(ps, hal[live.value]);
      assert Get(ps, name) == if name in hal[live.value] then Some(Format(hal[live.value][name])) else None;
      if m.value.Some? && name in hal[live.value] {
        EqualsPrinted(hal[live.value][name], m.value.value);
      }
    }
  }

  /* Chains that do not stray */

  /** Every device that the chain passes through names the next one with a string. */
  predicate StringParents(hal: Database, udi: string, parents: seq<string>)
    decreases |parents|
  {
    parents == [] ||
    (HasProperty(hal, udi, parents[0]) ==>
       hal[udi][parents[0]].Str? && StringParents(hal, hal[udi][parents[0]].s, parents[1..]))
  }

  /** A chain of strings that does not stray never comes to a parent without a value. */
  lemma {:induction false} StringsStayOn(hal: Database, cs: seq<Cell>, udi: string, parents: seq<string>)
    requires Covers(cs, hal) && udi in hal && StringParents(hal, udi, parents) && !Strays(hal, cs, udi, parents)
    ensures !Derails(cs, Newest(cs, udi), parents)
    decreases |parents|
  {
    if parents != [] {
      assert Shows(Newest(cs, udi), hal[udi]);
      assert Get(Newest(cs, udi), parents[0]) == if parents[0] in hal[udi] then Some(Format(hal[udi][parents[0]])) else None;
      if parents[0] in hal[udi] && hal[udi][parents[0]].s in hal {
        StringsStayOn(hal, cs, hal[udi][parents[0]].s, parents[1..]);
      }
    }
  }

  /** Without stale cells, chains of strings do not stray. */
  lemma {:induction false} StringsStay(hal: Database, cs: seq<Cell>, udi: string, parents: seq<string>)
    requires Represents(cs, hal) && StringParents(hal, udi, parents)
    ensures !Strays(hal, cs, udi, parents)
    decreases |parents|
  {
    if parents != [] && HasProperty(hal, udi, parents[0]) {
      StringsStay(hal, cs, hal[udi][parents[0]].s, parents[1..]);
    }
  }

  /* Agreement of whole rules */

  /** A parsed match string: terms over the indices of the matches. */
  datatype Expression = Expression(matches: seq<Match>, terms: seq<Term<string>>)

  /** An expression with the command to run, parsed as well. */
  datatype Rule = Rule(tree: Expression, exec: seq<Element>)

  /** The verdict of `halevt_true_tree`. */
  predicate Verdict(t: Expression, holds: Match -> bool) {
    AnyHolds(t.terms, ByIndex(t.matches, holds))
  }

  const UNKNOWN := "UNKNOWN"

  function ElementValue(e: Element, value: Path -> Option<seq<string>>): string {
    match e
    case Literal(text) => text
    case Property(path) =>
      var values := value(path);
      if values.None? || values.value == [] then UNKNOWN else values.value[0]
  }

  /** The command line of a template. */
  function Expand(l: seq<Element>, value: Path -> Option<seq<string>>): string {
    if l == [] then "" else Expand(l[..|l| - 1], value) + ElementValue(l[|l| - 1], value)
  }

  /** The commands of the rules that fire, in rule order. */
  function Commands(rules: seq<Rule>, holds: Match -> bool, value: Path -> Option<seq<string>>): seq<string> {
    if rules == [] then [] else
    Commands(rules[..|rules| - 1], holds, value) +
    (var r := rules[|rules| - 1]; if Verdict(r.tree, holds) then [Expand(r.exec, value)] else [])
  }

  function Live(hal: Database, udi: string): Match -> bool {
    m => MatchLive(hal, udi, m)
  }

  function LiveValue(hal: Database, udi: string): Path -> Option<seq<string>> {
    path => ValueLive(hal, udi, path)
  }

  function Cached(cs: seq<Cell>, ps: seq<Property>): Match -> bool {
    m => MatchCached(cs, ps, m)
  }

  function CachedValue(cs: seq<Cell>, ps: seq<Property>, udi: string): Path -> Option<seq<string>> {
    path => ValueCached(cs, ps, udi, path)
  }

  /** What an expression asks of database and cache, for the two ways of evaluating it to agree. */
  predicate TreeFits(hal: Database, cs: seq<Cell>, udi: string, t: Expression) {
    forall i | 0 <= i < |t.matches| :: MatchFits(hal, cs, udi, t.matches[i])
  }

  predicate ExecFits(hal: Database, cs: seq<Cell>, udi: string, l: seq<Element>) {
    forall i | 0 <= i < |l| && l[i].Property? :: ValueFits(hal, cs, udi, l[i].path)
  }

  predicate RuleFits(hal: Database, cs: seq<Cell>, udi: string, r: Rule) {
    TreeFits(hal, cs, udi, r.tree) && ExecFits(hal, cs, udi, r.exec)
  }

  /** Whole expressions agree. */
  lemma {:induction false} VerdictAgrees(hal: Database, cs: seq<Cell>, udi: string, t: Expression)
    requires Covers(cs, hal) && udi in hal && TreeFits(hal, cs, udi, t)
    ensures Verdict(t, Cached(cs, Newest(cs, udi))) <==> Verdict(t, Live(hal, udi))
  {
    var x := ByIndex(t.matches, Cached(cs, Newest(cs, udi)));
    var y := ByIndex(t.matches, Live(hal, udi));
    forall v ensures x(v) == y(v) {
      var k: int := Atoi(v);
      if 0 <= k < |t.matches| { MatchAgrees(hal, cs, udi, t.matches[k]); }
    }
    SameTerms(t.terms, x, y);
  }

  lemma SameTerms(terms: seq<Term<string>>, x: string -> bool, y: string -> bool)
    requires forall v :: x(v) == y(v)
    ensures AnyHolds(terms, x) <==> AnyHolds(terms, y)
  {
    assert forall i | 0 <= i < |terms| :: TermHolds(terms[i], x) <==> TermHolds(terms[i], y);
  }

  /** Expanded commands agree. */
  lemma {:induction false} ExpandAgrees(hal: Database, cs: seq<Cell>, udi: string, l: seq<Element>)
    requires Covers(cs, hal) && udi in hal && ExecFits(hal, cs, udi, l)
    ensures Expand(l, CachedValue(cs, Newest(cs, udi), udi)) == Expand(l, LiveValue(hal, udi))
  {
    if l != [] {
      var n := |l| - 1;
      ExpandAgrees(hal, cs, udi, l[..n]);
      if l[n].Property? { ValuesAgree(hal, cs, udi, l[n].path); }
    }
  }

  lemma {:induction false} CommandsAgree(hal: Database, cs: seq<Cell>, udi: string, rules: seq<Rule>)
    requires Covers(cs, hal) && udi in hal
    requires forall i | 0 <= i < |rules| :: RuleFits(hal, cs, udi, rules[i])
    ensures var ps := Newest(cs, udi);
            Commands(rules, Cached(cs, ps), CachedValue(cs, ps, udi)) == Commands(rules, Live(hal, udi), LiveValue(hal, udi))
  {
    if rules != [] {
      var n := |rules| - 1;
      CommandsAgree(hal, cs, udi, rules[..n]);
      VerdictAgrees(hal, cs, udi, rules[n].tree);
      ExpandAgrees(hal, cs, udi, rules[n].exec);
    }
  }

  /* Removal */

  /** The commands of the removal callback: from the cell if there is one, else from the database. */
  function RemovalCommands(hal: Database, cs: seq<Cell>, udi: string, rules: seq<Rule>): seq<string> {
    var ps := Lookup(cs, udi);
    if ps.Some? then Commands(rules, Cached(cs, ps.value), CachedValue(cs, ps.value, udi))
    else Commands(rules, Live(hal, udi), LiveValue(hal, udi))
  }

  /** In a quiet state, a removal that is handled before the database changes again. */
  lemma {:induction false} CoveredRemoval(t: State, udi: string, rules: seq<Rule>)
    requires Covers(t.cache, t.hal) && t.queue == [] && udi in t.hal
    requires forall i | 0 <= i < |rules| :: RuleFits(t.hal, t.cache, udi, rules[i])
    ensures var gone := Apply(t, HalRemove(udi));
            gone.queue == [Handlers.Removed(udi)] &&
            RemovalCommands(gone.hal, gone.cache, udi, rules) == Commands(rules, Live(t.hal, udi), LiveValue(t.hal, udi))
  {
    CommandsAgree(t.hal, t.cache, udi, rules);
  }

  /** From the real start, in every run: when a removal happens in a quiet state, is handled before the
      database changes again, and the rules fit the device, the rules that fire and the commands they
      expand to are those of the database just before the removal. */
  lemma {:induction false} RemovalSeesLastState(s: State, steps: seq<Step>, udi: string, rules: seq<Rule>)
    requires Starting(s) && IsRun(s, steps)
    requires var t := Run(s, steps);
             Ready(t) && t.queue == [] && udi in t.hal &&
             forall i | 0 <= i < |rules| :: RuleFits(t.hal, t.cache, udi, rules[i])
    ensures var t := Run(s, steps); var gone := Apply(t, HalRemove(udi));
            gone.queue == [Handlers.Removed(udi)] &&
            RemovalCommands(gone.hal, gone.cache, udi, rules) == Commands(rules, Live(t.hal, udi), LiveValue(t.hal, udi))
  {
    QuiescentConsistency(s, steps);
    CoveredRemoval(Run(s, steps), udi, rules);
  }

  /** What remains to be asked of a rule when there are no stale cells. */
  predicate PlainlyFits(hal: Database, udi: string, r: Rule) {
    (forall i | 0 <= i < |r.tree.matches| ::
       StringParents(hal, udi, r.tree.matches[i].path.parents) && Fits(hal, udi, r.tree.matches[i])) &&
    (forall i | 0 <= i < |r.exec| && r.exec[i].Property? :: StringParents(hal, udi, r.exec[i].path.parents))
  }

  lemma {:induction false} PlainlyFitsFits(hal: Database, cs: seq<Cell>, udi: string, r: Rule)
    requires Represents(cs, hal) && udi in hal && PlainlyFits(hal, udi, r)
    ensures RuleFits(hal, cs, udi, r)
  {
    forall i | 0 <= i < |r.tree.matches| ensures !Strays(hal, cs, udi, r.tree.matches[i].path.parents) {
      StringsStay(hal, cs, udi, r.tree.matches[i].path.parents);
    }
    forall i | 0 <= i < |r.exec| && r.exec[i].Property? ensures !Strays(hal, cs, udi, r.exec[i].path.parents) {
      StringsStay(hal, cs, udi, r.exec[i].path.parents);
    }
  }

  /** From a start without duplicates, strings as parents and canonical values are all that it takes. */
  lemma {:induction false} DuplicateFreeRemoval(s: State, steps: seq<Step>, udi: string, rules: seq<Rule>)
    requires DuplicateFree(s) && IsRun(s, steps)
    requires var t := Run(s, steps);
             t.queue == [] && udi in t.hal && forall i | 0 <= i < |rules| :: PlainlyFits(t.hal, udi, rules[i])
    ensures var t := Run(s, steps); var gone := Apply(t, HalRemove(udi));
            gone.queue == [Handlers.Removed(udi)] &&
            RemovalCommands(gone.hal, gone.cache, udi, rules) == Commands(rules, Live(t.hal, udi), LiveValue(t.hal, udi))
  {
    ExactConsistency(s, steps);
    var t := Run(s, steps);
    forall i | 0 <= i < |rules| ensures RuleFits(t.hal, t.cache, udi, rules[i]) {
      PlainlyFitsFits(t.hal, t.cache, udi, rules[i]);
    }
    CoveredRemoval(t, udi, rules);
  }

  /* A run on which they disagree */

  /** Two devices, one the parent of the other, as start-up finds them. */
  const CHILD: Props := map["p" := Str("B")]
  const PARENT: Props := map["q" := Str("1")]
  const BOTH: Database := map["A" := CHILD, "B" := PARENT]
  const CHILD_CELL := Cell("A", [Cells.Property("p", ["B"])])
  const PARENT_CELL := Cell("B", [Cells.Property("q", ["1"])])

  function Before(): State {
    State(BOTH, [], [], 0, [])
  }

  function StartAndRemove(): seq<Step> {
    var list := ListDevices(["A", "B"]);
    var a, b := ScanDevice([Entry("p", Str("B"))]), ScanDevice([Entry("q", Str("1"))]);
    [list, a, b, list, a, b, HalRemove("B"), Dispatch([])]
  }

  /** The state that this run leads to: the removed parent has a cell, which the start made twice. */
  function WithStale(): State {
    State(map["A" := CHILD], [], [CHILD_CELL, PARENT_CELL, CHILD_CELL], SCANS, [])
  }

  lemma RunOn(s: State, step: Step, rest: seq<Step>, t: State)
    requires Enabled(s, step) && IsRun(Apply(s, step), rest) && Run(Apply(s, step), rest) == t
    ensures IsRun(s, [step] + rest) && Run(s, [step] + rest) == t
  {
    assert ([step] + rest)[1..] == rest;
  }

  lemma Scans(cs: seq<Cell>)
    ensures Lists([Entry("p", Str("B"))], CHILD) && Lists([Entry("q", Str("1"))], PARENT)
    ensures AddDevice(BOTH, cs, "A", [Entry("p", Str("B"))]) == [CHILD_CELL] + cs
    ensures AddDevice(BOTH, cs, "B", [Entry("q", Str("1"))]) == [PARENT_CELL] + cs
  {
    OneProperty(Entry("p", Str("B")));
    OneProperty(Entry("q", Str("1")));
  }

  lemma OneProperty(e: Entry)
    ensures Lists([e], map[e.key := e.value]) && Load([e]) == [Cells.Property(e.key, Format(e.value))]
  {
    assert [e][0] == e;
  }

  lemma RunOnThree(s: State, l: Step, a: Step, b: Step, rest: seq<Step>, t: State)
    requires Enabled(s, l) && Enabled(Apply(s, l), a) && Enabled(Apply(Apply(s, l), a), b)
    requires var u := Apply(Apply(Apply(s, l), a), b); IsRun(u, rest) && Run(u, rest) == t
    ensures IsRun(s, [l, a, b] + rest) && Run(s, [l, a, b] + rest) == t
  {
    RunOn(Apply(Apply(s, l), a), b, rest, t);
    RunOn(Apply(s, l), a, [b] + rest, t);
    RunOn(s, l, [a] + ([b] + rest), t);
    assert [l, a, b] + rest == [l] + ([a] + ([b] + rest));
  }

  lemma ScanChild(s: State)
    requires s.hal == BOTH && s.todo == ["A", "B"]
    ensures var step := ScanDevice([Entry("p", Str("B"))]);
            Enabled(s, step) && Apply(s, step) == s.(cache := [CHILD_CELL] + s.cache, todo := ["B"])
  {
    Scans(s.cache);
    assert ["A", "B"][1..] == ["B"];
  }

  lemma ScanParent(s: State)
    requires s.hal == BOTH && s.todo == ["B"]
    ensures var step := ScanDevice([Entry("q", Str("1"))]);
            Enabled(s, step) && Apply(s, step) == s.(cache := [PARENT_CELL] + s.cache, todo := [])
  {
    Scans(s.cache);
    assert ["B"][1..] == [];
  }

  lemma ListBoth(s: State)
    requires s.hal == BOTH && s.scans < SCANS && s.todo == []
    ensures var step := ListDevices(["A", "B"]);
            Enabled(s, step) && Apply(s, step) == s.(scans := s.scans + 1, todo := ["A", "B"])
  {
    assert ["A", "B"][0] == "A" && ["A", "B"][1] == "B";
  }

  lemma ScannedBoth(s: State, l: Step, a: Step, b: Step)
    requires s.hal == BOTH && s.scans < SCANS && s.todo == [] && [l, a, b] == StartAndRemove()[..3]
    ensures Enabled(s, l) && Enabled(Apply(s, l), a) && Enabled(Apply(Apply(s, l), a), b)
    ensures Apply(Apply(Apply(s, l), a), b) == s.(scans := s.scans + 1, cache := [PARENT_CELL, CHILD_CELL] + s.cache)
  {
    assert l == [l, a, b][0] && a == [l, a, b][1] && b == [l, a, b][2];
    ListBoth(s);
    ScanChild(Apply(s, l));
    ScanParent(Apply(Apply(s, l), a));
    assert [PARENT_CELL] + ([CHILD_CELL] + s.cache) == [PARENT_CELL, CHILD_CELL] + s.cache;
  }

  /** One list of all devices, scanned. */
  lemma ScanBoth(s: State, l: Step, a: Step, b: Step, rest: seq<Step>, t: State)
    requires s.hal == BOTH && s.scans < SCANS && s.todo == [] && [l, a, b] == StartAndRemove()[..3]
    requires var u := s.(scans := s.scans + 1, cache := [PARENT_CELL, CHILD_CELL] + s.cache); IsRun(u, rest) && Run(u, rest) == t
    ensures IsRun(s, [l, a, b] + rest) && Run(s, [l, a, b] + rest) == t
  {
    ScannedBoth(s, l, a, b);
    RunOnThree(s, l, a, b, rest, t);
  }

  lemma StaleRun()
    ensures IsRun(Before(), StartAndRemove()) && Run(Before(), StartAndRemove()) == WithStale()
  {
    var c := StartAndRemove();
    var up := State(BOTH, [], [PARENT_CELL, CHILD_CELL, PARENT_CELL, CHILD_CELL], SCANS, []);
    var gone := Apply(up, c[6]);
    assert gone.queue == [Handlers.Removed("B")];
    assert gone.hal == map["A" := CHILD];
    assert gone.cache[..0] + gone.cache[1..] == WithStale().cache;
    assert Apply(gone, c[7]) == WithStale();
    RunOn(gone, c[7], [], WithStale());
    RunOn(up, c[6], [c[7]] + [], WithStale());
    var once := State(BOTH, [], [PARENT_CELL, CHILD_CELL], 1, []);
    assert [PARENT_CELL, CHILD_CELL] + once.cache == up.cache;
    var rest := [c[6]] + ([c[7]] + []);
    ScanBoth(once, c[0], c[1], c[2], rest, WithStale());
    assert [PARENT_CELL, CHILD_CELL] + Before().cache == once.cache;
    ScanBoth(Before(), c[0], c[1], c[2], [c[0], c[1], c[2]] + rest, WithStale());
    assert c == [c[0], c[1], c[2]] + ([c[0], c[1], c[2]] + rest);
  }

  lemma StaleMatch()
    ensures var t := WithStale(); var m := Match(Path(["p"], "q"), Some("1"));
            StringParents(t.hal, "A", m.path.parents) && Fits(t.hal, "A", m) && Strays(t.hal, t.cache, "A", m.path.parents) &&
            MatchCached(t.cache, Newest(t.cache, "A"), m) && !MatchLive(t.hal, "A", m)
  {
    var t := WithStale();
    var a, b := t.cache[0].properties, t.cache[1].properties;
    assert Lookup(t.cache, "A") == Some(a) && Lookup(t.cache, "B") == Some(b);
    assert Get(a, "p") == Some(["B"]) && Get(b, "q") == Some(["1"]);
    assert ["p"][1..] == [];
    assert ResolveCached(t.cache, b, []) == Some(b);
    assert ResolveCached(t.cache, a, ["p"]) == Some(b);
    assert ResolveLive(t.hal, "B", []) == Some("B");
    assert ResolveLive(t.hal, "A", ["p"]) == Some("B");
  }

  /** The match "hal.p.hal.q = 1" of the child, whose parent is a string and whose value is canonical,
      holds on the cache and not on the database once the parent is removed. */
  lemma {:induction false} StaleChainDisagrees()
    ensures Starting(Before()) && IsRun(Before(), StartAndRemove())
    ensures var t := Run(Before(), StartAndRemove()); var m := Match(Path(["p"], "q"), Some("1"));
            t == WithStale() && Covers(t.cache, t.hal) && "A" in t.hal &&
            StringParents(t.hal, "A", m.path.parents) && Fits(t.hal, "A", m) && Strays(t.hal, t.cache, "A", m.path.parents) &&
            MatchCached(t.cache, Newest(t.cache, "A"), m) && !MatchLive(t.hal, "A", m)
  {
    StaleRun();
    QuiescentConsistency(Before(), StartAndRemove());
    StaleMatch();
  }
}
