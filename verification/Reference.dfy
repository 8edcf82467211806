/** What a match, an expression, a command and a list of rules mean, said about the database and the cells
    themselves: chains of parents are sequences, texts are cut into pieces, and rules are numbered. The
    functions that the program's loops are proved against are proved here to have these meanings. */
module Reference {
  import opened Options
  import opened Numbers
  import opened PropertyPaths
  import opened ExecTemplates
  import opened BoolStuff
  import opened MatchParser
  import opened Hal
  import opened Cells
  import opened Matching

  /** Where a device is looked at: on the database, or on a cell of the cache. */
  datatype View = OnHal(hal: Database, udi: string) | OnCell(cs: seq<Cell>, ps: seq<Property>, udi: string)

  /* Chains of parents */

  /** Each device names the next one, with a string, under the parent's key. */
  ghost predicate Chain(hal: Database, us: seq<string>, parents: seq<string>) {
    |us| == |parents| + 1 &&
    forall k | 0 <= k < |parents| :: us[k] in hal && parents[k] in hal[us[k]] && hal[us[k]][parents[k]] == Str(us[k + 1])
  }

  lemma {:induction false} ChainResolves(hal: Database, us: seq<string>, parents: seq<string>)
    requires Chain(hal, us, parents)
    ensures ResolveLive(hal, us[0], parents) == Some(us[|parents|])
    decreases |parents|
  {
    if parents != [] {
      assert hal[us[0]][parents[0]] == Str(us[0 + 1]);
      var rest := us[1..];
      forall k | 0 <= k < |parents[1..]|
        ensures rest[k] in hal && parents[1..][k] in hal[rest[k]] && hal[rest[k]][parents[1..][k]] == Str(rest[k + 1])
      {
        assert rest[k] == us[k + 1] && parents[1..][k] == parents[k + 1] && rest[k + 1] == us[k + 1 + 1];
      }
      ChainResolves(hal, rest, parents[1..]);
    }
  }

  lemma {:induction false} ResolvesByChain(hal: Database, udi: string, parents: seq<string>) returns (us: seq<string>)
    requires ResolveLive(hal, udi, parents).Some?
    ensures Chain(hal, us, parents) && us[0] == udi && us[|parents|] == ResolveLive(hal, udi, parents).value
    decreases |parents|
  {
    us := [udi];
    if parents != [] {
      var rest := ResolvesByChain(hal, hal[udi][parents[0]].s, parents[1..]);
      us := [udi] + rest;
      forall k | 0 <= k < |parents|
        ensures us[k] in hal && parents[k] in hal[us[k]] && hal[us[k]][parents[k]] == Str(us[k + 1])
      {
        if k > 0 {
          assert us[k] == rest[k - 1] && parents[k] == parents[1..][k - 1] && us[k + 1] == rest[k - 1 + 1];
        }
      }
    }
  }

  /** The chain of parents leads from one device to another. */
  ghost predicate Leads(hal: Database, udi: string, parents: seq<string>, end: string) {
    exists us :: Chain(hal, us, parents) && us[0] == udi && us[|parents|] == end
  }

  lemma LeadsIsResolve(hal: Database, udi: string, parents: seq<string>, end: string)
    ensures Leads(hal, udi, parents, end) <==> ResolveLive(hal, udi, parents) == Some(end)
  {
    if us :| Chain(hal, us, parents) && us[0] == udi && us[|parents|] == end { ChainResolves(hal, us, parents); }
    if ResolveLive(hal, udi, parents).Some? { var us := ResolvesByChain(hal, udi, parents); }
  }

  /** The first property with the key has these values. */
  ghost predicate Reads(ps: seq<Property>, key: string, values: seq<string>) {
    exists i | 0 <= i < |ps| :: ps[i] == Cells.Property(key, values) && forall k | 0 <= k < i :: ps[k].key != key
  }

  lemma ReadsIsGet(ps: seq<Property>, key: string, values: seq<string>)
    ensures Reads(ps, key, values) <==> Get(ps, key) == Some(values)
  {
    var i := FirstKey(ps, key, 0);
    assert i < |ps| ==> ps[i] == Cells.Property(key, ps[i].values);
  }

  /** The first cell of the udi has these properties. */
  ghost predicate NewestCell(cs: seq<Cell>, udi: string, ps: seq<Property>) {
    exists i | 0 <= i < |cs| :: cs[i] == Cell(udi, ps) && forall k | 0 <= k < i :: cs[k].udi != udi
  }

  lemma NewestCellIsLookup(cs: seq<Cell>, udi: string, ps: seq<Property>)
    ensures NewestCell(cs, udi, ps) <==> Lookup(cs, udi) == Some(ps)
  {
    var i := FirstUdi(cs, udi, 0);
    assert i < |cs| ==> cs[i] == Cell(udi, cs[i].properties);
  }

  /** The parent's first value is the udi of the next device, whose newest cell it is. */
  ghost predicate Hop(cs: seq<Cell>, ps: seq<Property>, parent: string, next: seq<Property>) {
    exists values :: Reads(ps, parent, values) && values != [] && NewestCell(cs, values[0], next)
  }

  lemma HopIsParentOf(cs: seq<Cell>, ps: seq<Property>, parent: string, next: seq<Property>)
    ensures Hop(cs, ps, parent, next) <==> ParentOf(cs, ps, parent) == Some(next)
  {
    if values :| Reads(ps, parent, values) && values != [] && NewestCell(cs, values[0], next) {
      ReadsIsGet(ps, parent, values);
      NewestCellIsLookup(cs, values[0], next);
    }
    if ParentOf(cs, ps, parent) == Some(next) {
      var values := Get(ps, parent).value;
      ReadsIsGet(ps, parent, values);
      NewestCellIsLookup(cs, values[0], next);
    }
  }

  ghost predicate CellChain(cs: seq<Cell>, pss: seq<seq<Property>>, parents: seq<string>) {
    |pss| == |parents| + 1 && forall k | 0 <= k < |parents| :: Hop(cs, pss[k], parents[k], pss[k + 1])
  }

  lemma {:induction false} CellChainResolves(cs: seq<Cell>, pss: seq<seq<Property>>, parents: seq<string>)
    requires CellChain(cs, pss, parents)
    ensures ResolveCached(cs, pss[0], parents) == Some(pss[|parents|])
    decreases |parents|
  {
    if parents != [] {
      assert Hop(cs, pss[0], parents[0], pss[0 + 1]);
      HopIsParentOf(cs, pss[0], parents[0], pss[1]);
      var rest := pss[1..];
      forall k | 0 <= k < |parents[1..]| ensures Hop(cs, rest[k], parents[1..][k], rest[k + 1]) {
        assert Hop(cs, pss[k + 1], parents[k + 1], pss[k + 1 + 1]);
      }
      CellChainResolves(cs, rest, parents[1..]);
    }
  }

  lemma {:induction false} ResolvesByCellChain(cs: seq<Cell>, ps: seq<Property>, parents: seq<string>)
      returns (pss: seq<seq<Property>>)
    requires ResolveCached(cs, ps, parents).Some?
    ensures CellChain(cs, pss, parents) && pss[0] == ps && pss[|parents|] == ResolveCached(cs, ps, parents).value
    decreases |parents|
  {
    pss := [ps];
    if parents != [] {
      var next := ParentOf(cs, ps, parents[0]).value;
      HopIsParentOf(cs, ps, parents[0], next);
      var rest := ResolvesByCellChain(cs, next, parents[1..]);
      LongerChain(cs, ps, rest, parents);
      pss := [ps] + rest;
    }
  }

  lemma LongerChain(cs: seq<Cell>, ps: seq<Property>, rest: seq<seq<Property>>, parents: seq<string>)
    requires parents != [] && CellChain(cs, rest, parents[1..]) && Hop(cs, ps, parents[0], rest[0])
    ensures CellChain(cs, [ps] + rest, parents)
  {
    var pss := [ps] + rest;
    forall k | 0 <= k < |parents| ensures Hop(cs, pss[k], parents[k], pss[k + 1]) {
      if k > 0 { assert Hop(cs, rest[k - 1], parents[1..][k - 1], rest[k - 1 + 1]); }
    }
  }

  ghost predicate CellLeads(cs: seq<Cell>, ps: seq<Property>, parents: seq<string>, end: seq<Property>) {
    exists pss :: CellChain(cs, pss, parents) && pss[0] == ps && pss[|parents|] == end
  }

  lemma CellLeadsIsResolve(cs: seq<Cell>, ps: seq<Property>, parents: seq<string>, end: seq<Property>)
    ensures CellLeads(cs, ps, parents, end) <==> ResolveCached(cs, ps, parents) == Some(end)
  {
    if pss :| CellChain(cs, pss, parents) && pss[0] == ps && pss[|parents|] == end { CellChainResolves(cs, pss, parents); }
    if ResolveCached(cs, ps, parents).Some? { var pss := ResolvesByCellChain(cs, ps, parents); }
  }

  /* Values */

  /** The property at the end of the path has these values: as the database formats them, or as the cell
      holds them. */
  ghost predicate HasValues(v: View, path: Path, values: seq<string>) {
    match v
    case OnHal(hal, udi) =>
      exists end :: Leads(hal, udi, path.parents, end) &&
                    end in hal && path.name in hal[end] && Format(hal[end][path.name]) == values
    case OnCell(cs, ps, _) =>
      exists end :: CellLeads(cs, ps, path.parents, end) && Reads(end, path.name, values)
  }

  /** What a path stands for in a command: the udi itself, or the first value of the property. */
  ghost predicate StandsFor(v: View, path: Path, text: string) {
    if path.name == "udi" && path.parents == [] then text == v.udi
    else exists values :: HasValues(v, path, values) && values != [] && values[0] == text
  }

  function ValueIn(v: View): Path -> Option<seq<string>> {
    match v
    case OnHal(hal, udi) => LiveValue(hal, udi)
    case OnCell(cs, ps, udi) => CachedValue(cs, ps, udi)
  }

  /** Apart from the udi itself, the value of a path is what the property at its end has. */
  lemma ValueIs(v: View, path: Path, values: seq<string>)
    requires path.name != "udi" || path.parents != []
    ensures HasValues(v, path, values) <==> ValueIn(v)(path) == Some(values)
  {
    match v
    case OnHal(hal, udi) => LiveValueIs(hal, udi, path, values);
    case OnCell(cs, ps, udi) => CellValueIs(cs, ps, udi, path, values);
  }

  lemma LiveValueIs(hal: Database, udi: string, path: Path, values: seq<string>)
    requires path.name != "udi" || path.parents != []
    ensures HasValues(OnHal(hal, udi), path, values) <==> ValueLive(hal, udi, path) == Some(values)
  {
    var end := ResolveLive(hal, udi, path.parents);
    forall other ensures Leads(hal, udi, path.parents, other) <==> end == Some(other) {
      LeadsIsResolve(hal, udi, path.parents, other);
    }
    if end.Some? { assert Leads(hal, udi, path.parents, end.value); }
  }

  lemma CellValueIs(cs: seq<Cell>, ps: seq<Property>, udi: string, path: Path, values: seq<string>)
    requires path.name != "udi" || path.parents != []
    ensures HasValues(OnCell(cs, ps, udi), path, values) <==> ValueCached(cs, ps, udi, path) == Some(values)
  {
    var end := ResolveCached(cs, ps, path.parents);
    forall other ensures CellLeads(cs, ps, path.parents, other) <==> end == Some(other) {
      CellLeadsIsResolve(cs, ps, path.parents, other);
    }
    if end.Some? {
      assert CellLeads(cs, ps, path.parents, end.value);
      ReadsIsGet(end.value, path.name, values);
    }
  }

  /* Commands */

  /** The text of an element: its own, or what its path stands for, or the text for paths that stand for
      nothing. */
  ghost predicate IsPiece(v: View, e: Element, text: string) {
    match e
    case Literal(own) => text == own
    case Property(path) =>
      StandsFor(v, path, text) || (text == "UNKNOWN" && forall other :: !StandsFor(v, path, other))
  }

  /** Between its cuts, the text is that of the element. */
  ghost predicate PieceBetween(v: View, e: Element, text: string, from: nat, to: nat) {
    from <= to <= |text| && IsPiece(v, e, text[from..to])
  }

  /** The text falls into one piece for each element, in order. */
  ghost predicate Falls(v: View, l: seq<Element>, text: string, cuts: seq<nat>) {
    |cuts| == |l| + 1 && cuts[0] == 0 && cuts[|l|] == |text| &&
    forall i | 0 <= i < |l| :: PieceBetween(v, l[i], text, cuts[i], cuts[i + 1])
  }

  ghost predicate IsCommand(v: View, l: seq<Element>, text: string) {
    exists cuts :: Falls(v, l, text, cuts)
  }

  lemma PieceIs(v: View, e: Element)
    ensures IsPiece(v, e, ElementValue(e, ValueIn(v)))
  {
    if e.Property? && (e.path.name != "udi" || e.path.parents != []) {
      var found := ValueIn(v)(e.path);
      if found.Some? { ValueIs(v, e.path, found.value); }
      if found.None? || found.value == [] {
        forall other ensures !StandsFor(v, e.path, other) {
          if values :| HasValues(v, e.path, values) && values != [] && values[0] == other { ValueIs(v, e.path, values); }
        }
      }
    }
  }

  /** An expanded template falls into the pieces of its elements. */
  lemma {:induction false} ExpandFalls(v: View, l: seq<Element>) returns (cuts: seq<nat>)
    ensures Falls(v, l, Expand(l, ValueIn(v)), cuts)
  {
    cuts := [0];
    if l != [] {
      var n := |l| - 1;
      var before := Expand(l[..n], ValueIn(v));
      var piece := ElementValue(l[n], ValueIn(v));
      var cuts0 := ExpandFalls(v, l[..n]);
      PieceIs(v, l[n]);
      cuts := cuts0 + [|before + piece|];
      FallsOn(v, l, before, piece, cuts0);
    }
  }

  lemma FallsOn(v: View, l: seq<Element>, before: string, piece: string, cuts: seq<nat>)
    requires l != [] && Falls(v, l[..|l| - 1], before, cuts) && IsPiece(v, l[|l| - 1], piece)
    ensures Falls(v, l, before + piece, cuts + [|before + piece|])
  {
    var n, text, all := |l| - 1, before + piece, cuts + [|before + piece|];
    forall i | 0 <= i < |l| ensures PieceBetween(v, l[i], text, all[i], all[i + 1]) {
      if i < n {
        assert PieceBetween(v, l[..n][i], before, cuts[i], cuts[i + 1]);
        assert text[all[i]..all[i + 1]] == before[cuts[i]..cuts[i + 1]];
      } else {
        assert text[|before|..|text|] == piece;
      }
    }
  }

  /* Matches and expressions */

  /** How a value of the database compares to a text, by its type. */
  ghost predicate Compares(value: Value, text: string) {
    || value == Str(text)
    || value == Bool(text == "true")
    || (value.Int? && value.i == Atoi(text))
    || (value.StrList? && exists i | 0 <= i < |value.l| :: value.l[i] == text)
    || (value.Number? && value.equals(text))
  }

  lemma ComparesIsEquals(value: Value, text: string)
    ensures Compares(value, text) <==> Equals(value, text)
  {
  }

  /** A match is true of a device: the property at the end of its path is there, with the value if one is
      asked for. */
  ghost predicate IsTrue(v: View, m: Match) {
    m.path.name == "*" ||
    match v
    case OnHal(hal, udi) =>
      exists end :: Leads(hal, udi, m.path.parents, end) && end in hal && m.path.name in hal[end] &&
                    (m.value.Some? ==> Compares(hal[end][m.path.name], m.value.value))
    case OnCell(cs, ps, _) =>
      exists end, values :: CellLeads(cs, ps, m.path.parents, end) && Reads(end, m.path.name, values) &&
                            (m.value.Some? ==> m.value.value in values)
  }

  function HoldsIn(v: View): Match -> bool {
    match v
    case OnHal(hal, udi) => Live(hal, udi)
    case OnCell(cs, ps, _) => Cached(cs, ps)
  }

  lemma MatchIsTrue(v: View, m: Match)
    ensures HoldsIn(v)(m) <==> IsTrue(v, m)
  {
    match v
    case OnHal(hal, udi) => LiveIsTrue(hal, udi, m);
    case OnCell(cs, ps, udi) => CachedIsTrue(cs, ps, udi, m);
  }

  lemma LiveIsTrue(hal: Database, udi: string, m: Match)
    ensures MatchLive(hal, udi, m) <==> IsTrue(OnHal(hal, udi), m)
  {
    var end := ResolveLive(hal, udi, m.path.parents);
    forall other ensures Leads(hal, udi, m.path.parents, other) <==> end == Some(other) {
      LeadsIsResolve(hal, udi, m.path.parents, other);
    }
    if end.Some? { assert Leads(hal, udi, m.path.parents, end.value); }
  }

  lemma CachedIsTrue(cs: seq<Cell>, ps: seq<Property>, udi: string, m: Match)
    ensures MatchCached(cs, ps, m) <==> IsTrue(OnCell(cs, ps, udi), m)
  {
    var end := ResolveCached(cs, ps, m.path.parents);
    forall other ensures CellLeads(cs, ps, m.path.parents, other) <==> end == Some(other) {
      CellLeadsIsResolve(cs, ps, m.path.parents, other);
    }
    if end.Some? {
      assert CellLeads(cs, ps, m.path.parents, end.value);
      forall values ensures Reads(end.value, m.path.name, values) <==> Get(end.value, m.path.name) == Some(values) {
        ReadsIsGet(end.value, m.path.name, values);
      }
      var found := Get(end.value, m.path.name);
      if found.Some? { assert Reads(end.value, m.path.name, found.value); }
    }
  }

  /** The index in a variable selects a match that is true. */
  ghost predicate Selects(v: View, ms: seq<Match>, x: string) {
    exists k | 0 <= k < |ms| :: k == Atoi(x) && IsTrue(v, ms[k])
  }

  /** Some term has all its positive and none of its negative matches. */
  ghost predicate TreeTrue(v: View, t: Expression) {
    exists i | 0 <= i < |t.terms| :: TermTrue(v, t.matches, t.terms[i])
  }

  ghost predicate TermTrue(v: View, ms: seq<Match>, t: Term<string>) {
    (forall j | 0 <= j < |t.positives| :: Selects(v, ms, t.positives[j])) &&
    (forall j | 0 <= j < |t.negatives| :: !Selects(v, ms, t.negatives[j]))
  }

  lemma SelectsIs(v: View, ms: seq<Match>, x: string)
    ensures Selects(v, ms, x) <==> ByIndex(ms, HoldsIn(v))(x)
  {
    var k: int := Atoi(x);
    if 0 <= k < |ms| { MatchIsTrue(v, ms[k]); }
  }

  /** The verdict on an expression. */
  lemma VerdictIsTrue(v: View, t: Expression)
    ensures Verdict(t, HoldsIn(v)) <==> TreeTrue(v, t)
  {
    var sat := ByIndex(t.matches, HoldsIn(v));
    forall x ensures Selects(v, t.matches, x) <==> sat(x) { SelectsIs(v, t.matches, x); }
    forall i | 0 <= i < |t.terms| ensures TermHolds(t.terms[i], sat) <==> TermTrue(v, t.matches, t.terms[i]) { }
  }

  /* Rules */

  /** The commands are those of the rules `ks`, which are all the rules whose expression is true, in order. */
  ghost predicate Firing(v: View, rules: seq<Rule>, ks: seq<int>, commands: seq<string>) {
    && |ks| == |commands|
    && (forall i, j | 0 <= i < j < |ks| :: ks[i] < ks[j])
    && (forall k :: k in ks <==> 0 <= k < |rules| && TreeTrue(v, rules[k].tree))
    && (forall i | 0 <= i < |ks| :: 0 <= ks[i] < |rules| && IsCommand(v, rules[ks[i]].exec, commands[i]))
  }

  ghost predicate Fire(v: View, rules: seq<Rule>, commands: seq<string>) {
    exists ks :: Firing(v, rules, ks, commands)
  }

  /** The commands of a list of rules. */
  lemma {:induction false} CommandsFire(v: View, rules: seq<Rule>)
    ensures Fire(v, rules, Commands(rules, HoldsIn(v), ValueIn(v)))
  {
    var ks := FiringRules(v, rules);
  }

  lemma {:induction false} FiringRules(v: View, rules: seq<Rule>) returns (ks: seq<int>)
    ensures Firing(v, rules, ks, Commands(rules, HoldsIn(v), ValueIn(v)))
  {
    ks := [];
    if rules != [] {
      var n := |rules| - 1;
      var before := Commands(rules[..n], HoldsIn(v), ValueIn(v));
      var ks0 := FiringRules(v, rules[..n]);
      VerdictIsTrue(v, rules[n].tree);
      if Verdict(rules[n].tree, HoldsIn(v)) {
        var cuts := ExpandFalls(v, rules[n].exec);
        ks := ks0 + [n];
        FiresToo(v, rules, ks0, before, Expand(rules[n].exec, ValueIn(v)));
      } else {
        ks := ks0;
        FiresNoMore(v, rules, ks0, before);
        assert before + [] == before;
      }
    }
  }

  lemma FiresToo(v: View, rules: seq<Rule>, ks: seq<int>, commands: seq<string>, command: string)
    requires rules != [] && Firing(v, rules[..|rules| - 1], ks, commands)
    requires TreeTrue(v, rules[|rules| - 1].tree) && IsCommand(v, rules[|rules| - 1].exec, command)
    ensures Firing(v, rules, ks + [|rules| - 1], commands + [command])
  {
    var n, all := |rules| - 1, ks + [|rules| - 1];
    forall i | 0 <= i < |ks| ensures 0 <= ks[i] < n { assert ks[i] in ks; }
    forall k ensures k in all <==> 0 <= k < |rules| && TreeTrue(v, rules[k].tree) {
      assert k in all <==> k in ks || k == n;
    }
  }

  lemma FiresNoMore(v: View, rules: seq<Rule>, ks: seq<int>, commands: seq<string>)
    requires rules != [] && Firing(v, rules[..|rules| - 1], ks, commands) && !TreeTrue(v, rules[|rules| - 1].tree)
    ensures Firing(v, rules, ks, commands)
  {
    forall i | 0 <= i < |ks| ensures 0 <= ks[i] < |rules| && IsCommand(v, rules[ks[i]].exec, commands[i]) {
      assert rules[..|rules| - 1][ks[i]] == rules[ks[i]];
    }
  }

  /** What was spawned since `before`. */
  ghost predicate Spawned(v: View, rules: seq<Rule>, before: seq<string>, after: seq<string>) {
    |before| <= |after| && after[..|before|] == before && Fire(v, rules, after[|before|..])
  }

  lemma CommandsSpawned(v: View, rules: seq<Rule>, before: seq<string>)
    ensures Spawned(v, rules, before, before + Commands(rules, HoldsIn(v), ValueIn(v)))
  {
    CommandsFire(v, rules);
    assert (before + Commands(rules, HoldsIn(v), ValueIn(v)))[|before|..] == Commands(rules, HoldsIn(v), ValueIn(v));
  }
}
