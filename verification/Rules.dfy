/** From the strings of the configuration to rules: both parsers, and what the slots that they leave read. */
module Rules {
  import opened Options
  import opened CStrings
  import opened Numbers
  import opened PropertyPaths
  import opened PathParser
  import opened ExecTemplates
  import opened ExecParser
  import opened BoolStuff
  import opened MatchTokens
  import opened MatchParser
  import opened Hal
  import opened Cells
  import opened Matching
  import opened DeviceList
  import opened Evaluation

  /* Reading slots */

  method ReadPath(buf: array<char>, parents: seq<int>, name: int, ghost path: Path, ghost lo: nat, ghost hi: int) returns (p: Path)
    requires PathAt(buf[..], parents, name, path, lo, hi)
    ensures p == path
  {
    var pieces, k := [], 0;
    while parents[k] != NULL
      invariant k <= |path.parents| && pieces == path.parents[..k]
      decreases |path.parents| - k
    {
      var piece := Duplicate(buf, parents[k]);
      pieces := pieces + [piece];
      k := k + 1;
    }
    var last := Duplicate(buf, name);
    p := Path(pieces, last);
  }

  method ReadMatch(buf: array<char>, slot: MatchSlot, ghost m: Match, ghost hi: int) returns (r: Match)
    requires MatchAt(buf[..], slot, m, 0, hi)
    ensures r == m
  {
    var path := ReadPath(buf, slot.parents, slot.name, m.path, 0, hi);
    if slot.value == NULL {
      return Match(path, None);
    }
    var value := Duplicate(buf, slot.value);
    return Match(path, Some(value));
  }

  method ReadMatches(buf: array<char>, slots: array<MatchSlot>, ghost ms: seq<Match>, ghost hi: int) returns (r: seq<Match>)
    requires MatchesAt(buf[..], slots[..], ms, hi)
    ensures r == ms
  {
    r := [];
    for k := 0 to slots.Length
      invariant r == ms[..k]
    {
      assert MatchAt(buf[..], slots[..][k], ms[k], 0, hi);
      var m := ReadMatch(buf, slots[k], ms[k], hi);
      r := r + [m];
    }
  }

  method ReadElement(buf: array<char>, slot: Slot, ghost e: Element, ghost hi: int) returns (r: Element)
    requires ElementAt(buf[..], slot, e, 0, hi)
    ensures r == e
  {
    match slot {
      case LiteralAt(start) =>
        var text := Duplicate(buf, start);
        r := Literal(text);
      case PropertyAt(parents, name) =>
        var path := ReadPath(buf, parents, name, e.path, 0, hi);
        r := Element.Property(path);
    }
  }

  method ReadElements(buf: array<char>, slots: array<Slot>, size: nat, ghost l: seq<Element>, ghost hi: int) returns (r: seq<Element>)
    requires Filled(buf[..], slots[..], l, hi) && size == |l|
    ensures r == l
  {
    r := [];
    for k := 0 to size
      invariant r == l[..k]
    {
      assert ElementAt(buf[..], slots[..][k], l[k], 0, hi);
      var e := ReadElement(buf, slots[k], l[k], hi);
      r := r + [e];
    }
  }

  /* Strings to rules */

  /** A match string: the expression is the one that the string means, whatever a match is taken to mean,
      and its terms select no match that is not there. */
  method ParseMatchString(buf: array<char>) returns (tree: Option<Expression>, ghost toks: seq<Token>)
    requires Terminated(buf[..], 0) && |Text(buf[..], 0)| < INT_MAX
    modifies buf
    ensures IsTokens(old(Text(buf[..], 0)), toks) && (tree.Some? <==> Accepted(toks))
    ensures tree.Some? ==> InRange(tree.value) && Means(tree.value, toks)
  {
    ghost var e := End(buf[..], 0);
    var ok, slots, terms;
    ok, slots, terms, toks := NewBooleanExpression(buf);
    if !ok {
      return None, toks;
    }
    var ms := ReadMatches(buf, slots, Matches(AtomsOf(toks)), e);
    ParsedInRange(toks, terms);
    ParsedMeans(toks, terms);
    tree := Some(Expression(ms, terms));
  }

  /** The verdict of the expression is the truth of the source with every atom evaluated in its own place. */
  ghost predicate Means(tree: Expression, toks: seq<Token>) {
    Accepted(toks) &&
    forall holds: Match -> bool :: Verdict(tree, holds) <==> Eval(Parse(Source(toks)).value, InPlace(holds))
  }

  lemma {:induction false} ParsedMeans(toks: seq<Token>, terms: seq<Term<string>>)
    requires GoodTokens(toks) && |toks| <= INT_MAX && Accepted(toks)
    requires Parse(Lex(Skeleton(toks))).Some? && IsDnfOf(terms, Parse(Lex(Skeleton(toks))).value)
    ensures Means(Expression(Matches(AtomsOf(toks)), terms), toks)
  {
    var tree, source := Expression(Matches(AtomsOf(toks)), terms), Parse(Source(toks)).value;
    forall holds: Match -> bool ensures Verdict(tree, holds) <==> Eval(source, InPlace(holds)) {
      VerdictPreserved(toks, Parse(Lex(Skeleton(toks))).value, source, terms, holds);
    }
  }

  /** A command string: the elements are those that it denotes, if it denotes any. */
  method ParseCommand(buf: array<char>) returns (exec: Option<seq<Element>>)
    requires Terminated(buf[..], 0)
    modifies buf
    ensures exec.Some? <==> exists l :: IsTemplate(old(Text(buf[..], 0)), l)
    ensures exec.Some? ==> IsTemplate(old(Text(buf[..], 0)), exec.value)
  {
    ghost var s, e := Text(buf[..], 0), End(buf[..], 0);
    var ok, slots, size := NewExec(buf);
    if !ok {
      return None;
    }
    ghost var l :| IsTemplate(s, l);
    var elements := ReadElements(buf, slots, size, l, e);
    exec := Some(elements);
  }

  /** `halevt_add_insertion` and its like: a rule if both strings are accepted. */
  method NewRule(buf: array<char>, exec: array<char>) returns (rule: Option<Rule>, ghost toks: seq<Token>)
    requires buf != exec && Terminated(buf[..], 0) && |Text(buf[..], 0)| < INT_MAX && Terminated(exec[..], 0)
    modifies buf, exec
    ensures IsTokens(old(Text(buf[..], 0)), toks)
    ensures rule.Some? <==> Accepted(toks) && exists l :: IsTemplate(old(Text(exec[..], 0)), l)
    ensures rule.Some? ==> InRange(rule.value.tree) && Means(rule.value.tree, toks)
    ensures rule.Some? ==> IsTemplate(old(Text(exec[..], 0)), rule.value.exec)
  {
    ghost var c := exec[..];
    var tree, command;
    tree, toks := ParseMatchString(buf);
    rule := None;
    if tree.Some? {
      assert exec[..] == c;
      command := ParseCommand(exec);
      if command.Some? {
        rule := Some(Rule(tree.value, command.value));
      }
    }
  }

  /** From a match string to its verdict on a device, or on a cached device. */
  method MatchString(buf: array<char>, hal: Database, list: DeviceList, udi: Option<string>, device: DeviceNode?, ghost ps: seq<Property>)
    returns (verdict: Option<bool>, ghost toks: seq<Token>)
    requires Terminated(buf[..], 0) && |Text(buf[..], 0)| < INT_MAX
    requires list.Valid() && (udi.None? ==> device != null && device.Shows(ps))
    modifies buf
    ensures IsTokens(old(Text(buf[..], 0)), toks) && (verdict.Some? <==> Accepted(toks))
    ensures verdict.Some? ==>
              (verdict.value <==> Eval(Parse(Source(toks)).value, InPlace(Asked(hal, list.cells, udi, ps))))
  {
    var tree;
    tree, toks := ParseMatchString(buf);
    if tree.None? {
      return None, toks;
    }
    var result := TrueTree(hal, list, tree.value, udi, device, ps);
    verdict := Some(result);
  }
}
