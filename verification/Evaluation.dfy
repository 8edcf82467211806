/** How a rule is evaluated, on the database or on the cached device, and how its command is expanded. */
module Evaluation {
  import opened Options
  import opened CStrings
  import opened CBuffers
  import opened Numbers
  import opened PropertyPaths
  import opened ExecTemplates
  import opened BoolStuff
  import opened MatchParser
  import opened MatchTokens
  import opened Hal
  import opened Cells
  import opened Matching
  import opened Reference
  import opened DeviceList

  /* Matching on the database */

  /** `halevt_property_matches_udi`. */
  method PropertyMatchesUdi(hal: Database, name: string, value: Option<string>, udi: string) returns (result: bool)
    ensures result <==> LiveHas(hal, udi, name, value)
  {
    result := false;
    if udi in hal && name in hal[udi] {
      if value.None? { return true; }
      match hal[udi][name] {
        case Bool(b) =>
          var expected := value.value == "true";
          result := b == expected;
        case Str(s) => result := value.value == s;
        case Int(i) => result := i == Atoi(value.value);
        case StrList(l) =>
          var k := 0;
          while k < |l|
            invariant k <= |l| && value.value !in l[..k]
          {
            if l[k] == value.value { return true; }
            k := k + 1;
          }
        case Number(_, equals) => result := equals(value.value);
        case Unhandled =>
      }
    }
  }

  /** `halevt_property_resolve_udi`: the loop over the parents that replaces the current udi. */
  method ResolveUdi(hal: Database, udi: string, parents: seq<string>) returns (target: Option<string>)
    ensures target == ResolveLive(hal, udi, parents)
  {
    var current := udi;
    var k := 0;
    assert parents[0..] == parents;
    while k < |parents|
      invariant k <= |parents| && ResolveLive(hal, udi, parents) == ResolveLive(hal, current, parents[k..])
    {
      assert parents[k..][1..] == parents[k + 1..];
      if !(current in hal && parents[k] in hal[current]) { return None; }
      if !hal[current][parents[k]].Str? { return None; }
      current := hal[current][parents[k]].s;
      k := k + 1;
    }
    return Some(current);
  }

  method MatchUdi(hal: Database, m: Match, udi: string) returns (result: bool)
    requires m.path.name != "*"
    ensures result <==> MatchLive(hal, udi, m)
  {
    var target := ResolveUdi(hal, udi, m.path.parents);
    if target.None? { return false; }
    result := PropertyMatchesUdi(hal, m.path.name, m.value, target.value);
  }

  /* Matching on the cached device */

  /** `halevt_property_matches_device`. */
  method PropertyMatchesDevice(name: string, value: Option<string>, device: DeviceNode, ghost ps: seq<Property>)
    returns (result: bool)
    requires device.Shows(ps)
    ensures result <==> CachedHas(ps, name, value)
  {
    var _, property := device.Find(name, ps);
    if property == null { return false; }
    device.At(ps, FirstKey(ps, name, 0));
    if value.None? { return true; }
    var values := property.values;
    var k := 0;
    while k < |values|
      invariant k <= |values| && value.value !in values[..k]
    {
      if values[k] == value.value { return true; }
      k := k + 1;
    }
    return false;
  }

  /** The newest cell of the device that a parent property names; none if there is none, or no name. */
  method ResolveParent(list: DeviceList, parent: string, device: DeviceNode, ghost ps: seq<Property>)
    returns (next: DeviceNode?, nameless: bool)
    requires list.Valid() && device.Shows(ps)
    ensures nameless <==> Get(ps, parent) == Some([])
    ensures var qs := ParentOf(list.cells, ps, parent);
            if qs.None? then next == null else next != null && next.Shows(qs.value)
  {
    var _, property := device.Find(parent, ps);
    if property == null { return null, false; }
    device.At(ps, FirstKey(ps, parent, 0));
    if property.values == [] { return null, true; }
    ghost var i := FirstUdi(list.cells, property.values[0], 0);
    var _, found := list.FindDevice(property.values[0]);
    if found != null { list.At(i); }
    return found, false;
  }

  /** `halevt_property_resolve_device`: the loop over the parents that replaces the current device. When
      the chain derails, the program passes a missing string to `strcmp`; the model leads nowhere. */
  method ResolveDevice(list: DeviceList, parents: seq<string>, device: DeviceNode, ghost ps: seq<Property>)
    returns (target: DeviceNode?, derails: bool)
    requires list.Valid() && device.Shows(ps)
    ensures derails <==> Derails(list.cells, ps, parents)
    ensures var qs := ResolveCached(list.cells, ps, parents);
            if qs.None? then target == null else target != null && target.Shows(qs.value)
  {
    var current: DeviceNode := device;
    ghost var qs := ps;
    var k := 0;
    assert parents[0..] == parents;
    while k < |parents|
      invariant k <= |parents| && current.Shows(qs)
      invariant ResolveCached(list.cells, ps, parents) == ResolveCached(list.cells, qs, parents[k..])
      invariant Derails(list.cells, ps, parents) == Derails(list.cells, qs, parents[k..])
    {
      NextParent(list.cells, qs, parents, k);
      var next, nameless := ResolveParent(list, parents[k], current, qs);
      if next == null { return null, nameless; }
      current, qs := next, ParentOf(list.cells, qs, parents[k]).value;
      k := k + 1;
    }
    return current, false;
  }

  method MatchDevice(list: DeviceList, m: Match, device: DeviceNode, ghost ps: seq<Property>) returns (result: bool)
    requires m.path.name != "*" && list.Valid() && device.Shows(ps)
    ensures result <==> MatchCached(list.cells, ps, m)
  {
    var target, _ := ResolveDevice(list, m.path.parents, device, ps);
    if target == null { return false; }
    result := PropertyMatchesDevice(m.path.name, m.value, target, ResolveCached(list.cells, ps, m.path.parents).value);
  }

  /* Both, as the callers ask: by udi when one is given, else by device */

  ghost function Asked(hal: Database, cs: seq<Cell>, udi: Option<string>, ps: seq<Property>): Match -> bool {
    if udi.Some? then Live(hal, udi.value) else Cached(cs, ps)
  }

  /** `halevt_matches`. */
  method MatchHolds(hal: Database, list: DeviceList, m: Match, udi: Option<string>, device: DeviceNode?, ghost ps: seq<Property>)
    returns (result: bool)
    requires list.Valid() && (udi.None? ==> device != null && device.Shows(ps))
    ensures result <==> Asked(hal, list.cells, udi, ps)(m)
  {
    if m.path.name == "*" { return true; }
    if udi.Some? {
      result := MatchUdi(hal, m, udi.value);
    } else {
      result := MatchDevice(list, m, device, ps);
    }
  }

  /** The index in every variable is one of the `n` matches. */
  ghost predicate Indices(vars: seq<string>, n: nat) {
    forall i | 0 <= i < |vars| :: 0 <= Atoi(vars[i]) < n
  }

  ghost predicate InRange(t: Expression) {
    forall i | 0 <= i < |t.terms| ::
      Indices(t.terms[i].positives, |t.matches|) && Indices(t.terms[i].negatives, |t.matches|)
  }

  /** The terms that the parser of match strings leaves never select a match that is not there. */
  lemma {:induction false} ParsedInRange(toks: seq<Token>, terms: seq<Term<string>>)
    requires GoodTokens(toks) && |toks| <= INT_MAX && Accepted(toks)
    requires Parse(Lex(Skeleton(toks))).Some? && IsDnfOf(terms, Parse(Lex(Skeleton(toks))).value)
    ensures InRange(Expression(Matches(AtomsOf(toks)), terms))
  {
    SkeletonVars(toks);
    var vars := Vars(Parse(Lex(Skeleton(toks))).value);
    forall i | 0 <= i < |terms|
      ensures Indices(terms[i].positives, |AtomsOf(toks)|) && Indices(terms[i].negatives, |AtomsOf(toks)|)
    {
      assert TermOver(terms[i], vars);
    }
  }

  /** The loop over the variables of one sign, left at the first one that does not hold as the sign says. */
  method AllAre(hal: Database, list: DeviceList, ms: seq<Match>, vars: seq<string>, sign: bool, udi: Option<string>,
                device: DeviceNode?, ghost ps: seq<Property>)
    returns (result: bool)
    requires list.Valid() && (udi.None? ==> device != null && device.Shows(ps)) && Indices(vars, |ms|)
    ensures result <==> forall i | 0 <= i < |vars| :: ByIndex(ms, Asked(hal, list.cells, udi, ps))(vars[i]) == sign
  {
    ghost var sat := ByIndex(ms, Asked(hal, list.cells, udi, ps));
    for i := 0 to |vars|
      invariant forall j | 0 <= j < i :: sat(vars[j]) == sign
    {
      var b := MatchHolds(hal, list, ms[Atoi(vars[i])], udi, device, ps);
      assert b == sat(vars[i]);
      if b != sign { return false; }
    }
    return true;
  }

  /** `halevt_true_tree`: the loop over the terms, left at the first one that holds. */
  method TrueTree(hal: Database, list: DeviceList, t: Expression, udi: Option<string>, device: DeviceNode?, ghost ps: seq<Property>)
    returns (result: bool)
    requires list.Valid() && (udi.None? ==> device != null && device.Shows(ps))
    requires InRange(t)
    ensures result <==> Verdict(t, Asked(hal, list.cells, udi, ps))
    ensures result <==> TreeTrue(if udi.Some? then OnHal(hal, udi.value) else OnCell(list.cells, ps, ""), t)
  {
    ghost var sat := ByIndex(t.matches, Asked(hal, list.cells, udi, ps));
    VerdictIsTrue(if udi.Some? then OnHal(hal, udi.value) else OnCell(list.cells, ps, ""), t);
    for n := 0 to |t.terms|
      invariant forall k | 0 <= k < n :: !TermHolds(t.terms[k], sat)
    {
      result := AllAre(hal, list, t.matches, t.terms[n].positives, true, udi, device, ps);
      if result {
        result := AllAre(hal, list, t.matches, t.terms[n].negatives, false, udi, device, ps);
      }
      assert result <==> TermHolds(t.terms[n], sat);
      if result { return; }
    }
    return false;
  }

  /* Commands */

  ghost function Given(hal: Database, cs: seq<Cell>, udi: string, device: DeviceNode?, ps: seq<Property>): Path -> Option<seq<string>> {
    if device != null then CachedValue(cs, ps, udi) else LiveValue(hal, udi)
  }

  /** `halevt_property_name_value`. */
  method PropertyNameValue(hal: Database, list: DeviceList, path: Path, udi: string, device: DeviceNode?, ghost ps: seq<Property>)
    returns (values: Option<seq<string>>)
    requires list.Valid() && (device != null ==> device.Shows(ps))
    ensures values == Given(hal, list.cells, udi, device, ps)(path)
  {
    values := None;
    if path.name == "udi" && path.parents == [] {
      values := Some([udi]);
    } else if device != null {
      var target, _ := ResolveDevice(list, path.parents, device, ps);
      if target != null {
        ghost var qs := ResolveCached(list.cells, ps, path.parents).value;
        var _, property := target.Find(path.name, qs);
        if property != null {
          target.At(qs, FirstKey(qs, path.name, 0));
          values := Some(property.values);
        }
      }
    } else {
      var target := ResolveUdi(hal, udi, path.parents);
      if target.Some? {
        values := PropertyValue(hal, target.value, path.name);
      }
    }
  }

  /** The sizes that the command buffer goes through: it starts at 255 and is set to twice its size and
      the next text together. */
  function Capacity(lengths: seq<nat>): nat {
    if lengths == [] then 255 else 2 * (lengths[|lengths| - 1] + Capacity(lengths[..|lengths| - 1]))
  }

  function Pow2(n: nat): (p: nat)
    ensures p > 0
  {
    if n == 0 then 1 else 2 * Pow2(n - 1)
  }

  /** The share of the texts in the capacity: text `i` of `n` was doubled `n - i` times. */
  function Weighted(lengths: seq<nat>, n: nat): nat
    requires |lengths| <= n
  {
    if lengths == [] then 0 else
    Weighted(lengths[..|lengths| - 1], n) + Pow2(n - |lengths| + 1) * lengths[|lengths| - 1]
  }

  function Total(lengths: seq<nat>): nat {
    if lengths == [] then 0 else Total(lengths[..|lengths| - 1]) + lengths[|lengths| - 1]
  }

  lemma {:induction false} WeightedDoubles(lengths: seq<nat>, n: nat)
    requires |lengths| <= n
    ensures Weighted(lengths, n + 1) == 2 * Weighted(lengths, n)
  {
    if lengths != [] {
      WeightedDoubles(lengths[..|lengths| - 1], n);
      assert Pow2(n + 1 - |lengths| + 1) == 2 * Pow2(n - |lengths| + 1);
    }
  }

  /** The capacity in closed form. */
  lemma {:induction false} CapacityIs(lengths: seq<nat>)
    ensures Capacity(lengths) == 255 * Pow2(|lengths|) + Weighted(lengths, |lengths|)
  {
    if lengths != [] {
      var n := |lengths| - 1;
      CapacityIs(lengths[..n]);
      WeightedDoubles(lengths[..n], n);
      assert Pow2(1) == 2;
    }
  }

  lemma {:induction false} CapacityBound(lengths: seq<nat>)
    ensures 255 * Pow2(|lengths|) <= Capacity(lengths) <= Pow2(|lengths|) * (255 + Total(lengths))
  {
    if lengths != [] {
      var n := |lengths| - 1;
      CapacityBound(lengths[..n]);
      DoubledBound(Capacity(lengths[..n]), lengths[n], Pow2(n), Total(lengths[..n]));
    }
  }

  lemma {:induction false} DoubledBound(c: nat, l: nat, p: nat, t: nat)
    requires p > 0 && c <= p * (255 + t)
    ensures 2 * (l + c) <= (2 * p) * (255 + (t + l))
  {
    assert p * (255 + (t + l)) == p * (255 + t) + p * l;
    assert l <= p * l;
  }

  /** When the size of the buffer stays an int: texts that are short enough for their number. With 24
      elements it never does, however short they are. */
  lemma CapacityFits(lengths: seq<nat>)
    ensures Pow2(|lengths|) * (255 + Total(lengths)) <= INT_MAX ==> Capacity(lengths) <= INT_MAX
    ensures |lengths| >= 24 ==> Capacity(lengths) > INT_MAX
  {
    CapacityBound(lengths);
    if |lengths| >= 24 {
      Pow2Grows(24, |lengths|);
      TwoTo24();
    }
  }

  lemma TwoTo24()
    ensures Pow2(24) == 0x100_0000
  {
    assert Pow2(8) == 256;
    assert Pow2(16) == 0x1_0000;
  }

  lemma {:induction false} Pow2Grows(m: nat, n: nat)
    requires m <= n
    ensures Pow2(m) <= Pow2(n)
  {
    if m < n { Pow2Grows(m, n - 1); }
  }

  ghost function Lengths(l: seq<Element>, value: Path -> Option<seq<string>>): (r: seq<nat>)
    ensures |r| == |l|
  {
    if l == [] then [] else Lengths(l[..|l| - 1], value) + [|ElementValue(l[|l| - 1], value)|]
  }

  /** No text that goes into the command holds a terminator. */
  ghost predicate ExpandsToText(l: seq<Element>, value: Path -> Option<seq<string>>) {
    forall i | 0 <= i < |l| :: IsText(ElementValue(l[i], value))
  }

  /** The text of one element. */
  method ElementText(hal: Database, list: DeviceList, e: Element, udi: string, device: DeviceNode?, ghost ps: seq<Property>)
    returns (piece: string)
    requires list.Valid() && (device != null ==> device.Shows(ps))
    ensures piece == ElementValue(e, Given(hal, list.cells, udi, device, ps))
  {
    match e {
      case Literal(t) => piece := t;
      case Property(path) =>
        var values := PropertyNameValue(hal, list, path, udi, device, ps);
        piece := if values.None? || values.value == [] then UNKNOWN else values.value[0];
    }
  }

  lemma ExpandNext(l: seq<Element>, i: nat, value: Path -> Option<seq<string>>)
    requires i < |l|
    ensures Expand(l[..i + 1], value) == Expand(l[..i], value) + ElementValue(l[i], value)
    ensures Lengths(l[..i + 1], value) == Lengths(l[..i], value) + [|ElementValue(l[i], value)|]
  {
    assert l[..i + 1][..i] == l[..i];
  }

  /** The growth of the buffer for one more text. The test always holds. */
  method AppendText(command: array<char>, stringSize: nat, currentSize: nat, piece: string, ghost text: string)
    returns (grown: array<char>, newStringSize: nat, newCurrentSize: nat)
    requires HoldsText(command[..], text) && IsText(piece)
    requires command.Length == stringSize && currentSize == |text| + 1 < stringSize
    ensures fresh(grown) && HoldsText(grown[..], text + piece)
    ensures grown.Length == newStringSize == 2 * (|piece| + stringSize)
    ensures newCurrentSize == |text + piece| + 1 < newStringSize
  {
    grown, newStringSize, newCurrentSize := command, stringSize, currentSize;
    var length := |piece|;
    assert length + stringSize > currentSize;
    if length + stringSize > currentSize {
      newStringSize := 2 * (length + stringSize);
      newCurrentSize := currentSize + length;
      grown := GrowText(command, newStringSize, text);
      StrCat(grown, piece, text);
    }
  }

  /** `halevt_run_command` up to the spawning: the command, in a buffer that was large enough for every
      text, and from which no element is missing. */
  method ExpandCommand(hal: Database, list: DeviceList, exec: seq<Element>, udi: string, device: DeviceNode?, ghost ps: seq<Property>)
    returns (command: array<char>, ghost text: string)
    requires list.Valid() && (device != null ==> device.Shows(ps))
    requires ExpandsToText(exec, Given(hal, list.cells, udi, device, ps))
    ensures text == Expand(exec, Given(hal, list.cells, udi, device, ps)) && HoldsText(command[..], text)
    ensures command.Length == Capacity(Lengths(exec, Given(hal, list.cells, udi, device, ps)))
    ensures IsCommand(if device == null then OnHal(hal, udi) else OnCell(list.cells, ps, udi), exec, text)
  {
    ghost var cuts := ExpandFalls(if device == null then OnHal(hal, udi) else OnCell(list.cells, ps, udi), exec);
    ghost var value := Given(hal, list.cells, udi, device, ps);
    var stringSize, currentSize := 255, 1;
    command := new char[stringSize];
    command[0] := NUL;
    text := "";
    for i := 0 to |exec|
      invariant text == Expand(exec[..i], value) && HoldsText(command[..], text)
      invariant command.Length == stringSize == Capacity(Lengths(exec[..i], value))
      invariant currentSize == |text| + 1 < stringSize
    {
      var piece := ElementText(hal, list, exec[i], udi, device, ps);
      ExpandNext(exec, i, value);
      command, stringSize, currentSize := AppendText(command, stringSize, currentSize, piece, text);
      text := text + piece;
    }
    assert exec[..|exec|] == exec;
  }
}
