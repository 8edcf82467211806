/** A stand-in for the boolstuff library, which the program uses but does not contain: the grammar of
    `!`, `&`, `|` and parentheses, and the disjunctive normal form. Later modules only rely on what is
    proved about it here. */
module BoolStuff {
  import opened Options

  datatype Lexeme<V> = Op(c: char) | Leaf(v: V)
  datatype Expr<V> = Var(v: V) | Not(e: Expr<V>) | And(l: Expr<V>, r: Expr<V>) | Or(l: Expr<V>, r: Expr<V>)
  datatype Term<V> = Term(positives: seq<V>, negatives: seq<V>)
  datatype Parsed<V> = Parsed(e: Expr<V>, rest: seq<Lexeme<V>>)

  function Eval<V>(e: Expr<V>, sat: V -> bool): bool {
    match e
    case Var(v) => sat(v)
    case Not(x) => !Eval(x, sat)
    case And(l, r) => Eval(l, sat) && Eval(r, sat)
    case Or(l, r) => Eval(l, sat) || Eval(r, sat)
  }

  function Vars<V>(e: Expr<V>): set<V> {
    match e
    case Var(v) => {v}
    case Not(x) => Vars(x)
    case And(l, r) => Vars(l) + Vars(r)
    case Or(l, r) => Vars(l) + Vars(r)
  }

  predicate Starts<V(==)>(l: seq<Lexeme<V>>, c: char) {
    l != [] && l[0] == Op(c)
  }

  /* The parser */

  function ParseOr<V(==)>(l: seq<Lexeme<V>>): (p: Option<Parsed<V>>)
    ensures p.Some? ==> |p.value.rest| < |l|
    decreases |l|, 2
  {
    var p := ParseAnd(l);
    if p.None? || !Starts(p.value.rest, '|') then p else
    var q := ParseOr(p.value.rest[1..]);
    if q.None? then None else Some(Parsed(Or(p.value.e, q.value.e), q.value.rest))
  }

  function ParseAnd<V(==)>(l: seq<Lexeme<V>>): (p: Option<Parsed<V>>)
    ensures p.Some? ==> |p.value.rest| < |l|
    decreases |l|, 1
  {
    var p := ParseUnit(l);
    if p.None? || !Starts(p.value.rest, '&') then p else
    var q := ParseAnd(p.value.rest[1..]);
    if q.None? then None else Some(Parsed(And(p.value.e, q.value.e), q.value.rest))
  }

  function ParseUnit<V(==)>(l: seq<Lexeme<V>>): (p: Option<Parsed<V>>)
    ensures p.Some? ==> |p.value.rest| < |l|
    decreases |l|, 0
  {
    if l == [] then None
    else if l[0].Leaf? then Some(Parsed(Var(l[0].v), l[1..]))
    else if l[0].c == '!' then
      var p := ParseUnit(l[1..]);
      if p.None? then None else Some(Parsed(Not(p.value.e), p.value.rest))
    else if l[0].c == '(' then
      var p := ParseOr(l[1..]);
      if p.None? || !Starts(p.value.rest, ')') then None else Some(Parsed(p.value.e, p.value.rest[1..]))
    else None
  }

  /** The tree of a lexeme sequence; None when an operand is missing, a parenthesis is left open, or
      something follows the expression. */
  function Parse<V(==)>(l: seq<Lexeme<V>>): Option<Expr<V>> {
    var p := ParseOr(l);
    if p.None? || p.value.rest != [] then None else Some(p.value.e)
  }

  /* The grammar, as a printer with the fewest parentheses: level 0 admits `|`, level 1 `&`, level 2
     neither. */

  function Print<V>(e: Expr<V>, level: nat): (l: seq<Lexeme<V>>)
    decreases e, 1
  {
    match e
    case Var(v) => [Leaf(v)]
    case Not(x) => [Op('!')] + Print(x, 2)
    case And(_, _) => if level <= 1 then Infix(e) else [Op('(')] + Infix(e) + [Op(')')]
    case Or(_, _) => if level == 0 then Infix(e) else [Op('(')] + Infix(e) + [Op(')')]
  }

  function Infix<V>(e: Expr<V>): seq<Lexeme<V>>
    requires e.And? || e.Or?
    decreases e, 0
  {
    if e.And? then Print(e.l, 2) + [Op('&')] + Print(e.r, 1)
    else Print(e.l, 1) + [Op('|')] + Print(e.r, 0)
  }

  lemma {:induction false} UnitOfPrint<V>(e: Expr<V>, rest: seq<Lexeme<V>>)
    ensures ParseUnit(Print(e, 2) + rest) == Some(Parsed(e, rest))
    decreases e, 3
  {
    match e
    case Var(v) => assert (Print(e, 2) + rest)[1..] == rest;
    case Not(_) => UnitOfNot(e, rest);
    case _ => UnitOfGroup(e, rest);
  }

  lemma UnitOfNot<V>(e: Expr<V>, rest: seq<Lexeme<V>>)
    requires e.Not?
    ensures ParseUnit(Print(e, 2) + rest) == Some(Parsed(e, rest))
    decreases e, 2
  {
    UnitOfPrint(e.e, rest);
    NotUnit(Print(e.e, 2) + rest, Parsed(e.e, rest));
    assert Print(e, 2) + rest == [Op('!')] + (Print(e.e, 2) + rest);
  }

  lemma UnitOfGroup<V>(e: Expr<V>, rest: seq<Lexeme<V>>)
    requires e.And? || e.Or?
    ensures ParseUnit(Print(e, 2) + rest) == Some(Parsed(e, rest))
    decreases e, 2
  {
    var inner := Infix(e);
    OrOfInfix(e, [Op(')')] + rest);
    ParenUnit(inner, rest, e);
    Reassociate([Op('(')], inner, [Op(')')], rest);
  }

  lemma Reassociate<T>(a: seq<T>, b: seq<T>, c: seq<T>, d: seq<T>)
    ensures a + b + c + d == a + (b + (c + d))
  {
  }

  lemma NotUnit<V>(l: seq<Lexeme<V>>, p: Parsed<V>)
    requires ParseUnit(l) == Some(p)
    ensures ParseUnit([Op('!')] + l) == Some(Parsed(Not(p.e), p.rest))
  {
    assert ([Op('!')] + l)[1..] == l;
  }

  lemma ParenUnit<V>(l: seq<Lexeme<V>>, rest: seq<Lexeme<V>>, e: Expr<V>)
    requires ParseOr(l + ([Op(')')] + rest)) == Some(Parsed(e, [Op(')')] + rest))
    ensures ParseUnit([Op('(')] + (l + ([Op(')')] + rest))) == Some(Parsed(e, rest))
  {
    assert ([Op('(')] + (l + ([Op(')')] + rest)))[1..] == l + ([Op(')')] + rest);
    assert ([Op(')')] + rest)[1..] == rest;
  }

  lemma OrOfInfix<V>(e: Expr<V>, rest: seq<Lexeme<V>>)
    requires e.And? || e.Or?
    requires !Starts(rest, '&') && !Starts(rest, '|')
    ensures ParseOr(Infix(e) + rest) == Some(Parsed(e, rest))
    decreases e, 1
  {
    if e.And? {
      AndOfInfix(e, rest);
    } else {
      var after := [Op('|')] + (Print(e.r, 0) + rest);
      assert Infix(e) + rest == Print(e.l, 1) + after;
      assert after[1..] == Print(e.r, 0) + rest;
      AndOfPrint(e.l, after);
      OrOfPrint(e.r, rest);
    }
  }

  lemma AndOfInfix<V>(e: Expr<V>, rest: seq<Lexeme<V>>)
    requires e.And?
    requires !Starts(rest, '&')
    ensures ParseAnd(Infix(e) + rest) == Some(Parsed(e, rest))
    decreases e, 0
  {
    var after := [Op('&')] + (Print(e.r, 1) + rest);
    assert Infix(e) + rest == Print(e.l, 2) + after;
    assert after[1..] == Print(e.r, 1) + rest;
    UnitOfPrint(e.l, after);
    AndOfPrint(e.r, rest);
  }

  lemma AndOfPrint<V>(e: Expr<V>, rest: seq<Lexeme<V>>)
    requires !Starts(rest, '&')
    ensures ParseAnd(Print(e, 1) + rest) == Some(Parsed(e, rest))
    decreases e, 4
  {
    if e.And? {
      AndOfInfix(e, rest);
    } else {
      assert Print(e, 1) == Print(e, 2);
      UnitOfPrint(e, rest);
    }
  }

  lemma OrOfPrint<V>(e: Expr<V>, rest: seq<Lexeme<V>>)
    requires !Starts(rest, '&') && !Starts(rest, '|')
    ensures ParseOr(Print(e, 0) + rest) == Some(Parsed(e, rest))
    decreases e, 5
  {
    if e.Or? {
      OrOfInfix(e, rest);
    } else {
      assert Print(e, 0) == Print(e, 1);
      AndOfPrint(e, rest);
    }
  }

  /** The parser reads every expression back from its printed form: `!` binds tightest, then `&`, then
      `|`, and parentheses group. */
  lemma ParseInvertsPrint<V>(e: Expr<V>)
    ensures Parse(Print(e, 0)) == Some(e)
  {
    OrOfPrint(e, []);
    assert Print(e, 0) + [] == Print(e, 0);
  }

  /* Variables come from the input */

  /** The operators without parentheses: negation first, then `&`, then `|`. */
  lemma Precedence<V>(a: V, b: V, c: V)
    ensures Parse([Leaf(a), Op('|'), Leaf(b), Op('&'), Leaf(c)]) == Some(Or(Var(a), And(Var(b), Var(c))))
    ensures Parse([Leaf(a), Op('&'), Leaf(b), Op('|'), Leaf(c)]) == Some(Or(And(Var(a), Var(b)), Var(c)))
    ensures Parse([Op('!'), Leaf(a), Op('&'), Leaf(b)]) == Some(And(Not(Var(a)), Var(b)))
  {
    var ab, bc := And(Var(a), Var(b)), And(Var(b), Var(c));
    var x, y, z := Or(Var(a), bc), Or(ab, Var(c)), And(Not(Var(a)), Var(b));
    ParseInvertsPrint(x);
    ParseInvertsPrint(y);
    ParseInvertsPrint(z);
    PrintsBinary(Var(b), Var(c), [Leaf(b)], [Leaf(c)]);
    PrintsBinary(Var(a), Var(b), [Leaf(a)], [Leaf(b)]);
    PrintsBinary(Var(a), bc, [Leaf(a)], [Leaf(b)] + [Op('&')] + [Leaf(c)]);
    PrintsBinary(ab, Var(c), [Leaf(a)] + [Op('&')] + [Leaf(b)], [Leaf(c)]);
    PrintsBinary(Not(Var(a)), Var(b), [Op('!')] + [Leaf(a)], [Leaf(b)]);
    assert Print(x, 0) == [Leaf(a), Op('|'), Leaf(b), Op('&'), Leaf(c)];
    assert Print(y, 0) == [Leaf(a), Op('&'), Leaf(b), Op('|'), Leaf(c)];
    assert Print(z, 0) == [Op('!'), Leaf(a), Op('&'), Leaf(b)];
  }

  lemma PrintsBinary<V>(x: Expr<V>, y: Expr<V>, p: seq<Lexeme<V>>, q: seq<Lexeme<V>>)
    ensures Print(x, 2) == p && Print(y, 1) == q ==>
              Print(And(x, y), 0) == Print(And(x, y), 1) == p + [Op('&')] + q
    ensures Print(x, 1) == p && Print(y, 0) == q ==> Print(Or(x, y), 0) == p + [Op('|')] + q
  {
  }

  predicate LeavesIn<V(==)>(l: seq<Lexeme<V>>, vars: set<V>) {
    forall i | 0 <= i < |l| && l[i].Leaf? :: l[i].v in vars
  }

  lemma {:induction false} OrVars<V>(l: seq<Lexeme<V>>, vars: set<V>)
    requires LeavesIn(l, vars) && ParseOr(l).Some?
    ensures Vars(ParseOr(l).value.e) <= vars && LeavesIn(ParseOr(l).value.rest, vars)
    decreases |l|, 2
  {
    AndVars(l, vars);
    var rest := ParseAnd(l).value.rest;
    if Starts(rest, '|') { OrVars(rest[1..], vars); }
  }

  lemma {:induction false} AndVars<V>(l: seq<Lexeme<V>>, vars: set<V>)
    requires LeavesIn(l, vars) && ParseAnd(l).Some?
    ensures Vars(ParseAnd(l).value.e) <= vars && LeavesIn(ParseAnd(l).value.rest, vars)
    decreases |l|, 1
  {
    UnitVars(l, vars);
    var rest := ParseUnit(l).value.rest;
    if Starts(rest, '&') { AndVars(rest[1..], vars); }
  }

  lemma {:induction false} UnitVars<V>(l: seq<Lexeme<V>>, vars: set<V>)
    requires LeavesIn(l, vars) && ParseUnit(l).Some?
    ensures Vars(ParseUnit(l).value.e) <= vars && LeavesIn(ParseUnit(l).value.rest, vars)
    decreases |l|, 0
  {
    if l[0].Op? && l[0].c == '!' {
      UnitVars(l[1..], vars);
    } else if l[0].Op? {
      OrVars(l[1..], vars);
    }
  }

  lemma VarsOfParse<V>(l: seq<Lexeme<V>>, vars: set<V>)
    requires LeavesIn(l, vars) && Parse(l).Some?
    ensures Vars(Parse(l).value) <= vars
  {
    OrVars(l, vars);
  }

  /* Renaming variables */

  function Rename<V, W>(e: Expr<V>, f: V -> W): Expr<W> {
    match e
    case Var(v) => Var(f(v))
    case Not(x) => Not(Rename(x, f))
    case And(l, r) => And(Rename(l, f), Rename(r, f))
    case Or(l, r) => Or(Rename(l, f), Rename(r, f))
  }

  function RenameLexeme<V, W>(x: Lexeme<V>, f: V -> W): Lexeme<W> {
    match x
    case Op(c) => Op(c)
    case Leaf(v) => Leaf(f(v))
  }

  function RenameAll<V, W>(l: seq<Lexeme<V>>, f: V -> W): (r: seq<Lexeme<W>>)
    ensures |r| == |l|
  {
    seq(|l|, i requires 0 <= i < |l| => RenameLexeme(l[i], f))
  }

  function RenameParsed<V, W>(p: Option<Parsed<V>>, f: V -> W): Option<Parsed<W>> {
    if p.None? then None else Some(Parsed(Rename(p.value.e, f), RenameAll(p.value.rest, f)))
  }

  lemma RenameTail<V, W>(l: seq<Lexeme<V>>, f: V -> W)
    requires l != []
    ensures RenameAll(l, f)[1..] == RenameAll(l[1..], f)
  {
  }

  lemma RenameStarts<V, W>(l: seq<Lexeme<V>>, f: V -> W, c: char)
    ensures Starts(RenameAll(l, f), c) <==> Starts(l, c)
  {
  }

  lemma {:induction false} OrRenames<V, W>(l: seq<Lexeme<V>>, f: V -> W)
    ensures ParseOr(RenameAll(l, f)) == RenameParsed(ParseOr(l), f)
    decreases |l|, 2
  {
    AndRenames(l, f);
    var p := ParseAnd(l);
    if p.Some? {
      RenameStarts(p.value.rest, f, '|');
      if Starts(p.value.rest, '|') {
        RenameTail(p.value.rest, f);
        OrRenames(p.value.rest[1..], f);
      }
    }
  }

  lemma {:induction false} AndRenames<V, W>(l: seq<Lexeme<V>>, f: V -> W)
    ensures ParseAnd(RenameAll(l, f)) == RenameParsed(ParseAnd(l), f)
    decreases |l|, 1
  {
    UnitRenames(l, f);
    var p := ParseUnit(l);
    if p.Some? {
      RenameStarts(p.value.rest, f, '&');
      if Starts(p.value.rest, '&') {
        RenameTail(p.value.rest, f);
        AndRenames(p.value.rest[1..], f);
      }
    }
  }

  lemma {:induction false} UnitRenames<V, W>(l: seq<Lexeme<V>>, f: V -> W)
    ensures ParseUnit(RenameAll(l, f)) == RenameParsed(ParseUnit(l), f)
    decreases |l|, 0
  {
    if l != [] {
      RenameTail(l, f);
      if l[0].Op? && l[0].c == '!' {
        UnitRenames(l[1..], f);
      } else if l[0].Op? && l[0].c == '(' {
        OrRenames(l[1..], f);
        var p := ParseOr(l[1..]);
        if p.Some? {
          RenameStarts(p.value.rest, f, ')');
          if Starts(p.value.rest, ')') { RenameTail(p.value.rest, f); }
        }
      }
    }
  }

  /** Parsing does not look at variable names. */
  lemma ParseRenames<V, W>(l: seq<Lexeme<V>>, f: V -> W)
    ensures Parse(RenameAll(l, f)) == if Parse(l).None? then None else Some(Rename(Parse(l).value, f))
  {
    OrRenames(l, f);
  }

  lemma {:induction false} EvalRenamed<V, W>(e: Expr<V>, f: V -> W, sat: W -> bool, sat': V -> bool)
    requires forall v | v in Vars(e) :: sat'(v) == sat(f(v))
    ensures Eval(Rename(e, f), sat) == Eval(e, sat')
  {
    match e
    case Var(v) =>
    case Not(x) => EvalRenamed(x, f, sat, sat');
    case And(l, r) => EvalRenamed(l, f, sat, sat'); EvalRenamed(r, f, sat, sat');
    case Or(l, r) => EvalRenamed(l, f, sat, sat'); EvalRenamed(r, f, sat, sat');
  }

  /* The disjunctive normal form */

  function Join<V>(a: Term<V>, b: Term<V>): Term<V> {
    Term(a.positives + b.positives, a.negatives + b.negatives)
  }

  function JoinAll<V>(a: Term<V>, bs: seq<Term<V>>): seq<Term<V>> {
    if bs == [] then [] else [Join(a, bs[0])] + JoinAll(a, bs[1..])
  }

  function Product<V>(ts: seq<Term<V>>, bs: seq<Term<V>>): seq<Term<V>> {
    if ts == [] then [] else JoinAll(ts[0], bs) + Product(ts[1..], bs)
  }

  /** The terms of `e`, or of its negation. */
  function Dnf<V>(e: Expr<V>, sign: bool): seq<Term<V>> {
    match e
    case Var(v) => [if sign then Term([v], []) else Term([], [v])]
    case Not(x) => Dnf(x, !sign)
    case And(l, r) => if sign then Product(Dnf(l, sign), Dnf(r, sign)) else Dnf(l, sign) + Dnf(r, sign)
    case Or(l, r) => if sign then Dnf(l, sign) + Dnf(r, sign) else Product(Dnf(l, sign), Dnf(r, sign))
  }

  predicate TermHolds<V>(t: Term<V>, sat: V -> bool) {
    (forall i | 0 <= i < |t.positives| :: sat(t.positives[i])) &&
    (forall i | 0 <= i < |t.negatives| :: !sat(t.negatives[i]))
  }

  predicate AnyHolds<V>(ts: seq<Term<V>>, sat: V -> bool) {
    exists i | 0 <= i < |ts| :: TermHolds(ts[i], sat)
  }

  predicate TermOver<V(==)>(t: Term<V>, vars: set<V>) {
    (forall i | 0 <= i < |t.positives| :: t.positives[i] in vars) &&
    (forall i | 0 <= i < |t.negatives| :: t.negatives[i] in vars)
  }

  predicate TermsOver<V(==)>(ts: seq<Term<V>>, vars: set<V>) {
    forall i | 0 <= i < |ts| :: TermOver(ts[i], vars)
  }

  /** What the program needs of a normal form: the same meaning, over the same variables. */
  ghost predicate IsDnfOf<V(!new)>(ts: seq<Term<V>>, e: Expr<V>) {
    TermsOver(ts, Vars(e)) && forall sat: V -> bool :: AnyHolds(ts, sat) <==> Eval(e, sat)
  }

  lemma AnyHoldsAppend<V>(a: seq<Term<V>>, b: seq<Term<V>>, sat: V -> bool)
    ensures AnyHolds(a + b, sat) <==> AnyHolds(a, sat) || AnyHolds(b, sat)
  {
    if i :| 0 <= i < |a| && TermHolds(a[i], sat) { assert (a + b)[i] == a[i]; }
    if i :| 0 <= i < |b| && TermHolds(b[i], sat) { assert (a + b)[|a| + i] == b[i]; }
  }

  lemma AnyHoldsCons<V>(t: Term<V>, ts: seq<Term<V>>, sat: V -> bool)
    ensures AnyHolds([t] + ts, sat) <==> TermHolds(t, sat) || AnyHolds(ts, sat)
  {
    AnyHoldsAppend([t], ts, sat);
    assert [t][0] == t;
  }

  lemma JoinHolds<V>(a: Term<V>, b: Term<V>, sat: V -> bool)
    ensures TermHolds(Join(a, b), sat) <==> TermHolds(a, sat) && TermHolds(b, sat)
  {
    var j := Join(a, b);
    if TermHolds(j, sat) {
      assert forall i | 0 <= i < |a.positives| :: a.positives[i] == j.positives[i];
      assert forall i | 0 <= i < |b.positives| :: b.positives[i] == j.positives[|a.positives| + i];
      assert forall i | 0 <= i < |a.negatives| :: a.negatives[i] == j.negatives[i];
      assert forall i | 0 <= i < |b.negatives| :: b.negatives[i] == j.negatives[|a.negatives| + i];
    }
  }

  lemma {:induction false} JoinAllHolds<V>(a: Term<V>, bs: seq<Term<V>>, sat: V -> bool)
    ensures AnyHolds(JoinAll(a, bs), sat) <==> TermHolds(a, sat) && AnyHolds(bs, sat)
  {
    if bs != [] {
      JoinAllHolds(a, bs[1..], sat);
      JoinHolds(a, bs[0], sat);
      AnyHoldsCons(Join(a, bs[0]), JoinAll(a, bs[1..]), sat);
      AnyHoldsCons(bs[0], bs[1..], sat);
      assert bs == [bs[0]] + bs[1..];
    }
  }

  lemma {:induction false} ProductHolds<V>(a: seq<Term<V>>, b: seq<Term<V>>, sat: V -> bool)
    ensures AnyHolds(Product(a, b), sat) <==> AnyHolds(a, sat) && AnyHolds(b, sat)
  {
    if a != [] {
      ProductHolds(a[1..], b, sat);
      JoinAllHolds(a[0], b, sat);
      AnyHoldsAppend(JoinAll(a[0], b), Product(a[1..], b), sat);
      AnyHoldsCons(a[0], a[1..], sat);
      assert a == [a[0]] + a[1..];
    }
  }

  /** The normal form means what the expression, or its negation, means. */
  lemma {:induction false} DnfHolds<V>(e: Expr<V>, sign: bool, sat: V -> bool)
    ensures AnyHolds(Dnf(e, sign), sat) <==> Eval(e, sat) == sign
  {
    match e
    case Var(v) =>
      var t := Dnf(e, sign)[0];
      assert TermHolds(t, sat) <==> sat(v) == sign by {
        if sign { assert t.positives[0] == v; } else { assert t.negatives[0] == v; }
      }
    case Not(x) => DnfHolds(x, !sign, sat);
    case _ =>
      DnfHolds(e.l, sign, sat);
      DnfHolds(e.r, sign, sat);
      AnyHoldsAppend(Dnf(e.l, sign), Dnf(e.r, sign), sat);
      ProductHolds(Dnf(e.l, sign), Dnf(e.r, sign), sat);
  }

  lemma {:induction false} JoinAllOver<V>(a: Term<V>, bs: seq<Term<V>>, vars: set<V>)
    requires TermOver(a, vars) && TermsOver(bs, vars)
    ensures TermsOver(JoinAll(a, bs), vars)
  {
    if bs != [] {
      JoinAllOver(a, bs[1..], vars);
      assert TermOver(bs[0], vars);
      assert TermOver(Join(a, bs[0]), vars);
    }
  }

  lemma {:induction false} ProductOver<V>(a: seq<Term<V>>, b: seq<Term<V>>, vars: set<V>)
    requires TermsOver(a, vars) && TermsOver(b, vars)
    ensures TermsOver(Product(a, b), vars)
  {
    if a != [] {
      assert TermOver(a[0], vars);
      JoinAllOver(a[0], b, vars);
      ProductOver(a[1..], b, vars);
    }
  }

  lemma {:induction false} DnfOver<V>(e: Expr<V>, sign: bool, vars: set<V>)
    requires Vars(e) <= vars
    ensures TermsOver(Dnf(e, sign), vars)
  {
    match e
    case Var(v) =>
    case Not(x) => DnfOver(x, !sign, vars);
    case _ =>
      DnfOver(e.l, sign, vars);
      DnfOver(e.r, sign, vars);
      ProductOver(Dnf(e.l, sign), Dnf(e.r, sign), vars);
  }

  lemma DnfIsDnf<V(!new)>(e: Expr<V>)
    ensures IsDnfOf(Dnf(e, true), e)
  {
    DnfOver(e, true, Vars(e));
    forall sat: V -> bool ensures AnyHolds(Dnf(e, true), sat) <==> Eval(e, sat) {
      DnfHolds(e, true, sat);
    }
  }
}
