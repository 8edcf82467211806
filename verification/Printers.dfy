/** The printers for debugging: each one computes a size, allocates it, and fills it. */
module Printers {
  import opened Options
  import opened CStrings
  import opened CBuffers
  import opened Numbers
  import opened PropertyPaths
  import opened Sequences
  import opened ExecTemplates
  import opened MatchParser

  /* What they print */

  function Joined(pieces: seq<string>, sep: string): string {
    if pieces == [] then "" else Joined(pieces[..|pieces| - 1], sep) + pieces[|pieces| - 1] + sep
  }

  function PathText(p: Path): string {
    Joined(p.parents, "->") + p.name
  }

  function ElementString(e: Element): string {
    match e
    case Literal(text) => text
    case Property(path) => PathText(path)
  }

  function MatchText(m: Match): string {
    PathText(m.path) + if m.value.Some? then "=" + m.value.value else ""
  }

  function TemplateText(l: seq<Element>): string {
    Joined(Each(l, ElementString), "| ")
  }

  function ExpressionText(skeleton: string, ms: seq<Match>): string {
    Digits(|ms|) + ": " + skeleton + ", " + Joined(Each(ms, MatchText), ", ")
  }

  /* Printing */

  predicate PathIsText(p: Path) {
    IsText(p.name) && TextList(p.parents)
  }

  lemma JoinedNext(pieces: seq<string>, sep: string, k: nat)
    requires k < |pieces|
    ensures Joined(pieces[..k + 1], sep) == Joined(pieces[..k], sep) + pieces[k] + sep
  {
    assert pieces[..k + 1][..k] == pieces[..k];
  }

  lemma {:induction false} JoinedGrows(pieces: seq<string>, sep: string, k: nat)
    requires k <= |pieces|
    ensures |Joined(pieces[..k], sep)| <= |Joined(pieces, sep)|
    decreases |pieces| - k
  {
    if k < |pieces| {
      JoinedNext(pieces, sep, k);
      JoinedGrows(pieces, sep, k + 1);
    } else {
      assert pieces[..k] == pieces;
    }
  }

  /** The filling pass: `strcat` of every piece and of what separates it from the next one. */
  method Fill(x: array<char>, pieces: seq<string>, sep: string, ghost s: string)
    requires HoldsText(x[..], s) && TextList(pieces) && IsText(sep) && |s| + |Joined(pieces, sep)| + 1 <= x.Length
    modifies x
    ensures HoldsText(x[..], s + Joined(pieces, sep))
  {
    assert s + Joined(pieces[..0], sep) == s;
    for k := 0 to |pieces|
      invariant HoldsText(x[..], s + Joined(pieces[..k], sep))
    {
      ghost var t := s + Joined(pieces[..k], sep);
      JoinedNext(pieces, sep, k);
      JoinedGrows(pieces, sep, k + 1);
      StrCat(x, pieces[k], t);
      StrCat(x, sep, t + pieces[k]);
      assert t + pieces[k] + sep == s + Joined(pieces[..k + 1], sep);
    }
    assert pieces[..|pieces|] == pieces;
  }

  /** `halevt_print_property_name`: the text and its terminator fill the allocation. */
  method PrintPropertyName(p: Path) returns (x: array<char>)
    requires PathIsText(p)
    ensures fresh(x) && HoldsText(x[..], PathText(p)) && x.Length == |PathText(p)| + 1
  {
    var size := |p.name| + 1;
    for k := 0 to |p.parents|
      invariant size == |p.name| + 1 + |Joined(p.parents[..k], "->")|
    {
      JoinedNext(p.parents, "->", k);
      size := size + |p.parents[k]| + 2;
    }
    assert p.parents[..|p.parents|] == p.parents;
    x := new char[size];
    x[0] := NUL;
    Fill(x, p.parents, "->", "");
    assert "" + Joined(p.parents, "->") == Joined(p.parents, "->");
    StrCat(x, p.name, Joined(p.parents, "->"));
  }

  /** The path of a property as text of its own. */
  method PathString(p: Path) returns (s: string)
    requires PathIsText(p)
    ensures s == PathText(p) && IsText(s)
  {
    var x := PrintPropertyName(p);
    var n := StrLen(x, PathText(p));
    s := x[..n];
  }

  predicate ElementIsText(e: Element) {
    match e
    case Literal(text) => IsText(text)
    case Property(path) => PathIsText(path)
  }

  /** `halevt_print_exec`. */
  method PrintExec(l: seq<Element>) returns (x: array<char>)
    requires forall i | 0 <= i < |l| :: ElementIsText(l[i])
    ensures HoldsText(x[..], TemplateText(l)) && x.Length == |TemplateText(l)| + 1
  {
    ghost var all := Each(l, ElementString);
    var size, pieces := 0, [];
    for i := 0 to |l|
      invariant pieces == all[..i] && TextList(pieces) && size == |Joined(all[..i], "| ")|
    {
      JoinedNext(all, "| ", i);
      var piece;
      match l[i] {
        case Literal(text) => piece := text;
        case Property(path) => piece := PathString(path);
      }
      pieces := pieces + [piece];
      size := size + |piece| + 2;
    }
    assert all[..|l|] == all;
    x := new char[size + 1];
    x[0] := NUL;
    Fill(x, pieces, "| ", "");
    assert "" + Joined(all, "| ") == TemplateText(l);
  }

  predicate MatchIsText(m: Match) {
    PathIsText(m.path) && (m.value.Some? ==> IsText(m.value.value))
  }

  /** What is printed of a match, and its share of the size. */
  method MatchString(m: Match) returns (piece: string, size: nat)
    requires MatchIsText(m)
    ensures piece == MatchText(m) && IsText(piece) && size == |piece|
  {
    piece := PathString(m.path);
    size := |piece|;
    if m.value.Some? {
      piece := piece + "=" + m.value.value;
      size := size + |m.value.value| + 1;
    }
  }

  /** `halevt_print_boolean_expression`. */
  method PrintBooleanExpression(skeleton: string, ms: seq<Match>) returns (x: array<char>)
    requires IsText(skeleton) && forall i | 0 <= i < |ms| :: MatchIsText(ms[i])
    ensures HoldsText(x[..], ExpressionText(skeleton, ms)) && x.Length == |ExpressionText(skeleton, ms)| + 1
  {
    ghost var all := Each(ms, MatchText);
    var size, pieces := 0, [];
    for i := 0 to |ms|
      invariant pieces == all[..i] && TextList(pieces) && size == |Joined(all[..i], ", ")|
    {
      JoinedNext(all, ", ", i);
      var piece, n := MatchString(ms[i]);
      pieces := pieces + [piece];
      size := size + n + 2;
    }
    assert all[..|ms|] == all;
    x := Assemble(Digits(|ms|) + ": ", skeleton, pieces, size);
  }

  method Assemble(tmp: string, skeleton: string, pieces: seq<string>, size: nat) returns (x: array<char>)
    requires IsText(tmp) && IsText(skeleton) && TextList(pieces) && size == |Joined(pieces, ", ")|
    ensures HoldsText(x[..], tmp + skeleton + ", " + Joined(pieces, ", "))
    ensures x.Length == |tmp| + |skeleton| + 2 + size + 1
  {
    x := new char[size + |tmp| + |skeleton| + 2 + 1];
    x[0] := NUL;
    StrCat(x, tmp, "");
    assert "" + tmp == tmp;
    StrCat(x, skeleton, tmp);
    StrCat(x, ", ", tmp + skeleton);
    Fill(x, pieces, ", ", tmp + skeleton + ", ");
  }
}
