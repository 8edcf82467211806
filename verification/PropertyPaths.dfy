/** Property names of match expressions and command templates: "hal.a.hal.b.hal.c" names property c
    of the device that property b of the device that property a names, names. */
module PropertyPaths {
  import opened Options
  import opened CStrings

  const SEPARATOR := ".hal."
  const PREFIX := "hal."
  const NULL := -1

  datatype Path = Path(parents: seq<string>, name: string)
  {
    function Pieces(): seq<string> { parents + [name] }
  }

  function PathOf(pieces: seq<string>): (path: Path)
    requires |pieces| > 0
    ensures path.Pieces() == pieces
  {
    Path(pieces[..|pieces| - 1], pieces[|pieces| - 1])
  }

  /** Whether `halevt_hal_string` accepts a string: at least one character follows the prefix. */
  predicate IsHal(s: string) {
    |s| >= 5 && s[..4] == PREFIX
  }

  /** A string cut at every separator. A cut consumes the leading dot only, so the search for the
      next one starts inside the separator just found. */
  ghost function Cut(s: string): (pieces: seq<string>)
    ensures |pieces| > 0
    decreases |s|
  {
    FindSpec(SEPARATOR, s);
    var p := Find(SEPARATOR, s);
    if p == -1 then [s] else [s[0..p]] + Cut(s[p + 1..])
  }

  predicate AllHal(pieces: seq<string>) {
    forall i | 0 <= i < |pieces| :: IsHal(pieces[i])
  }

  function Stripped(pieces: seq<string>): (r: seq<string>)
    requires AllHal(pieces)
    ensures |r| == |pieces|
  {
    seq(|pieces|, i requires 0 <= i < |pieces| => pieces[i][4..])
  }

  /** The path a string denotes, if every piece has a prefix and something behind it. */
  ghost function ParsePath(s: string): Option<Path> {
    var pieces := Cut(s);
    if AllHal(pieces) then Some(PathOf(Stripped(pieces))) else None
  }

  /* The printer that the parser inverts */

  function Prefixed(pieces: seq<string>): (r: seq<string>)
    ensures |r| == |pieces|
  {
    seq(|pieces|, i requires 0 <= i < |pieces| => PREFIX + pieces[i])
  }

  function Glue(pieces: seq<string>): string
    requires |pieces| > 0
  {
    if |pieces| == 1 then pieces[0] else pieces[0] + "." + Glue(pieces[1..])
  }

  function Render(path: Path): string {
    Glue(Prefixed(path.Pieces()))
  }

  /** No separator starts inside `piece`, even one that runs into the next piece's prefix. */
  ghost predicate Uncut(piece: string, last: bool) {
    Absent(SEPARATOR, if last then piece else piece + ".hal")
  }

  ghost predicate WellFormedPieces(pieces: seq<string>) {
    |pieces| > 0 && AllHal(pieces) &&
    forall i | 0 <= i < |pieces| :: Uncut(pieces[i], i == |pieces| - 1)
  }

  /** The pieces are non-empty and printing them creates no other separator. */
  ghost predicate WellFormed(path: Path) {
    WellFormedPieces(Prefixed(path.Pieces()))
  }

  /* Round trips */

  lemma {:induction false} GlueOfCut(s: string)
    ensures Glue(Cut(s)) == s
    decreases |s|
  {
    FindSpec(SEPARATOR, s);
    var p := Find(SEPARATOR, s);
    if p != -1 {
      GlueOfCut(s[p + 1..]);
      OccursAt(SEPARATOR, s, p, 0);
      assert Cut(s)[1..] == Cut(s[p + 1..]);
      assert s == s[0..p] + "." + s[p + 1..];
    }
  }

  /** Text up to the first separator holds none, even when the separator's own prefix follows it. */
  lemma HeadIsUncut(s: string)
    requires Find(SEPARATOR, s) != -1
    ensures 0 <= Find(SEPARATOR, s) < |s| && Uncut(s[0..Find(SEPARATOR, s)], false)
  {
    FindSpec(SEPARATOR, s);
    var p := Find(SEPARATOR, s);
    assert s[p..p + 4] == s[p..p + 5][..4] == SEPARATOR[..4] == ".hal";
    assert s[0..p] + ".hal" == s[0..p + 4];
    AbsentBefore(SEPARATOR, s, 4);
  }

  lemma {:induction false} CutIsUncut(s: string)
    ensures forall i | 0 <= i < |Cut(s)| :: Uncut(Cut(s)[i], i == |Cut(s)| - 1)
    decreases |s|
  {
    FindSpec(SEPARATOR, s);
    var p := Find(SEPARATOR, s);
    if p != -1 {
      HeadIsUncut(s);
      CutIsUncut(s[p + 1..]);
      var rest := Cut(s[p + 1..]);
      forall i | 0 <= i < |rest| + 1 ensures Uncut(Cut(s)[i], i == |rest|) {
        if i > 0 { assert Cut(s)[i] == rest[i - 1]; }
      }
    }
  }

  /** The first separator of `q.t` is the one that the dot makes. */
  lemma FirstSeparator(q: string, t: string)
    requires Uncut(q, false) && |t| >= 4 && t[..4] == PREFIX
    ensures Find(SEPARATOR, q + "." + t) == |q|
  {
    var s := q + "." + t;
    HeadOfGlue(q, t);
    forall j | 0 <= j < |q| ensures !Occurs(SEPARATOR, s, j) {
      OccursInSlice(SEPARATOR, s, 0, |q| + 4, j);
    }
    FindIs(SEPARATOR, s, |q|);
  }

  lemma HeadOfGlue(q: string, t: string)
    requires |t| >= 4 && t[..4] == PREFIX
    ensures (q + "." + t)[0..|q| + 4] == q + ".hal"
    ensures Occurs(SEPARATOR, q + "." + t, |q|)
  {
    assert q + "." + t == q + ("." + t);
    assert ("." + t)[..5] == "." + t[..4] == SEPARATOR;
    assert ("." + t)[..4] == ("." + t)[..5][..4] == ".hal";
  }

  lemma GlueStartsWithPrefix(pieces: seq<string>)
    requires |pieces| > 0 && IsHal(pieces[0])
    ensures |Glue(pieces)| >= 4 && Glue(pieces)[..4] == PREFIX
  {
    if |pieces| > 1 {
      assert Glue(pieces) == pieces[0] + ("." + Glue(pieces[1..]));
      assert Glue(pieces)[..4] == pieces[0][..4];
    }
  }

  lemma RestWellFormed(pieces: seq<string>)
    requires WellFormedPieces(pieces) && |pieces| > 1
    ensures WellFormedPieces(pieces[1..])
  {
    var rest := pieces[1..];
    forall i | 0 <= i < |rest| ensures IsHal(rest[i]) && Uncut(rest[i], i == |rest| - 1) {
      assert rest[i] == pieces[i + 1];
    }
  }

  lemma {:induction false} CutOfGlue(pieces: seq<string>)
    requires WellFormedPieces(pieces)
    ensures Cut(Glue(pieces)) == pieces
  {
    var q := pieces[0];
    assert Uncut(q, |pieces| == 1);
    if |pieces| == 1 {
      FindSpec(SEPARATOR, q);
    } else {
      RestWellFormed(pieces);
      CutOfGlue(pieces[1..]);
      CutOfDotted(q, pieces[1..]);
    }
  }

  lemma CutOfDotted(q: string, rest: seq<string>)
    requires Uncut(q, false) && |rest| > 0 && IsHal(rest[0])
    ensures Cut(q + "." + Glue(rest)) == [q] + Cut(Glue(rest))
  {
    var t := Glue(rest);
    var s := q + "." + t;
    GlueStartsWithPrefix(rest);
    FirstSeparator(q, t);
    assert s[|q| + 1..] == t;
    assert s[0..|q|] == q;
  }

  lemma PrefixedStripped(pieces: seq<string>)
    requires AllHal(pieces)
    ensures Prefixed(Stripped(pieces)) == pieces
  {
    var r := Prefixed(Stripped(pieces));
    forall i | 0 <= i < |pieces| ensures r[i] == pieces[i] {
      assert IsHal(pieces[i]);
      assert pieces[i] == pieces[i][..4] + pieces[i][4..];
    }
  }

  lemma StrippedPrefixed(pieces: seq<string>)
    requires AllHal(Prefixed(pieces))
    ensures Stripped(Prefixed(pieces)) == pieces
  {
    var r := Stripped(Prefixed(pieces));
    forall i | 0 <= i < |pieces| ensures r[i] == pieces[i] {
      assert (PREFIX + pieces[i])[4..] == pieces[i];
    }
  }

  /** Printing what was parsed gives the string back, and what was parsed is well formed. */
  lemma RenderInvertsParse(s: string)
    requires ParsePath(s).Some?
    ensures Render(ParsePath(s).value) == s
    ensures WellFormed(ParsePath(s).value)
  {
    PrefixedStripped(Cut(s));
    GlueOfCut(s);
    CutIsUncut(s);
  }

  /** Parsing what was printed gives the path back exactly when the path is well formed. */
  lemma ParseInvertsRender(path: Path)
    ensures ParsePath(Render(path)) == Some(path) <==> WellFormed(path)
  {
    if WellFormed(path) {
      CutOfGlue(Prefixed(path.Pieces()));
      StrippedPrefixed(path.Pieces());
      assert PathOf(path.Pieces()) == path;
    }
    if ParsePath(Render(path)) == Some(path) {
      RenderInvertsParse(Render(path));
    }
  }

  /** A name alone, and a parent in front. */
  lemma RenderShapes(path: Path)
    ensures path.parents == [] ==> Render(path) == "hal." + path.name
    ensures path.parents != [] ==>
              Render(path) == "hal." + path.parents[0] + "." + Render(Path(path.parents[1..], path.name))
  {
    if path.parents != [] {
      var all := Prefixed(path.Pieces());
      assert all[1..] == Prefixed(Path(path.parents[1..], path.name).Pieces());
    }
  }

  lemma RenderTwo(parent: string, name: string)
    ensures Render(Path([parent], name)) == "hal." + parent + ".hal." + name
  {
    var path := Path([parent], name);
    RenderShapes(path);
    assert path.parents[1..] == [];
    RenderShapes(Path([], name));
    Regroup(parent, name);
  }

  lemma Regroup(parent: string, name: string)
    ensures "hal." + parent + "." + ("hal." + name) == "hal." + parent + ".hal." + name
  {
    assert "." + ("hal." + name) == ".hal." + name;
    assert "hal." + parent + "." + ("hal." + name) == "hal." + parent + ("." + ("hal." + name));
    assert "hal." + parent + ".hal." + name == "hal." + parent + (".hal." + name);
  }

  /** A property of the device that another property names. */
  lemma ReadsParentAndName(parent: string, name: string)
    requires WellFormed(Path([parent], name))
    ensures ParsePath("hal." + parent + ".hal." + name) == Some(Path([parent], name))
  {
    RenderTwo(parent, name);
    ParseInvertsRender(Path([parent], name));
  }

  /** A string whose separators overlap, or follow one another at once, is always rejected. */
  lemma OverlapRejected(s: string, i: nat, j: nat)
    requires Occurs(SEPARATOR, s, i) && Occurs(SEPARATOR, s, j) && i < j <= i + 5
    ensures ParsePath(s).None?
  {
    var k := ShortPiece(s, i, j);
  }

  lemma {:induction false} ShortPiece(s: string, i: nat, j: nat) returns (k: nat)
    requires Occurs(SEPARATOR, s, i) && Occurs(SEPARATOR, s, j) && i < j <= i + 5
    ensures k < |Cut(s)| && !IsHal(Cut(s)[k])
    decreases |s|
  {
    FindSpec(SEPARATOR, s);
    var p := Find(SEPARATOR, s);
    var rest := s[p + 1..];
    OccursInSuffix(SEPARATOR, s, p + 1, j - p - 1);
    if p < i {
      OccursInSuffix(SEPARATOR, s, p + 1, i - p - 1);
      k := ShortPiece(rest, i - p - 1, j - p - 1);
      k := k + 1;
    } else {
      FindSpec(SEPARATOR, rest);
      assert Find(SEPARATOR, rest) <= 4;
      assert Cut(s)[1] == Cut(rest)[0];
      k := 1;
    }
  }
}
