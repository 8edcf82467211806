/** The first half of `halevt_new_boolean_expression`: a scan that cuts the atoms of a match string in
    place, and writes the skeleton with their indices into a growing buffer. */
module MatchTokeniser {
  import opened CStrings
  import opened CBuffers
  import opened Numbers
  import opened PropertyPaths
  import opened PathParser
  import opened MatchTokens

  method GrowPointers(x: array<int>, size: nat) returns (y: array<int>)
    requires x.Length <= size
    ensures fresh(y) && y.Length == size && y[..x.Length] == x[..]
  {
    y := new int[size](i requires 0 <= i < size reads x => if i < x.Length then x[i] else NULL);
  }

  /* The state of the scan */

  /** The pointers read the atoms; the last atom's cells end at `hi` or before, each other one's
      before the next atom starts. */
  ghost predicate AtomsAt(b: seq<char>, ptrs: seq<int>, texts: seq<string>, hi: int)
    decreases |texts|
  {
    var n := |texts| - 1;
    |texts| <= |ptrs| &&
    (texts == [] || (0 <= ptrs[n] && PieceAt(b, ptrs[n], texts[n], ptrs[n], hi) && AtomsAt(b, ptrs, texts[..n], ptrs[n] - 1)))
  }

  function From(i: int, atom: int): int {
    if atom == NULL then i else atom
  }

  /** At `i` of a buffer that was `b0` on entry, with the complete tokens `toks`. */
  ghost predicate Tokenising(b0: seq<char>, b: seq<char>, ptrs: seq<int>, toks: seq<Token>, i: nat, atom: int) {
    var state :=
      && Terminated(b0, 0) && |b| == |b0|
      && Scanning(Text(b0, 0), toks, i, atom)
      && AtomsAt(b, ptrs, AtomsOf(toks), From(i, atom) - 1)
      && forall k | From(i, atom) <= k < |b| :: b[k] == b0[k];
    state
  }

  /** The same once the atom in front of the delimiter, or the end, at `i` is complete. */
  ghost predicate Flushed(b0: seq<char>, b: seq<char>, ptrs: seq<int>, toks: seq<Token>, i: nat) {
    var state :=
      && Terminated(b0, 0) && i <= End(b0, 0)
      && TokensDone(Text(b0, 0), toks, i)
      && CellsDone(b0, b, ptrs, AtomsOf(toks), i);
    state
  }

  ghost predicate TokensDone(s: string, toks: seq<Token>, i: nat) {
    i <= |s| && GoodTokens(toks) && Spell(toks) == Filter(s, 0, i)
  }

  ghost predicate CellsDone(b0: seq<char>, b: seq<char>, ptrs: seq<int>, texts: seq<string>, i: nat) {
    |b| == |b0| && AtomsAt(b, ptrs, texts, i) && forall k | i < k < |b| :: b[k] == b0[k]
  }

  lemma {:induction false} AtomsAtSame(b: seq<char>, c: seq<char>, ptrs: seq<int>, qtrs: seq<int>, texts: seq<string>,
                                       hi: int, hi': int)
    requires AtomsAt(b, ptrs, texts, hi) && hi <= hi' && hi < |b| == |c|
    requires |texts| <= |qtrs| && forall j | 0 <= j < |texts| :: qtrs[j] == ptrs[j]
    requires forall k | 0 <= k <= hi :: b[k] == c[k]
    ensures AtomsAt(c, qtrs, texts, hi')
    decreases |texts|
  {
    if texts != [] {
      var n := |texts| - 1;
      PieceAtSame(b, c, ptrs[n], texts[n], ptrs[n], hi);
      AtomsAtSame(b, c, ptrs, qtrs, texts[..n], ptrs[n] - 1, ptrs[n] - 1);
    }
  }

  lemma TokenisingStarts(b: seq<char>, ptrs: seq<int>)
    requires Terminated(b, 0)
    ensures Tokenising(b, b, ptrs, [], 0, NULL)
  {
    ScanStarts(Text(b, 0));
  }

  /** Without an atom begun, nothing is to be completed. */
  lemma NothingToFlush(b0: seq<char>, b: seq<char>, ptrs: seq<int>, toks: seq<Token>, i: nat)
    requires Tokenising(b0, b, ptrs, toks, i, NULL) && i < |b|
    ensures Flushed(b0, b, ptrs, toks, i)
  {
    AtomsAtSame(b, b, ptrs, ptrs, AtomsOf(toks), i - 1, i);
  }

  /** Cutting behind the last ink of the atom completes it. */
  lemma FlushAtom(b0: seq<char>, b: seq<char>, ptrs: seq<int>, qtrs: seq<int>, toks: seq<Token>, i: nat, atom: nat, t: nat)
    requires Tokenising(b0, b, ptrs, toks, i, atom)
    requires i == |Text(b0, 0)| || IsDelim(Text(b0, 0)[i])
    requires atom < t <= i && !IsSpace(Text(b0, 0)[t - 1]) && forall k | t <= k < i :: IsSpace(Text(b0, 0)[k])
    requires |AtomsOf(toks)| < |qtrs| && qtrs[|AtomsOf(toks)|] == atom
    requires forall j | 0 <= j < |AtomsOf(toks)| :: qtrs[j] == ptrs[j]
    ensures Flushed(b0, b[t := NUL], qtrs, toks + [Atom(Text(b0, 0)[atom..t])], i)
  {
    FlushTokens(b0, b, ptrs, toks, i, atom, t);
    FlushCells(b0, b, ptrs, qtrs, toks, i, atom, t);
  }

  lemma FlushTokens(b0: seq<char>, b: seq<char>, ptrs: seq<int>, toks: seq<Token>, i: nat, atom: nat, t: nat)
    requires Tokenising(b0, b, ptrs, toks, i, atom)
    requires i == |Text(b0, 0)| || IsDelim(Text(b0, 0)[i])
    requires atom < t <= i && !IsSpace(Text(b0, 0)[t - 1]) && forall k | t <= k < i :: IsSpace(Text(b0, 0)[k])
    ensures var s := Text(b0, 0); var more := toks + [Atom(s[atom..t])];
            TokensDone(s, more, i) && AtomsOf(more) == AtomsOf(toks) + [s[atom..t]]
  {
    ScanAtom(Text(b0, 0), toks, i, atom, t);
    Snoc(toks, Atom(Text(b0, 0)[atom..t]));
  }

  lemma FlushCells(b0: seq<char>, b: seq<char>, ptrs: seq<int>, qtrs: seq<int>, toks: seq<Token>, i: nat, atom: nat, t: nat)
    requires Tokenising(b0, b, ptrs, toks, i, atom) && atom < t <= i
    requires |AtomsOf(toks)| < |qtrs| && qtrs[|AtomsOf(toks)|] == atom
    requires forall j | 0 <= j < |AtomsOf(toks)| :: qtrs[j] == ptrs[j]
    ensures t < |b| && CellsDone(b0, b[t := NUL], qtrs, AtomsOf(toks) + [Text(b0, 0)[atom..t]], i)
  {
    SameCells(b0, b, atom, t);
    AtomsAtSnoc(b, ptrs, qtrs, AtomsOf(toks), Text(b0, 0)[atom..t], atom, t, i);
  }

  lemma SameCells(b0: seq<char>, b: seq<char>, atom: nat, t: nat)
    requires Terminated(b0, 0) && atom <= t <= End(b0, 0) && |b| == |b0|
    requires forall k | atom <= k < |b| :: b[k] == b0[k]
    ensures b[atom..t] == Text(b0, 0)[atom..t] && NoNul(b, atom, t)
  {
    TextSlice(b0, 0, atom, t);
    assert b[atom..t] == b0[atom..t];
    assert forall k | atom <= k < t :: b[k] == b0[k];
  }

  ghost predicate NoNul(b: seq<char>, lo: nat, hi: nat)
    requires hi <= |b|
  {
    forall k | lo <= k < hi :: b[k] != NUL
  }

  lemma AtomsAtSnoc(b: seq<char>, ptrs: seq<int>, qtrs: seq<int>, texts: seq<string>, text: string, atom: nat, t: nat, i: nat)
    requires AtomsAt(b, ptrs, texts, atom - 1) && atom < t <= i < |b|
    requires b[atom..t] == text && NoNul(b, atom, t)
    requires |texts| < |qtrs| && qtrs[|texts|] == atom && forall j | 0 <= j < |texts| :: qtrs[j] == ptrs[j]
    ensures AtomsAt(b[t := NUL], qtrs, texts + [text], i)
  {
    var c := b[t := NUL];
    EndIs(c, atom, t);
    assert c[atom..t] == text;
    AtomsAtSame(b, c, ptrs, qtrs, texts, atom - 1, atom - 1);
    assert (texts + [text])[..|texts|] == texts;
  }

  /** A delimiter behind completed tokens. */
  lemma DelimDone(b0: seq<char>, b: seq<char>, ptrs: seq<int>, toks: seq<Token>, i: nat)
    requires Flushed(b0, b, ptrs, toks, i)
    requires i < End(b0, 0) && IsDelim(b0[i])
    ensures Tokenising(b0, b, ptrs, toks + [Delim(b0[i])], i + 1, NULL)
  {
    assert Text(b0, 0)[i] == b0[i];
    ScanDelim(Text(b0, 0), toks, i);
    Snoc(toks, Delim(b0[i]));
    assert AtomsOf(toks) + [] == AtomsOf(toks);
  }

  /** Any other character begins an atom, belongs to one, or is a blank outside. */
  lemma InkOrBlank(b0: seq<char>, b: seq<char>, ptrs: seq<int>, toks: seq<Token>, i: nat, atom: int)
    requires Tokenising(b0, b, ptrs, toks, i, atom)
    requires i < End(b0, 0) && !IsDelim(b0[i])
    ensures Tokenising(b0, b, ptrs, toks, i + 1, if atom == NULL && !IsSpace(b0[i]) then i else atom)
  {
    var s := Text(b0, 0);
    assert s[i] == b0[i];
    if atom == NULL && IsSpace(s[i]) {
      ScanBlank(s, toks, i);
      if i < |b| { AtomsAtSame(b, b, ptrs, ptrs, AtomsOf(toks), i - 1, i); }
    } else {
      ScanInk(s, toks, i, atom);
    }
  }

  /** `isspace` backwards from the delimiter: where the atom's text ends. */
  method TrimEnd(buf: array<char>, i: nat, ghost atom: nat) returns (t: nat)
    requires atom < i < buf.Length && IsInk(buf[atom])
    ensures atom < t <= i && !IsSpace(buf[t - 1]) && forall k | t <= k < i :: IsSpace(buf[k])
  {
    t := i;
    while IsSpace(buf[t - 1])
      invariant atom < t <= i && forall k | t <= k < i :: IsSpace(buf[k])
      decreases t
    {
      t := t - 1;
    }
  }

  /** The atom's pointer, in an array that doubles when it is nearly full. */
  method RecordAtom(atoms: array<int>, n: nat, atom: int, ghost ptrs: seq<int>) returns (grown: array<int>)
    requires atoms[..] == ptrs && n + 1 < atoms.Length
    modifies atoms
    ensures (grown == atoms || fresh(grown)) && n + 2 < grown.Length
    ensures grown[n] == atom && forall j | 0 <= j < n :: grown[..][j] == ptrs[j]
  {
    grown := atoms;
    if n + 1 >= atoms.Length - 1 {
      grown := GrowPointers(atoms, 2 * atoms.Length);
      assert forall j | 0 <= j < n :: grown[j] == grown[..atoms.Length][j];
    }
    grown[n] := atom;
  }

  /** The end of an atom: the cut, and the atom's pointer in an array that grows by doubling. */
  method EndAtom(buf: array<char>, atoms: array<int>, n: nat, i: nat, atom: nat,
                 ghost b0: seq<char>, ghost b: seq<char>, ghost ptrs: seq<int>, ghost toks: seq<Token>)
    returns (grown: array<int>, ghost toks': seq<Token>)
    requires buf[..] == b && atoms[..] == ptrs && n == |AtomsOf(toks)| && n + 1 < atoms.Length
    requires Tokenising(b0, b, ptrs, toks, i, atom) && i < |b|
    requires i == End(b0, 0) || IsDelim(b0[i])
    modifies buf, atoms
    ensures grown == atoms || fresh(grown)
    ensures n + 2 < grown.Length
    ensures Flushed(b0, buf[..], grown[..], toks', i)
    ensures |AtomsOf(toks')| == n + 1 && Skeleton(toks') == Skeleton(toks) + Digits(n)
  {
    ghost var s := Text(b0, 0);
    assert forall k | atom <= k < i :: b[k] == b0[k] == s[k];
    var t := TrimEnd(buf, i, atom);
    toks' := toks + [Atom(s[atom..t])];
    Snoc(toks, Atom(s[atom..t]));
    assert i < |s| ==> s[i] == b0[i];
    buf[t] := NUL;
    assert buf[..] == b[t := NUL];
    grown := RecordAtom(atoms, n, atom, ptrs);
    assert buf[..] == b[t := NUL];
    FlushAtom(b0, b, ptrs, grown[..], toks, i, atom, t);
  }

  /** Every token takes a character, so the atoms can be counted in an int when the string's length can. */
  lemma AtomsFewerThanText(b0: seq<char>, b: seq<char>, ptrs: seq<int>, toks: seq<Token>, i: nat, atom: int)
    requires Tokenising(b0, b, ptrs, toks, i, atom)
    ensures |AtomsOf(toks)| <= |toks| <= |Text(b0, 0)|
  {
    var s := Text(b0, 0);
    SpellLength(toks);
    FilterLength(s, 0, From(i, atom));
  }

  /* The skeleton buffer */

  /** The buffer holds the skeleton of the complete tokens. It starts with room for ten characters. */
  ghost predicate Writing(x: seq<char>, toks: seq<Token>) {
    HoldsText(x, Skeleton(toks)) && |x| >= 10
  }

  lemma DigitsAreText(n: nat)
    ensures IsText(Digits(n))
  {
  }

  /** Room for the next index, delimiter and terminator: at most one doubling. */
  method MakeRoom(expr: array<char>, index: string, ghost toks: seq<Token>) returns (grown: array<char>)
    requires Writing(expr[..], toks)
    requires GoodTokens(toks) && (toks == [] || toks[|toks| - 1].Delim?)
    requires |index| <= |Digits(|AtomsOf(toks)|)|
    ensures grown == expr || fresh(grown)
    ensures Writing(grown[..], toks) && |Skeleton(toks)| + |index| + 2 <= grown.Length
  {
    DoublingSuffices(toks, expr.Length);
    var length := StrLen(expr, Skeleton(toks));
    grown := expr;
    if length + |index| + 2 > expr.Length {
      grown := GrowText(expr, 2 * expr.Length, Skeleton(toks));
    }
  }

  /** The index that is printed never needs more than ten of the 256 characters kept for it. */
  lemma IndexFits(n: nat)
    requires n <= INT_MAX
    ensures |Digits(n)| <= 10 < 256
  {
    assert Pow10(10) == 10_000_000_000;
    DigitsBound(n, 10, Pow10(10));
  }

  /** The part of the scan at a delimiter or at the end, up to the delimiter itself: the atom in front
      of it is cut, recorded, and its index appended. */
  method CompleteAtom(buf: array<char>, atoms: array<int>, expr: array<char>, n: nat, i: nat, atom: int,
                      ghost b0: seq<char>, ghost b: seq<char>, ghost ptrs: seq<int>, ghost toks: seq<Token>)
    returns (atoms': array<int>, expr': array<char>, n': nat, ghost toks': seq<Token>)
    requires buf[..] == b && atoms[..] == ptrs && n == |AtomsOf(toks)| <= INT_MAX && n + 1 < atoms.Length
    requires Tokenising(b0, b, ptrs, toks, i, atom) && i < |b|
    requires i == End(b0, 0) || IsDelim(b0[i])
    requires Writing(expr[..], toks) && expr != buf
    modifies buf, atoms, expr
    ensures (atoms' == atoms || fresh(atoms')) && (expr' == expr || fresh(expr'))
    ensures n' == |AtomsOf(toks')| && n' + 1 < atoms'.Length
    ensures Flushed(b0, buf[..], atoms'[..], toks', i)
    ensures Writing(expr'[..], toks') && |Skeleton(toks')| + 2 <= expr'.Length && expr' != buf
  {
    IndexFits(n);
    var index := if atom == NULL then "" else Digits(n);
    DigitsAreText(n);
    expr' := MakeRoom(expr, index, toks);
    atoms', n', toks' := atoms, n, toks;
    if atom == NULL {
      NothingToFlush(b0, b, ptrs, toks, i);
      assert buf[..] == b && atoms[..] == ptrs;
    } else {
      assert buf[..] == b && atoms[..] == ptrs;
      ghost var x := expr'[..];
      atoms', toks' := EndAtom(buf, atoms, n, i, atom, b0, b, ptrs, toks);
      n' := n + 1;
      assert expr'[..] == x;
      ghost var c, qtrs := buf[..], atoms'[..];
      StrCat(expr', index, Skeleton(toks));
      assert buf[..] == c && atoms'[..] == qtrs;
    }
  }

  /** A delimiter: the atom in front of it, then the delimiter itself. */
  method AtDelimiter(buf: array<char>, atoms: array<int>, expr: array<char>, n: nat, i: nat, atom: int, next: char,
                     ghost b0: seq<char>, ghost b: seq<char>, ghost ptrs: seq<int>, ghost toks: seq<Token>)
    returns (atoms': array<int>, expr': array<char>, n': nat, ghost toks': seq<Token>)
    requires buf[..] == b && atoms[..] == ptrs && n == |AtomsOf(toks)| <= INT_MAX && n + 1 < atoms.Length
    requires Tokenising(b0, b, ptrs, toks, i, atom) && i < End(b0, 0) && next == b0[i] && IsDelim(next)
    requires Writing(expr[..], toks) && expr != buf
    modifies buf, atoms, expr
    ensures (atoms' == atoms || fresh(atoms')) && (expr' == expr || fresh(expr')) && expr' != buf
    ensures n' == |AtomsOf(toks')| && n' + 1 < atoms'.Length
    ensures Tokenising(b0, buf[..], atoms'[..], toks', i + 1, NULL)
    ensures Writing(expr'[..], toks')
  {
    atoms', expr', n', toks' := CompleteAtom(buf, atoms, expr, n, i, atom, b0, b, ptrs, toks);
    ghost var c, qtrs := buf[..], atoms'[..];
    StrCat(expr', [next], Skeleton(toks'));
    assert buf[..] == c && atoms'[..] == qtrs;
    DelimDone(b0, c, qtrs, toks', i);
    Snoc(toks', Delim(next));
    toks' := toks' + [Delim(next)];
    assert |AtomsOf(toks')| == n';
  }

  /** One character of the scan. */
  method ScanOne(buf: array<char>, atoms: array<int>, expr: array<char>, n: nat, i: nat, atom: int,
                 ghost b0: seq<char>, ghost b: seq<char>, ghost ptrs: seq<int>, ghost toks: seq<Token>)
    returns (atoms': array<int>, expr': array<char>, n': nat, atom': int, ghost toks': seq<Token>)
    requires buf[..] == b && atoms[..] == ptrs && n == |AtomsOf(toks)| && n + 1 < atoms.Length
    requires Tokenising(b0, b, ptrs, toks, i, atom) && i < End(b0, 0) <= INT_MAX
    requires Writing(expr[..], toks) && expr != buf
    modifies buf, atoms, expr
    ensures (atoms' == atoms || fresh(atoms')) && (expr' == expr || fresh(expr')) && expr' != buf
    ensures n' == |AtomsOf(toks')| && n' + 1 < atoms'.Length
    ensures Tokenising(b0, buf[..], atoms'[..], toks', i + 1, atom')
    ensures Writing(expr'[..], toks')
  {
    var next := buf[i];
    assert next == b[i] == b0[i];
    if IsDelim(next) {
      AtomsFewerThanText(b0, b, ptrs, toks, i, atom);
      atoms', expr', n', toks' := AtDelimiter(buf, atoms, expr, n, i, atom, next, b0, b, ptrs, toks);
      atom' := NULL;
    } else {
      InkOrBlank(b0, b, ptrs, toks, i, atom);
      atoms', expr', n', toks' := atoms, expr, n, toks;
      atom' := if atom == NULL && !IsSpace(next) then i else atom;
    }
  }

  /** The scan up to the terminator. */
  method ScanText(buf: array<char>, ghost b0: seq<char>)
    returns (expr: array<char>, atoms: array<int>, n: nat, index: nat, atom: int, ghost toks: seq<Token>)
    requires buf[..] == b0 && Terminated(b0, 0) && End(b0, 0) <= INT_MAX
    modifies buf
    ensures fresh(atoms) && fresh(expr)
    ensures n == |AtomsOf(toks)| && n + 1 < atoms.Length && index == End(b0, 0)
    ensures Tokenising(b0, buf[..], atoms[..], toks, index, atom) && Writing(expr[..], toks)
  {
    expr, atoms := NewBuffers();
    n, toks := 0, [];
    index, atom := 0, NULL;
    ghost var b, ptrs := b0, atoms[..];
    TokenisingStarts(b0, ptrs);
    StillToScan(b0, b, ptrs, toks, index, atom);
    while buf[index] != NUL
      invariant fresh(atoms) && fresh(expr) && expr != buf
      invariant buf[..] == b && atoms[..] == ptrs && n == |AtomsOf(toks)| && n + 1 < atoms.Length
      invariant Tokenising(b0, b, ptrs, toks, index, atom)
      invariant index <= End(b0, 0) < |b| && (b[index] == NUL <==> index == End(b0, 0))
      invariant Writing(expr[..], toks)
      decreases End(b0, 0) - index
    {
      atoms, expr, n, atom, toks := ScanOne(buf, atoms, expr, n, index, atom, b0, b, ptrs, toks);
      b, ptrs := buf[..], atoms[..];
      index := index + 1;
      StillToScan(b0, b, ptrs, toks, index, atom);
    }
  }

  /** The buffers that the scan starts with. */
  method NewBuffers() returns (expr: array<char>, atoms: array<int>)
    ensures fresh(expr) && fresh(atoms) && Writing(expr[..], []) && atoms.Length == 4
  {
    expr := new char[10];
    expr[0] := NUL;
    atoms := new int[4];
  }

  /** What the scan has not reached is as it was. */
  lemma StillToScan(b0: seq<char>, b: seq<char>, ptrs: seq<int>, toks: seq<Token>, i: nat, atom: int)
    requires Tokenising(b0, b, ptrs, toks, i, atom)
    ensures i <= End(b0, 0) < |b| && (b[i] == NUL <==> i == End(b0, 0))
  {
    assert b[i] == b0[i];
  }

  /** The whole scan. Its tokens are the tokens of the string, and it leaves their skeleton, and
      pointers to their atoms, in buffers that were always large enough. */
  method Tokenise(buf: array<char>) returns (expr: array<char>, atoms: array<int>, n: nat, ghost toks: seq<Token>)
    requires Terminated(buf[..], 0) && |Text(buf[..], 0)| < INT_MAX
    modifies buf
    ensures fresh(expr) && fresh(atoms)
    ensures IsTokens(old(Text(buf[..], 0)), toks)
    ensures HoldsText(expr[..], Skeleton(toks))
    ensures n == |AtomsOf(toks)| && AtomsAt(buf[..], atoms[..], AtomsOf(toks), old(End(buf[..], 0)))
  {
    ghost var b0 := buf[..];
    var index, atom;
    expr, atoms, n, index, atom, toks := ScanText(buf, b0);
    AtomsFewerThanText(b0, buf[..], atoms[..], toks, index, atom);
    atoms, expr, n, toks := CompleteAtom(buf, atoms, expr, n, index, atom, b0, buf[..], atoms[..], toks);
  }
}
