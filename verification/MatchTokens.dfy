/** The tokens of a match string: delimiters, and the atoms between them. An atom keeps the blanks
    inside it and loses those around it. */
module MatchTokens {
  import opened Options
  import opened CStrings
  import opened Numbers
  import opened BoolStuff

  datatype Token = Delim(c: char) | Atom(text: string)

  predicate IsDelim(c: char) {
    c == '&' || c == '|' || c == '(' || c == ')' || c == '!'
  }

  predicate NoDelim(s: string, lo: int, hi: int)
    requires 0 <= lo && hi <= |s|
  {
    forall k | lo <= k < hi :: !IsDelim(s[k])
  }

  /** Neither blank nor delimiter. */
  predicate IsInk(c: char) {
    !IsSpace(c) && !IsDelim(c)
  }

  /* What the tokens of a string are */

  predicate GoodAtom(t: string) {
    t != "" && IsInk(t[0]) && IsInk(t[|t| - 1]) && NoDelim(t, 0, |t|)
  }

  predicate GoodToken(t: Token) {
    match t
    case Delim(c) => IsDelim(c)
    case Atom(text) => GoodAtom(text)
  }

  /** No two atoms touch. */
  predicate GoodTokens(toks: seq<Token>) {
    (forall i | 0 <= i < |toks| :: GoodToken(toks[i])) &&
    (forall i | 0 < i < |toks| :: toks[i - 1].Delim? || toks[i].Delim?)
  }

  function SpellOne(t: Token): string {
    match t
    case Delim(c) => [c]
    case Atom(text) => text
  }

  function Spell(toks: seq<Token>): string {
    if toks == [] then "" else Spell(toks[..|toks| - 1]) + SpellOne(toks[|toks| - 1])
  }

  /** Ink stands to the left of `i`, with no delimiter in between. */
  predicate InkBefore(s: string, i: nat)
    requires i <= |s|
  {
    exists a | 0 <= a < i :: IsInk(s[a]) && NoDelim(s, a, i)
  }

  predicate InkAfter(s: string, i: nat)
    requires i <= |s|
  {
    exists b | i <= b < |s| :: IsInk(s[b]) && NoDelim(s, i, b)
  }

  /** A blank counts only between two characters of one atom. */
  predicate Kept(s: string, i: nat)
    requires i < |s|
  {
    IsSpace(s[i]) ==> InkBefore(s, i) && InkAfter(s, i)
  }

  function Filter(s: string, lo: nat, hi: nat): string
    requires lo <= hi <= |s|
    decreases hi
  {
    if lo == hi then "" else Filter(s, lo, hi - 1) + if Kept(s, hi - 1) then [s[hi - 1]] else ""
  }

  /** The string without the blanks next to delimiters and at its ends. */
  function Squeeze(s: string): string {
    Filter(s, 0, |s|)
  }

  ghost predicate IsTokens(s: string, toks: seq<Token>) {
    GoodTokens(toks) && Spell(toks) == Squeeze(s)
  }

  /* Filtering */

  lemma {:induction false} FilterSplit(s: string, lo: nat, mid: nat, hi: nat)
    requires lo <= mid <= hi <= |s|
    ensures Filter(s, lo, hi) == Filter(s, lo, mid) + Filter(s, mid, hi)
    decreases hi
  {
    if mid < hi { FilterSplit(s, lo, mid, hi - 1); }
  }

  lemma {:induction false} FilterAll(s: string, lo: nat, hi: nat)
    requires lo <= hi <= |s| && forall k | lo <= k < hi :: Kept(s, k)
    ensures Filter(s, lo, hi) == s[lo..hi]
    decreases hi
  {
    if lo < hi { FilterAll(s, lo, hi - 1); }
  }

  lemma {:induction false} FilterNone(s: string, lo: nat, hi: nat)
    requires lo <= hi <= |s| && forall k | lo <= k < hi :: !Kept(s, k)
    ensures Filter(s, lo, hi) == ""
    decreases hi
  {
    if lo < hi { FilterNone(s, lo, hi - 1); }
  }

  lemma {:induction false} FilterLength(s: string, lo: nat, hi: nat)
    requires lo <= hi <= |s|
    ensures |Filter(s, lo, hi)| <= hi - lo
    decreases hi
  {
    if lo < hi { FilterLength(s, lo, hi - 1); }
  }

  lemma {:induction false} SpellLength(toks: seq<Token>)
    requires GoodTokens(toks)
    ensures |toks| <= |Spell(toks)|
  {
    if toks != [] {
      SpellLength(toks[..|toks| - 1]);
    }
  }

  /** An atom that starts at `a` and whose last ink is before `t` contributes exactly its own text,
      up to a delimiter or the end of the string. */
  lemma FilterAtom(s: string, a: nat, t: nat, i: nat)
    requires a < t <= i <= |s| && (i == |s| || IsDelim(s[i]))
    requires IsInk(s[a]) && IsInk(s[t - 1]) && NoDelim(s, a, i) && forall k | t <= k < i :: IsSpace(s[k])
    ensures Filter(s, a, i) == s[a..t]
  {
    forall k | a <= k < t ensures Kept(s, k) {
      if IsSpace(s[k]) {
        assert InkBefore(s, k);
        assert IsInk(s[t - 1]) && NoDelim(s, k, t - 1);
      }
    }
    forall k | t <= k < i ensures !Kept(s, k) {
      assert forall b | k <= b < |s| && IsInk(s[b]) && NoDelim(s, k, b) :: b < i;
    }
    FilterAll(s, a, t);
    FilterNone(s, t, i);
    FilterSplit(s, a, t, i);
  }

  /* Scanning from left to right */

  /** The state of a scan at `i`. `toks` spells what is complete; an atom that has begun, begins at
      `atom`; otherwise only blanks stand behind the last delimiter. */
  ghost predicate Scanning(s: string, toks: seq<Token>, i: nat, atom: int) {
    && i <= |s| && -1 <= atom < i
    && GoodTokens(toks) && (toks == [] || toks[|toks| - 1].Delim?)
    && (atom == -1 ==> Spell(toks) == Filter(s, 0, i) && !InkBefore(s, i))
    && (atom != -1 ==> Spell(toks) == Filter(s, 0, atom) && IsInk(s[atom]) && NoDelim(s, atom, i))
  }

  lemma ScanStarts(s: string)
    ensures Scanning(s, [], 0, -1)
  {
  }

  lemma ScanBlank(s: string, toks: seq<Token>, i: nat)
    requires Scanning(s, toks, i, -1) && i < |s| && IsSpace(s[i])
    ensures Scanning(s, toks, i + 1, -1)
  {
    assert forall a | 0 <= a < i + 1 && IsInk(s[a]) && NoDelim(s, a, i + 1) :: a < i && NoDelim(s, a, i);
  }

  lemma ScanInk(s: string, toks: seq<Token>, i: nat, atom: int)
    requires Scanning(s, toks, i, atom) && i < |s| && !IsDelim(s[i])
    requires atom != -1 || !IsSpace(s[i])
    ensures Scanning(s, toks, i + 1, if atom == -1 then i else atom)
  {
  }

  lemma SpellSnoc(toks: seq<Token>, t: Token)
    ensures Spell(toks + [t]) == Spell(toks) + SpellOne(t)
  {
    assert (toks + [t])[..|toks|] == toks;
  }

  /** A delimiter, once the atom in front of it, if any, is complete. */
  lemma ScanDelim(s: string, toks: seq<Token>, i: nat)
    requires i < |s| && IsDelim(s[i]) && GoodTokens(toks) && Spell(toks) == Filter(s, 0, i)
    ensures Scanning(s, toks + [Delim(s[i])], i + 1, -1)
  {
    SpellSnoc(toks, Delim(s[i]));
    assert Filter(s, 0, i + 1) == Filter(s, 0, i) + [s[i]];
    var next := i + 1;
    assert forall a | 0 <= a < next :: !NoDelim(s, a, next);
  }

  /** The atom that the text up to a delimiter, or the end, completes. */
  lemma ScanAtom(s: string, toks: seq<Token>, i: nat, atom: nat, t: nat)
    requires Scanning(s, toks, i, atom) && (i == |s| || IsDelim(s[i]))
    requires atom < t <= i && !IsSpace(s[t - 1]) && forall k | t <= k < i :: IsSpace(s[k])
    ensures GoodTokens(toks + [Atom(s[atom..t])])
    ensures Spell(toks + [Atom(s[atom..t])]) == Filter(s, 0, i)
  {
    FilterAtom(s, atom, t, i);
    FilterSplit(s, 0, atom, i);
    SpellSnoc(toks, Atom(s[atom..t]));
    AtomIsGood(s, atom, t);
    SnocIsGood(toks, Atom(s[atom..t]));
  }

  lemma AtomIsGood(s: string, a: nat, t: nat)
    requires a < t <= |s| && IsInk(s[a]) && IsInk(s[t - 1]) && NoDelim(s, a, t)
    ensures GoodAtom(s[a..t])
  {
    var x := s[a..t];
    assert forall k | 0 <= k < |x| :: x[k] == s[a + k];
  }

  lemma SnocIsGood(toks: seq<Token>, t: Token)
    requires GoodTokens(toks) && GoodToken(t) && (t.Delim? || toks == [] || toks[|toks| - 1].Delim?)
    ensures GoodTokens(toks + [t])
  {
  }

  /* Blanks around tokens */

  /** The tokens with blanks in front of, between and behind them. */
  ghost function Spaced(toks: seq<Token>, blanks: seq<string>): string
    requires |blanks| == |toks| + 1
  {
    if toks == [] then blanks[0] else
    var n := |toks| - 1;
    Spaced(toks[..n], blanks[..n + 1]) + SpellOne(toks[n]) + blanks[n + 1]
  }

  lemma {:induction false} ScanBlanks(s: string, toks: seq<Token>, i: nat, j: nat)
    requires Scanning(s, toks, i, -1) && i <= j <= |s| && forall k | i <= k < j :: IsSpace(s[k])
    ensures Scanning(s, toks, j, -1)
    decreases j - i
  {
    if i < j {
      ScanBlank(s, toks, i);
      ScanBlanks(s, toks, i + 1, j);
    }
  }

  /** The scan has read `toks`; its last token may be an atom that is not complete yet and began at `a`. */
  ghost predicate HasRead(s: string, toks: seq<Token>, i: nat, a: nat) {
    if toks == [] || toks[|toks| - 1].Delim? then Scanning(s, toks, i, -1) else
    var text, t := toks[|toks| - 1].text, a + |toks[|toks| - 1].text|;
    Scanning(s, toks[..|toks| - 1], i, a) && t <= i <= |s| && s[a..t] == text && text != "" &&
    !IsSpace(text[|text| - 1]) && forall k | t <= k < i :: IsSpace(s[k])
  }

  lemma ReadIsComplete(s: string, toks: seq<Token>, i: nat, a: nat)
    requires HasRead(s, toks, i, a) && i <= |s| && (i == |s| || IsDelim(s[i]))
    ensures GoodTokens(toks) && Spell(toks) == Filter(s, 0, i)
  {
    if toks != [] && toks[|toks| - 1].Atom? {
      var init, text := toks[..|toks| - 1], toks[|toks| - 1].text;
      var t := a + |text|;
      assert s[t - 1] == s[a..t][|text| - 1];
      ScanAtom(s, init, i, a, t);
      assert toks == init + [Atom(s[a..t])];
    }
  }

  lemma ReadDelim(s: string, toks: seq<Token>, i: nat, a: nat, j: nat)
    requires HasRead(s, toks, i, a) && i < j <= |s| && IsDelim(s[i]) && forall k | i < k < j :: IsSpace(s[k])
    ensures HasRead(s, toks + [Delim(s[i])], j, a)
  {
    ReadIsComplete(s, toks, i, a);
    ScanDelim(s, toks, i);
    ScanBlanks(s, toks + [Delim(s[i])], i + 1, j);
  }

  lemma ReadAtom(s: string, toks: seq<Token>, i: nat, text: string, j: nat)
    requires Scanning(s, toks, i, -1) && GoodAtom(text) && i + |text| <= j <= |s|
    requires s[i..i + |text|] == text && forall k | i + |text| <= k < j :: IsSpace(s[k])
    ensures HasRead(s, toks + [Atom(text)], j, i)
  {
    var t := i + |text|;
    forall k | i <= k < j ensures !IsDelim(s[k]) {
      if k < t { assert s[i..t][k - i] == s[k]; }
    }
    assert IsInk(s[i..t][0]);
    var l := toks + [Atom(text)];
    assert l[..|l| - 1] == toks;
  }

  /** One more token and the blanks behind it. */
  lemma ReadNext(s: string, toks: seq<Token>, t: Token, a: nat, head: string, tail: string) returns (b: nat)
    requires HasRead(s, toks, |head|, a) && GoodTokens(toks + [t]) && head + SpellOne(t) + tail <= s && Blank(tail)
    ensures HasRead(s, toks + [t], |head + SpellOne(t) + tail|, b)
  {
    ThreeParts(s, head, SpellOne(t), tail);
    b := if t.Delim? then a else |head|;
    assert (toks + [t])[|toks|] == t;
    if t.Delim? {
      assert s[|head|] == s[|head|..|head| + 1][0];
      ReadDelim(s, toks, |head|, a, |head + SpellOne(t) + tail|);
    } else {
      assert toks != [] ==> (toks + [t])[|toks| - 1].Delim?;
      ReadAtom(s, toks, |head|, t.text, |head + SpellOne(t) + tail|);
    }
  }

  ghost predicate AllBlank(blanks: seq<string>) {
    forall i | 0 <= i < |blanks| :: Blank(blanks[i])
  }

  lemma {:induction false} ScanSpaced(s: string, toks: seq<Token>, blanks: seq<string>) returns (a: nat)
    requires GoodTokens(toks) && |blanks| == |toks| + 1 && AllBlank(blanks) && Spaced(toks, blanks) <= s
    ensures HasRead(s, toks, |Spaced(toks, blanks)|, a)
  {
    if toks == [] {
      ScanStarts(s);
      ScanBlanks(s, [], 0, |blanks[0]|);
      a := 0;
    } else {
      var n := |toks| - 1;
      var head := Spaced(toks[..n], blanks[..n + 1]);
      GoodInit(toks);
      assert head <= head + SpellOne(toks[n]) + blanks[n + 1];
      a := ScanSpaced(s, toks[..n], blanks[..n + 1]);
      assert toks[..n] + [toks[n]] == toks;
      a := ReadNext(s, toks[..n], toks[n], a, head, blanks[n + 1]);
    }
  }

  lemma ThreeParts(s: string, head: string, ink: string, tail: string)
    requires head + ink + tail <= s && Blank(tail)
    ensures head <= s && s[|head|..|head| + |ink|] == ink
    ensures forall k | |head| + |ink| <= k < |head + ink + tail| :: IsSpace(s[k])
  {
    var l := head + ink + tail;
    assert s[|head|..|head| + |ink|] == l[|head|..|head| + |ink|] == ink;
    forall k | |head| + |ink| <= k < |l| ensures IsSpace(s[k]) {
      assert l[k] == tail[k - |head| - |ink|];
    }
  }

  /** Tokens are read back whatever blanks stand around them, and keep the blanks that they hold. */
  lemma {:induction false} SpacedIsTokens(toks: seq<Token>, blanks: seq<string>)
    requires GoodTokens(toks) && |blanks| == |toks| + 1 && AllBlank(blanks)
    ensures IsTokens(Spaced(toks, blanks), toks)
  {
    var s := Spaced(toks, blanks);
    var a := ScanSpaced(s, toks, blanks);
    ReadIsComplete(s, toks, |s|, a);
  }

  /* The tokens are unique */

  lemma {:induction false} SpellFirst(toks: seq<Token>)
    requires toks != []
    ensures Spell(toks) == SpellOne(toks[0]) + Spell(toks[1..])
  {
    var n := |toks| - 1;
    if n > 0 {
      SpellFirst(toks[..n]);
      assert toks[..n][1..] == toks[1..][..n - 1];
    } else {
      assert toks[..0] == [] == toks[1..];
    }
  }

  lemma GoodRest(toks: seq<Token>)
    requires GoodTokens(toks) && toks != []
    ensures GoodTokens(toks[1..])
  {
    var rest := toks[1..];
    forall i | 0 < i < |rest| ensures rest[i - 1].Delim? || rest[i].Delim? {
      assert toks[i].Delim? || toks[i + 1].Delim?;
    }
  }

  /** Where the first token of a spelling ends: behind a delimiter, or at the next one. */
  lemma {:induction false} FirstTokenEnds(toks: seq<Token>)
    requires GoodTokens(toks) && toks != []
    ensures var s, n := Spell(toks), |SpellOne(toks[0])|;
            0 < n <= |s| && s[..n] == SpellOne(toks[0]) && s[n..] == Spell(toks[1..]) &&
            if IsDelim(s[0]) then n == 1 && toks[0] == Delim(s[0])
            else toks[0].Atom? && NoDelim(s, 0, n) && (n == |s| || IsDelim(s[n]))
  {
    SpellFirst(toks);
    GoodRest(toks);
    if toks[0].Atom? && |toks| > 1 {
      assert toks[1].Delim?;
      SpellFirst(toks[1..]);
    }
    if |toks| == 1 { assert toks[1..] == []; }
  }

  lemma {:induction false} SameFirst(x: seq<Token>, y: seq<Token>)
    requires GoodTokens(x) && GoodTokens(y) && x != [] && y != [] && Spell(x) == Spell(y)
    ensures x[0] == y[0] && Spell(x[1..]) == Spell(y[1..])
  {
    FirstTokenEnds(x);
    FirstTokenEnds(y);
    var s, n, m := Spell(x), |SpellOne(x[0])|, |SpellOne(y[0])|;
    if !IsDelim(s[0]) {
      assert (n < |s| ==> IsDelim(s[n])) && (m < |s| ==> IsDelim(s[m]));
      assert n == m;
    }
  }

  lemma {:induction false} TokensUnique(x: seq<Token>, y: seq<Token>)
    requires GoodTokens(x) && GoodTokens(y) && Spell(x) == Spell(y)
    ensures x == y
  {
    if x == [] || y == [] {
      if x != [] { FirstTokenEnds(x); }
      if y != [] { FirstTokenEnds(y); }
    } else {
      SameFirst(x, y);
      GoodRest(x);
      GoodRest(y);
      TokensUnique(x[1..], y[1..]);
      assert x == [x[0]] + x[1..];
      assert y == [y[0]] + y[1..];
    }
  }

  /* Atoms by index */

  function AtomsOf(toks: seq<Token>): (atoms: seq<string>)
    ensures |atoms| <= |toks|
  {
    if toks == [] then [] else
    var t := toks[|toks| - 1];
    AtomsOf(toks[..|toks| - 1]) + if t.Atom? then [t.text] else []
  }

  /** The token sequence with every atom replaced by its index. */
  function Indexed(toks: seq<Token>): (l: seq<Lexeme<nat>>)
    ensures |l| == |toks|
  {
    if toks == [] then [] else
    var init, t := toks[..|toks| - 1], toks[|toks| - 1];
    Indexed(init) + [if t.Atom? then Leaf(|AtomsOf(init)|) else Op(t.c)]
  }

  /** The string that the library parses: delimiters, and atom indices in decimal. */
  function Skeleton(toks: seq<Token>): string {
    if toks == [] then "" else
    var init, t := toks[..|toks| - 1], toks[|toks| - 1];
    Skeleton(init) + if t.Atom? then Digits(|AtomsOf(init)|) else [t.c]
  }

  lemma Snoc(toks: seq<Token>, t: Token)
    ensures AtomsOf(toks + [t]) == AtomsOf(toks) + (if t.Atom? then [t.text] else [])
    ensures Indexed(toks + [t]) == Indexed(toks) + [if t.Atom? then Leaf(|AtomsOf(toks)|) else Op(t.c)]
    ensures Skeleton(toks + [t]) == Skeleton(toks) + (if t.Atom? then Digits(|AtomsOf(toks)|) else [t.c])
  {
    assert (toks + [t])[..|toks|] == toks;
  }

  lemma GoodInit(toks: seq<Token>)
    requires GoodTokens(toks) && toks != []
    ensures GoodTokens(toks[..|toks| - 1])
  {
  }

  /** The skeleton is never shorter than two characters an atom, but for an atom at the very end. */
  lemma {:induction false} SkeletonLength(toks: seq<Token>)
    requires GoodTokens(toks)
    ensures |Skeleton(toks)| >= |toks| >= 2 * |AtomsOf(toks)| - (if toks != [] && toks[|toks| - 1].Atom? then 1 else 0)
  {
    if toks != [] {
      GoodInit(toks);
      SkeletonLength(toks[..|toks| - 1]);
    }
  }

  /** In the tokeniser's buffer one doubling makes room for the next index, delimiter and terminator. */
  lemma {:induction false} DoublingSuffices(toks: seq<Token>, size: nat)
    requires GoodTokens(toks) && (toks == [] || toks[|toks| - 1].Delim?)
    requires size >= 10 && size > |Skeleton(toks)|
    ensures |Skeleton(toks)| + |Digits(|AtomsOf(toks)|)| + 2 <= 2 * size
  {
    SkeletonLength(toks);
    DigitsShort(|AtomsOf(toks)|);
  }

  /* Reading the skeleton back */

  predicate IsAlnum(c: char) {
    IsDigit(c) || 'a' <= c <= 'z' || 'A' <= c <= 'Z'
  }

  /** The library's lexer: maximal runs of letters and digits are identifiers, anything else is an
      operator. */
  function Lex(s: string): seq<Lexeme<string>> {
    if s == "" then [] else
    var l, c := Lex(s[..|s| - 1]), s[|s| - 1];
    if !IsAlnum(c) then l + [Op(c)]
    else if l != [] && l[|l| - 1].Leaf? then l[..|l| - 1] + [Leaf(l[|l| - 1].v + [c])]
    else l + [Leaf([c])]
  }

  lemma LexSnoc(s: string, c: char)
    ensures Lex(s + [c]) ==
            if !IsAlnum(c) then Lex(s) + [Op(c)]
            else if Lex(s) != [] && Lex(s)[|Lex(s)| - 1].Leaf?
            then Lex(s)[..|Lex(s)| - 1] + [Leaf(Lex(s)[|Lex(s)| - 1].v + [c])]
            else Lex(s) + [Leaf([c])]
  {
    assert (s + [c])[..|s|] == s;
  }

  lemma LexExtends(s: string, l: seq<Lexeme<string>>, run: string, c: char)
    requires Lex(s) == l + [Leaf(run)] && IsAlnum(c)
    ensures Lex(s + [c]) == l + [Leaf(run + [c])]
  {
    LexSnoc(s, c);
    assert (l + [Leaf(run)])[..|l|] == l;
  }

  lemma {:induction false} LexRun(s: string, run: string)
    requires run != "" && forall i | 0 <= i < |run| :: IsAlnum(run[i])
    requires Lex(s) == [] || Lex(s)[|Lex(s)| - 1].Op?
    ensures Lex(s + run) == Lex(s) + [Leaf(run)]
  {
    var n := |run| - 1;
    var init, c := run[..n], run[n];
    assert run == init + [c];
    if n == 0 {
      LexSnoc(s, c);
    } else {
      LexRun(s, init);
      LexExtends(s + init, Lex(s), init, c);
      assert s + run == (s + init) + [c];
    }
  }

  /** The lexer finds the operators, and between them exactly the indices 0, 1, 2 ... in order: no two
      digit runs merge. */
  lemma {:induction false} LexOfSkeleton(toks: seq<Token>)
    requires GoodTokens(toks)
    ensures Lex(Skeleton(toks)) == RenameAll(Indexed(toks), Digits)
  {
    if toks != [] {
      var init, t := toks[..|toks| - 1], toks[|toks| - 1];
      GoodInit(toks);
      LexOfSkeleton(init);
      var l := Indexed(init);
      if t.Atom? {
        assert init == [] || init[|init| - 1].Delim?;
        LastIsOp(init);
        LexRun(Skeleton(init), Digits(|AtomsOf(init)|));
      } else {
        LexSnoc(Skeleton(init), t.c);
      }
      RenameSnoc(l, Indexed(toks)[|l|], Digits);
    }
  }

  lemma LastIsOp(toks: seq<Token>)
    requires toks == [] || toks[|toks| - 1].Delim?
    ensures Indexed(toks) == [] || Indexed(toks)[|toks| - 1].Op?
  {
  }

  lemma RenameSnoc<V, W>(l: seq<Lexeme<V>>, x: Lexeme<V>, f: V -> W)
    ensures RenameAll(l + [x], f) == RenameAll(l, f) + [RenameLexeme(x, f)]
  {
  }

  /** The source's own lexemes: every atom stands for itself. */
  function Source(toks: seq<Token>): seq<Lexeme<string>> {
    seq(|toks|, i requires 0 <= i < |toks| => if toks[i].Atom? then Leaf(toks[i].text) else Op(toks[i].c))
  }

  function AtomNamed(atoms: seq<string>, k: nat): string {
    if k < |atoms| then atoms[k] else ""
  }

  function Names(atoms: seq<string>): nat -> string {
    (k: nat) => AtomNamed(atoms, k)
  }

  /** Substituting the atoms for their indices gives the source back. */
  lemma {:induction false} SourceOfIndexed(toks: seq<Token>, atoms: seq<string>)
    requires AtomsOf(toks) <= atoms
    ensures Source(toks) == RenameAll(Indexed(toks), Names(atoms))
  {
    if toks != [] {
      var init := toks[..|toks| - 1];
      assert AtomsOf(init) <= AtomsOf(toks);
      SourceOfIndexed(init, atoms);
      var l := Indexed(toks);
      forall i | 0 <= i < |toks| ensures Source(toks)[i] == RenameLexeme(l[i], Names(atoms)) {
        if i < |init| {
          assert Source(toks)[i] == Source(init)[i];
        }
      }
    }
  }

  /** Every index that occurs belongs to an atom. */
  lemma {:induction false} IndicesBelow(toks: seq<Token>, i: nat)
    requires i < |toks| && toks[i].Atom?
    ensures Indexed(toks)[i].Leaf? && Indexed(toks)[i].v < |AtomsOf(toks)|
  {
    if i < |toks| - 1 { IndicesBelow(toks[..|toks| - 1], i); }
  }

  /* Meaning */

  /** Whether a variable of the skeleton holds: `atoi` selects the atom. */
  function SatByIndex(atoms: seq<string>, sat: string -> bool): string -> bool {
    (v: string) => var k: int := Atoi(v); k >= 0 && sat(AtomNamed(atoms, k))
  }

  /** The verdict of a tree over indices is the same whether an index is printed and read back, or
      stands for its atom. */
  lemma SameVerdict(e: Expr<nat>, atoms: seq<string>, sat: string -> bool)
    requires (forall k: nat | k in Vars(e) :: k < |atoms|) && |atoms| <= INT_MAX
    ensures Eval(Rename(e, Digits), SatByIndex(atoms, sat)) == Eval(Rename(e, Names(atoms)), sat)
  {
    var byIndex := (k: nat) => sat(AtomNamed(atoms, k));
    forall k: nat | k in Vars(e) ensures byIndex(k) == SatByIndex(atoms, sat)(Digits(k)) {
      AtoiInvertsDec(k);
    }
    EvalRenamed(e, Digits, SatByIndex(atoms, sat), byIndex);
    EvalRenamed(e, Names(atoms), sat, byIndex);
  }

  function Below(n: nat): (r: set<nat>)
    ensures forall k: nat :: k in r <==> k < n
  {
    if n == 0 then {} else Below(n - 1) + {n - 1}
  }

  lemma VarsAreIndices(toks: seq<Token>)
    requires Parse(Indexed(toks)).Some?
    ensures forall k: nat | k in Vars(Parse(Indexed(toks)).value) :: k < |AtomsOf(toks)|
  {
    var l := Indexed(toks);
    var below := Below(|AtomsOf(toks)|);
    forall i | 0 <= i < |l| && l[i].Leaf? ensures l[i].v in below {
      assert toks[i].Atom? by { LeafIsAtom(toks, i); }
      IndicesBelow(toks, i);
    }
    VarsOfParse(l, below);
  }

  lemma {:induction false} LeafIsAtom(toks: seq<Token>, i: nat)
    requires i < |toks|
    ensures Indexed(toks)[i].Leaf? <==> toks[i].Atom?
  {
    if i < |toks| - 1 { LeafIsAtom(toks[..|toks| - 1], i); }
  }

  /** The source parses exactly when the skeleton does, and then the normal form of the skeleton, with
      its variables looked up by index, means what the source means with every atom evaluated at its
      own place. */
  lemma {:induction false} MeaningPreserved(toks: seq<Token>, terms: seq<Term<string>>, sat: string -> bool)
    requires GoodTokens(toks) && |toks| <= INT_MAX
    ensures Parse(Lex(Skeleton(toks))).Some? <==> Parse(Source(toks)).Some?
    ensures Parse(Lex(Skeleton(toks))).Some? && IsDnfOf(terms, Parse(Lex(Skeleton(toks))).value) ==>
              (AnyHolds(terms, SatByIndex(AtomsOf(toks), sat)) <==> Eval(Parse(Source(toks)).value, sat))
  {
    LexOfSkeleton(toks);
    SourceOfIndexed(toks, AtomsOf(toks));
    ParseRenames(Indexed(toks), Digits);
    ParseRenames(Indexed(toks), Names(AtomsOf(toks)));
    if Parse(Indexed(toks)).Some? {
      VarsAreIndices(toks);
      SameVerdict(Parse(Indexed(toks)).value, AtomsOf(toks), sat);
    }
  }
}
