/** The second half of `halevt_new_boolean_expression`: every atom is split in place into a property
    path and an optional value, and the skeleton is parsed and put into normal form. */
module MatchParser {
  import opened Options
  import opened CStrings
  import opened CBuffers
  import opened Numbers
  import opened PropertyPaths
  import opened PathParser
  import opened BoolStuff
  import opened MatchTokens
  import opened MatchTokeniser

  /** What an atom asks for: a property that exists, or one that has a value. */
  datatype Match = Match(path: Path, value: Option<string>)

  function TrimRight(s: string): string {
    if s != "" && IsSpace(s[|s| - 1]) then TrimRight(s[..|s| - 1]) else s
  }

  /** What is trimmed is blank, and what is left does not end in a blank; nothing else is like that. */
  lemma {:induction false} TrimRightIs(text: string, blanks: string)
    requires Blank(blanks) && (text != "" ==> !IsSpace(text[|text| - 1]))
    ensures TrimRight(text + blanks) == text
  {
    if blanks == "" {
      assert text + blanks == text;
    } else {
      var n := |blanks| - 1;
      assert (text + blanks)[..|text| + n] == text + blanks[..n];
      TrimRightIs(text, blanks[..n]);
    }
  }

  lemma {:induction false} TrimRightSplits(s: string) returns (blanks: string)
    ensures Blank(blanks) && s == TrimRight(s) + blanks
    ensures TrimRight(s) != "" ==> !IsSpace(TrimRight(s)[|TrimRight(s)| - 1])
  {
    blanks := "";
    if s != "" && IsSpace(s[|s| - 1]) {
      var more := TrimRightSplits(s[..|s| - 1]);
      blanks := more + [s[|s| - 1]];
    }
  }

  ghost predicate EqualSignAt(t: string, eq: nat) {
    eq < |t| && t[eq] == '=' && forall k | 0 <= k < eq :: t[k] != '='
  }

  /** `name` or `name = value`: the first '=' separates, the blanks around it do not count. */
  ghost predicate IsMatch(t: string, m: Match) {
    if '=' in t then
      exists eq: nat :: EqualSignAt(t, eq) && Reading(t, eq) == Some(m)
    else
      ParsePath(t) == Some(m.path) && m.value == None
  }

  ghost function ParseAtom(t: string): Option<Match> {
    if exists m :: IsMatch(t, m) then (var m :| IsMatch(t, m); Some(m)) else None
  }

  lemma EqualSignUnique(t: string, x: nat, y: nat)
    requires EqualSignAt(t, x) && EqualSignAt(t, y)
    ensures x == y
  {
    assert t[x] == '=' == t[y];
  }

  /** The reading of an atom with its first sign at `eq`. */
  ghost function Reading(t: string, eq: nat): Option<Match>
    requires eq < |t|
  {
    var path := ParsePath(TrimRight(t[0..eq]));
    if path.None? then None else Some(Match(path.value, Some(SkipSpaces(t[eq + 1..]))))
  }

  lemma IsMatchAt(t: string, eq: nat, m: Match)
    requires EqualSignAt(t, eq)
    ensures IsMatch(t, m) <==> Reading(t, eq) == Some(m)
  {
    if IsMatch(t, m) {
      var x: nat :| EqualSignAt(t, x) && Reading(t, x) == Some(m);
      EqualSignUnique(t, x, eq);
    }
  }

  lemma {:induction false} ParseAtomWith(t: string, eq: nat)
    requires EqualSignAt(t, eq)
    ensures ParseAtom(t) == Reading(t, eq)
  {
    forall m ensures IsMatch(t, m) <==> Reading(t, eq) == Some(m) { IsMatchAt(t, eq, m); }
    if Reading(t, eq).Some? { assert IsMatch(t, Reading(t, eq).value); }
  }

  lemma ParseAtomWithout(t: string)
    requires '=' !in t
    ensures ParseAtom(t) == if ParsePath(t).None? then None else Some(Match(ParsePath(t).value, None))
  {
    if ParsePath(t).Some? { assert IsMatch(t, Match(ParsePath(t).value, None)); }
  }

  /** An atom with a sign, and blanks around it. */
  ghost predicate SpelledOut(t: string, name: string, before: string, after: string, value: string) {
    t == (name + before) + "=" + (after + value) && '=' !in name && Blank(before) && Blank(after) &&
    (name != "" ==> !IsSpace(name[|name| - 1])) && (value != "" ==> !IsSpace(value[0]))
  }

  /** Such an atom reads as exactly the path of its name and its value. */
  lemma {:induction false} AtomReads(t: string, name: string, before: string, after: string, value: string)
    requires SpelledOut(t, name, before, after, value)
    ensures ParseAtom(t) == if ParsePath(name).None? then None else Some(Match(ParsePath(name).value, Some(value)))
  {
    NoSign(name, before);
    SignBetween(t, name + before, after + value);
    ParseAtomWith(t, |name + before|);
    TrimRightIs(name, before);
    SkipSpacesIs(after, value);
  }

  lemma NoSign(name: string, blanks: string)
    requires Blank(blanks)
    ensures '=' !in name <==> '=' !in name + blanks
  {
    assert forall k | 0 <= k < |blanks| :: blanks[k] != '=';
  }

  lemma SignBetween(t: string, left: string, right: string)
    requires t == left + "=" + right && '=' !in left
    ensures EqualSignAt(t, |left|) && t[0..|left|] == left && t[|left| + 1..] == right
  {
    assert forall k | 0 <= k < |left| :: t[k] == left[k];
  }

  /** Every atom with a sign can be spelled out like that. */
  lemma {:induction false} AtomSpelledOut(t: string) returns (name: string, before: string, after: string, value: string)
    requires '=' in t
    ensures SpelledOut(t, name, before, after, value)
  {
    var eq := FirstSign(t, 0);
    name, value := TrimRight(t[0..eq]), SkipSpaces(t[eq + 1..]);
    before := TrimRightSplits(t[0..eq]);
    after := SkipSpacesSplits(t[eq + 1..]);
    SignSplits(t, eq);
    NoSign(name, before);
  }

  lemma SignSplits(t: string, eq: nat)
    requires EqualSignAt(t, eq)
    ensures t == t[0..eq] + "=" + t[eq + 1..] && '=' !in t[0..eq]
  {
    assert forall k | 0 <= k < eq :: t[0..eq][k] == t[k];
  }

  lemma {:induction false} FirstSign(t: string, from: nat) returns (eq: nat)
    requires '=' in t && from <= |t| && forall k | 0 <= k < from :: t[k] != '='
    ensures EqualSignAt(t, eq)
    decreases |t| - from
  {
    eq := from;
    if t[from] != '=' { eq := FirstSign(t, from + 1); }
  }

  /** A name whose path is accepted passes the program's check of the prefix first. */
  lemma AcceptedIsHal(s: string)
    requires ParsePath(s).Some?
    ensures IsHal(s)
  {
    var pieces := Cut(s);
    GlueOfCut(s);
    assert IsHal(pieces[0]);
    if |pieces| > 1 { assert s[..4] == pieces[0][..4]; }
  }

  /* Splitting in place */

  /** The pointers of a match. */
  datatype MatchSlot = MatchSlot(value: int, parents: seq<int>, name: int)

  ghost predicate MatchAt(b: seq<char>, slot: MatchSlot, m: Match, lo: int, hi: int) {
    && PathAt(b, slot.parents, slot.name, m.path, lo, hi)
    && (if m.value.None? then slot.value == NULL else PieceAt(b, slot.value, m.value.value, lo, hi))
  }

  lemma MatchAtSame(b: seq<char>, c: seq<char>, slot: MatchSlot, m: Match, lo: nat, hi: int)
    requires MatchAt(b, slot, m, lo, hi)
    requires hi < |b| == |c| && forall k | lo <= k <= hi :: b[k] == c[k]
    ensures MatchAt(c, slot, m, lo, hi)
  {
    PathAtSame(b, c, slot.parents, slot.name, m.path, lo, hi);
    if m.value.Some? { PieceAtSame(b, c, slot.value, m.value.value, lo, hi); }
  }

  /** The part of `strsep` that looks for the sign. */
  method FindEqualSign(buf: array<char>, p: nat) returns (found: bool, eq: nat)
    requires Terminated(buf[..], p)
    ensures found ==> p <= eq < End(buf[..], p) && EqualSignAt(Text(buf[..], p), eq - p)
    ensures !found ==> '=' !in Text(buf[..], p)
  {
    ghost var t, e := Text(buf[..], p), End(buf[..], p);
    eq := p;
    while buf[eq] != NUL
      invariant p <= eq <= e && forall k | 0 <= k < eq - p :: t[k] != '='
      decreases e - eq
    {
      assert t[eq - p] == buf[eq];
      if buf[eq] == '=' {
        return true, eq;
      }
      eq := eq + 1;
    }
    return false, eq;
  }

  /** The loop that moves the value's pointer past leading blanks. */
  method SkipBlanks(buf: array<char>, p: nat) returns (q: nat)
    requires Terminated(buf[..], p)
    ensures PieceAt(buf[..], q, SkipSpaces(Text(buf[..], p)), p, End(buf[..], p))
  {
    ghost var b := buf[..];
    ghost var t, e := Text(b, p), End(b, p);
    q := p;
    while IsSpace(buf[q])
      invariant p <= q <= e && Terminated(b, q) && End(b, q) == e
      invariant SkipSpaces(Text(b, q)) == SkipSpaces(t)
      decreases e - q
    {
      TextFrom(b, q, 1);
      assert Text(b, q)[0] == b[q];
      q := q + 1;
    }
    if q < e { assert Text(b, q)[0] == b[q]; }
  }

  /** The loop that moves the end of the name in front of trailing blanks, and the cut there. */
  method CutTrailingBlanks(buf: array<char>, p: nat, ghost b: seq<char>) returns (ghost d: seq<char>)
    requires buf[..] == b && Terminated(b, p)
    modifies buf
    ensures buf[..] == d && |d| == |b| && Terminated(d, p) && End(d, p) <= End(b, p)
    ensures Text(d, p) == TrimRight(Text(b, p))
    ensures forall k | 0 <= k < |b| && !(p <= k <= End(b, p)) :: d[k] == b[k]
  {
    ghost var t, e := Text(b, p), End(b, p);
    var s := p;
    while buf[s] != NUL
      invariant p <= s <= e
      decreases e - s
    {
      s := s + 1;
    }
    assert t[..s - p] == t;
    while s > p && IsSpace(buf[s - 1])
      invariant p <= s <= e && TrimRight(t[..s - p]) == TrimRight(t)
    {
      assert t[..s - p][s - p - 1] == buf[s - 1];
      assert t[..s - p][..s - p - 1] == t[..s - 1 - p];
      s := s - 1;
    }
    if s > p { assert t[..s - p][s - p - 1] == buf[s - 1]; }
    buf[s] := NUL;
    d := b[s := NUL];
    assert buf[..] == d;
    EndIs(d, p, s);
    assert d[p..s] == t[..s - p];
  }

  /** One atom. It touches no cell outside the atom. */
  method SplitAtom(buf: array<char>, p: nat, ghost b: seq<char>) returns (ok: bool, slot: MatchSlot)
    requires buf[..] == b && Terminated(b, p)
    modifies buf
    ensures ok <==> ParseAtom(Text(b, p)).Some?
    ensures ok ==> MatchAt(buf[..], slot, ParseAtom(Text(b, p)).value, p, End(b, p))
    ensures forall k | 0 <= k < |b| && !(p <= k < End(b, p)) :: buf[k] == b[k]
  {
    var found, eq := FindEqualSign(buf, p);
    if found {
      ok, slot := SplitAtSign(buf, p, eq, b);
    } else {
      ParseAtomWithout(Text(b, p));
      ok, slot := ParseName(buf, p, NULL, b);
    }
  }

  /** The check of the prefix, then the path. */
  method ParseName(buf: array<char>, p: nat, value: int, ghost b: seq<char>) returns (ok: bool, slot: MatchSlot)
    requires buf[..] == b && Terminated(b, p)
    modifies buf
    ensures ok <==> ParsePath(Text(b, p)).Some?
    ensures ok ==> slot.value == value && PathAt(buf[..], slot.parents, slot.name, ParsePath(Text(b, p)).value, p, End(b, p))
    ensures forall k | 0 <= k < |b| && !(p <= k < End(b, p)) :: buf[k] == b[k]
  {
    if ParsePath(Text(b, p)).Some? { AcceptedIsHal(Text(b, p)); }
    slot := MatchSlot(value, [], NULL);
    var checked := HalString(buf, p);
    if checked == NULL {
      return false, slot;
    }
    assert buf[..] == b;
    var parents, name := ParsePropertyName(buf, p);
    return name != NULL, MatchSlot(value, parents[..], name);
  }

  /** After the cut at the sign, name and value are texts of their own. */
  lemma CutAtSign(b: seq<char>, p: nat, eq: nat)
    requires Terminated(b, p) && p <= eq < End(b, p)
    ensures var c := b[eq := NUL];
            Terminated(c, p) && End(c, p) == eq && Text(c, p) == Text(b, p)[0..eq - p] &&
            Terminated(c, eq + 1) && End(c, eq + 1) == End(b, p) && Text(c, eq + 1) == Text(b, p)[eq + 1 - p..]
  {
    var c := b[eq := NUL];
    EndIs(c, p, eq);
    EndIs(c, eq + 1, End(b, p));
    var n := |Text(b, p)|;
    TextSlice(b, p, 0, eq - p);
    TextSlice(b, p, eq + 1 - p, n);
    assert c[p..eq] == b[p..eq];
    assert c[eq + 1..p + n] == b[eq + 1..p + n];
    assert Text(b, p)[eq + 1 - p..n] == Text(b, p)[eq + 1 - p..];
  }

  method SplitAtSign(buf: array<char>, p: nat, eq: nat, ghost b: seq<char>) returns (ok: bool, slot: MatchSlot)
    requires buf[..] == b && Terminated(b, p) && p <= eq < End(b, p) && EqualSignAt(Text(b, p), eq - p)
    modifies buf
    ensures ok <==> ParseAtom(Text(b, p)).Some?
    ensures ok ==> MatchAt(buf[..], slot, ParseAtom(Text(b, p)).value, p, End(b, p))
    ensures forall k | 0 <= k < |b| && !(p <= k < End(b, p)) :: buf[k] == b[k]
  {
    ParseAtomWith(Text(b, p), eq - p);
    CutAtSign(b, p, eq);
    ghost var c := b[eq := NUL];
    buf[eq] := NUL;
    assert buf[..] == c;
    ok, slot := SplitCut(buf, p, eq, c);
  }

  /** A name in front of a sign: its trailing blanks are cut off, then it is parsed. */
  method ParseTrimmed(buf: array<char>, p: nat, value: int, ghost c: seq<char>) returns (ok: bool, slot: MatchSlot)
    requires buf[..] == c && Terminated(c, p)
    modifies buf
    ensures ok <==> ParsePath(TrimRight(Text(c, p))).Some?
    ensures ok ==> slot.value == value &&
                   PathAt(buf[..], slot.parents, slot.name, ParsePath(TrimRight(Text(c, p))).value, p, End(c, p))
    ensures forall k | 0 <= k < |c| && !(p <= k <= End(c, p)) :: buf[k] == c[k]
  {
    ghost var d := CutTrailingBlanks(buf, p, c);
    ok, slot := ParseName(buf, p, value, d);
    if ok { PathAtWider(buf[..], slot.parents, slot.name, ParsePath(Text(d, p)).value, p, End(d, p), End(c, p)); }
  }

  /** The two parts of an atom that is cut already. */
  method SplitCut(buf: array<char>, p: nat, eq: nat, ghost c: seq<char>) returns (ok: bool, slot: MatchSlot)
    requires buf[..] == c && Terminated(c, p) && End(c, p) == eq && Terminated(c, eq + 1)
    modifies buf
    ensures ok <==> ParsePath(TrimRight(Text(c, p))).Some?
    ensures ok ==> MatchAt(buf[..], slot, Match(ParsePath(TrimRight(Text(c, p))).value, Some(SkipSpaces(Text(c, eq + 1)))),
                           p, End(c, eq + 1))
    ensures forall k | 0 <= k < |c| && !(p <= k <= eq) :: buf[k] == c[k]
  {
    var value := SkipBlanks(buf, eq + 1);
    assert buf[..] == c;
    ok, slot := ParseTrimmed(buf, p, value, c);
    if ok { PartsRead(c, buf[..], slot, p, eq, ParsePath(TrimRight(Text(c, p))).value, SkipSpaces(Text(c, eq + 1))); }
  }

  /** Name and value, each read in its own part of the atom, are read in the atom. */
  lemma PartsRead(c: seq<char>, b: seq<char>, slot: MatchSlot, p: nat, eq: nat, path: Path, value: string)
    requires p <= eq && Terminated(c, eq + 1) && |b| == |c|
    requires PieceAt(c, slot.value, value, eq + 1, End(c, eq + 1)) && forall k | eq < k < |c| :: b[k] == c[k]
    requires PathAt(b, slot.parents, slot.name, path, p, eq)
    ensures MatchAt(b, slot, Match(path, Some(value)), p, End(c, eq + 1))
  {
    PieceAtSame(c, b, slot.value, value, eq + 1, End(c, eq + 1));
    PathAtWider(b, slot.parents, slot.name, path, p, eq, End(c, eq + 1));
  }

  lemma PathAtWider(b: seq<char>, parents: seq<int>, name: int, path: Path, lo: nat, hi: int, hi': int)
    requires PathAt(b, parents, name, path, lo, hi) && hi <= hi'
    ensures PathAt(b, parents, name, path, lo, hi')
  {
    forall j | 0 <= j < |path.parents| ensures PieceAt(b, parents[j], path.parents[j], lo, hi') {
    }
  }

  /* All atoms */

  ghost predicate AllParse(texts: seq<string>) {
    forall j | 0 <= j < |texts| :: ParseAtom(texts[j]).Some?
  }

  ghost function Matches(texts: seq<string>): (ms: seq<Match>)
    requires AllParse(texts)
    ensures |ms| == |texts|
  {
    seq(|texts|, j requires 0 <= j < |texts| => ParseAtom(texts[j]).value)
  }

  /** Each atom has cells of its own, from its pointer to its limit. */
  ghost predicate Apart(ptrs: seq<int>, limits: seq<int>, hi: int) {
    |limits| <= |ptrs| &&
    (forall j | 0 <= j < |limits| :: 0 <= ptrs[j] && limits[j] <= hi) &&
    (forall j, k | 0 <= j < k < |limits| :: limits[j] < ptrs[k])
  }

  lemma {:induction false} Separate(b: seq<char>, ptrs: seq<int>, texts: seq<string>, hi: int) returns (limits: seq<int>)
    requires AtomsAt(b, ptrs, texts, hi)
    ensures |limits| == |texts| && Apart(ptrs, limits, hi)
    ensures forall j | 0 <= j < |texts| :: PieceAt(b, ptrs[j], texts[j], ptrs[j], limits[j])
    decreases |texts|
  {
    if texts == [] {
      limits := [];
    } else {
      var n := |texts| - 1;
      limits := Separate(b, ptrs, texts[..n], ptrs[n] - 1);
      limits := limits + [hi];
      assert forall j | 0 <= j < n :: texts[..n][j] == texts[j];
    }
  }

  /** The first `n` atoms are split, the others are as the scan left them. */
  ghost predicate Splitting(b: seq<char>, slots: seq<MatchSlot>, ptrs: seq<int>, texts: seq<string>, limits: seq<int>, n: nat) {
    n <= |texts| == |limits| <= |ptrs| && |slots| == |texts| &&
    forall j | 0 <= j < |texts| ::
      if j < n then ParseAtom(texts[j]).Some? && MatchAt(b, slots[j], ParseAtom(texts[j]).value, ptrs[j], limits[j])
      else PieceAt(b, ptrs[j], texts[j], ptrs[j], limits[j])
  }

  lemma {:induction false} SplitOne(b: seq<char>, c: seq<char>, slots: seq<MatchSlot>, ptrs: seq<int>, texts: seq<string>, limits: seq<int>,
                 n: nat, slot: MatchSlot, hi: int)
    requires Splitting(b, slots, ptrs, texts, limits, n) && n < |texts| && Apart(ptrs, limits, hi) && hi < |b| == |c|
    requires 0 <= ptrs[n] && Terminated(b, ptrs[n]) && End(b, ptrs[n]) <= limits[n]
    requires ParseAtom(texts[n]).Some? && MatchAt(c, slot, ParseAtom(texts[n]).value, ptrs[n], End(b, ptrs[n]))
    requires forall k | 0 <= k < |b| && !(ptrs[n] <= k < End(b, ptrs[n])) :: c[k] == b[k]
    ensures Splitting(c, slots[n := slot], ptrs, texts, limits, n + 1)
  {
    MatchAtWider(c, slot, ParseAtom(texts[n]).value, ptrs[n], End(b, ptrs[n]), ptrs[n], limits[n]);
    forall j | 0 <= j < |texts| && j != n
      ensures if j < n then ParseAtom(texts[j]).Some? && MatchAt(c, slots[j], ParseAtom(texts[j]).value, ptrs[j], limits[j])
              else PieceAt(c, ptrs[j], texts[j], ptrs[j], limits[j])
    {
      assert limits[j] <= hi && 0 <= ptrs[j];
      assert if j < n then limits[j] < ptrs[n] else limits[n] < ptrs[j];
      if j < n {
        MatchAtSame(b, c, slots[j], ParseAtom(texts[j]).value, ptrs[j], limits[j]);
      } else {
        PieceAtSame(b, c, ptrs[j], texts[j], ptrs[j], limits[j]);
      }
    }
  }

  /** When all atoms are split, the slots read their matches. */
  lemma AllSplit(b: seq<char>, slots: seq<MatchSlot>, ptrs: seq<int>, texts: seq<string>, limits: seq<int>, hi: int)
    requires Splitting(b, slots, ptrs, texts, limits, |texts|) && Apart(ptrs, limits, hi)
    ensures AllParse(texts) && MatchesAt(b, slots, Matches(texts), hi)
  {
    forall j | 0 <= j < |texts| ensures ParseAtom(texts[j]).Some? && MatchAt(b, slots[j], ParseAtom(texts[j]).value, 0, hi) {
      assert limits[j] <= hi && 0 <= ptrs[j];
      MatchAtWider(b, slots[j], ParseAtom(texts[j]).value, ptrs[j], limits[j], 0, hi);
    }
  }

  lemma MatchAtWider(b: seq<char>, slot: MatchSlot, m: Match, lo: int, hi: int, lo': int, hi': int)
    requires MatchAt(b, slot, m, lo, hi) && lo' <= lo && hi <= hi'
    ensures MatchAt(b, slot, m, lo', hi')
  {
    forall j | 0 <= j < |m.path.parents| ensures PieceAt(b, slot.parents[j], m.path.parents[j], lo', hi') {
    }
  }

  /** The slots of the array read the matches, wholly inside the cells up to `hi`. */
  ghost predicate MatchesAt(b: seq<char>, slots: seq<MatchSlot>, ms: seq<Match>, hi: int) {
    |slots| == |ms| && forall j | 0 <= j < |ms| :: MatchAt(b, slots[j], ms[j], 0, hi)
  }

  method SplitAtoms(buf: array<char>, atoms: array<int>, n: nat, ghost b0: seq<char>, ghost ptrs: seq<int>,
                    ghost texts: seq<string>, ghost hi: nat) returns (ok: bool, matches: array<MatchSlot>)
    requires buf[..] == b0 && atoms[..] == ptrs && n == |texts| && hi < |b0| && AtomsAt(b0, ptrs, texts, hi)
    modifies buf
    ensures ok <==> AllParse(texts)
    ensures ok ==> MatchesAt(buf[..], matches[..], Matches(texts), hi)
  {
    ghost var b := b0;
    ghost var limits := Separate(b, ptrs, texts, hi);
    matches := new MatchSlot[n](i => MatchSlot(NULL, [], NULL));
    ghost var slots := matches[..];
    assert buf[..] == b && atoms[..] == ptrs;
    for i := 0 to n
      invariant buf[..] == b && |b| == |b0| && atoms[..] == ptrs && matches[..] == slots
      invariant Splitting(b, slots, ptrs, texts, limits, i)
    {
      NextAtom(b, slots, ptrs, texts, limits, i, hi);
      var slot;
      ok, slot := SplitAtom(buf, atoms[i], b);
      if !ok {
        return;
      }
      ghost var c := buf[..];
      SplitOne(b, c, slots, ptrs, texts, limits, i, slot, hi);
      b, slots := c, slots[i := slot];
      matches[i] := slot;
      assert matches[..] == slots && buf[..] == b && atoms[..] == ptrs;
    }
    ok := true;
    AllSplit(b, slots, ptrs, texts, limits, hi);
  }

  lemma NextAtom(b: seq<char>, slots: seq<MatchSlot>, ptrs: seq<int>, texts: seq<string>, limits: seq<int>, n: nat, hi: int)
    requires Splitting(b, slots, ptrs, texts, limits, n) && n < |texts| && Apart(ptrs, limits, hi)
    ensures 0 <= ptrs[n] && Terminated(b, ptrs[n]) && Text(b, ptrs[n]) == texts[n] && End(b, ptrs[n]) <= limits[n]
  {
    assert PieceAt(b, ptrs[n], texts[n], ptrs[n], limits[n]);
  }

  /* The whole parser */

  /** The verdict of the terms when a variable selects a match by its index. */
  function ByIndex(ms: seq<Match>, holds: Match -> bool): string -> bool {
    (v: string) => var k: int := Atoi(v); 0 <= k < |ms| && holds(ms[k])
  }

  /** What an atom of the source means where it stands. */
  ghost function InPlace(holds: Match -> bool): string -> bool {
    (text: string) => ParseAtom(text).Some? && holds(ParseAtom(text).value)
  }

  /** A match string is accepted when its atoms are, and its structure is. */
  ghost predicate Accepted(toks: seq<Token>) {
    AllParse(AtomsOf(toks)) && Parse(Source(toks)).Some?
  }

  /** For every accepted match string: the terms over indices give the verdict that the source has when
      every atom is evaluated in its own place, whatever a match is taken to mean. */
  lemma {:induction false} VerdictPreserved(toks: seq<Token>, skeleton: Expr<string>, source: Expr<string>, terms: seq<Term<string>>,
                                            holds: Match -> bool)
    requires GoodTokens(toks) && |toks| <= INT_MAX && AllParse(AtomsOf(toks))
    requires Parse(Lex(Skeleton(toks))) == Some(skeleton) && Parse(Source(toks)) == Some(source)
    requires IsDnfOf(terms, skeleton)
    ensures AnyHolds(terms, ByIndex(Matches(AtomsOf(toks)), holds)) <==> Eval(source, InPlace(holds))
  {
    var atoms := AtomsOf(toks);
    MeaningPreserved(toks, terms, InPlace(holds));
    SkeletonVars(toks);
    forall v | v in Vars(skeleton) ensures SatByIndex(atoms, InPlace(holds))(v) == ByIndex(Matches(atoms), holds)(v) {
      IndexSelects(atoms, holds, v);
    }
    SameOnVars(terms, Vars(skeleton), SatByIndex(atoms, InPlace(holds)), ByIndex(Matches(atoms), holds));
  }

  /** The match at an index is the match of the atom at that index. */
  lemma {:induction false} IndexSelects(atoms: seq<string>, holds: Match -> bool, v: string)
    requires AllParse(atoms) && 0 <= Atoi(v) < |atoms|
    ensures SatByIndex(atoms, InPlace(holds))(v) == ByIndex(Matches(atoms), holds)(v)
  {
    var k: int := Atoi(v);
    assert Matches(atoms)[k] == ParseAtom(atoms[k]).value;
    assert AtomNamed(atoms, k) == atoms[k];
    assert ByIndex(Matches(atoms), holds)(v) == holds(Matches(atoms)[k]);
    assert SatByIndex(atoms, InPlace(holds))(v) == InPlace(holds)(atoms[k]);
  }

  /** Every variable of the skeleton is the index of an atom. */
  lemma SkeletonVars(toks: seq<Token>)
    requires GoodTokens(toks) && |toks| <= INT_MAX && Parse(Lex(Skeleton(toks))).Some?
    ensures forall v | v in Vars(Parse(Lex(Skeleton(toks))).value) :: 0 <= Atoi(v) < |AtomsOf(toks)|
  {
    LexOfSkeleton(toks);
    ParseRenames(Indexed(toks), Digits);
    VarsAreIndices(toks);
    var e := Parse(Indexed(toks)).value;
    forall v | v in Vars(Rename(e, Digits)) ensures 0 <= Atoi(v) < |AtomsOf(toks)| {
      var k: nat := VarOfRenamed(e, Digits, v);
      AtoiInvertsDec(k);
    }
  }

  lemma {:induction false} VarOfRenamed(e: Expr<nat>, f: nat -> string, v: string) returns (k: nat)
    requires v in Vars(Rename(e, f))
    ensures k in Vars(e) && f(k) == v
  {
    match e
    case Var(x) => k := x;
    case Not(x) => k := VarOfRenamed(x, f, v);
    case _ =>
      if v in Vars(Rename(e.l, f)) { k := VarOfRenamed(e.l, f, v); } else { k := VarOfRenamed(e.r, f, v); }
  }

  lemma SameOnVars(terms: seq<Term<string>>, vars: set<string>, x: string -> bool, y: string -> bool)
    requires TermsOver(terms, vars) && forall v | v in vars :: x(v) == y(v)
    ensures AnyHolds(terms, x) <==> AnyHolds(terms, y)
  {
    forall i | 0 <= i < |terms| ensures TermHolds(terms[i], x) <==> TermHolds(terms[i], y) {
      assert TermOver(terms[i], vars);
    }
  }

  /** The whole parser of match strings. */
  method NewBooleanExpression(buf: array<char>) returns (ok: bool, matches: array<MatchSlot>, terms: seq<Term<string>>,
                                                        ghost toks: seq<Token>)
    requires Terminated(buf[..], 0) && |Text(buf[..], 0)| < INT_MAX
    modifies buf
    ensures IsTokens(old(Text(buf[..], 0)), toks) && |toks| < INT_MAX
    ensures ok <==> Accepted(toks)
    ensures ok ==> MatchesAt(buf[..], matches[..], Matches(AtomsOf(toks)), old(End(buf[..], 0)))
    ensures ok ==> Parse(Lex(Skeleton(toks))).Some? && IsDnfOf(terms, Parse(Lex(Skeleton(toks))).value)
  {
    ghost var s, e := Text(buf[..], 0), End(buf[..], 0);
    var expr, atoms, n;
    expr, atoms, n, toks := Tokenise(buf);
    SpellLength(toks);
    FilterLength(s, 0, |s|);
    terms := [];
    MeaningPreserved(toks, terms, (t: string) => true);
    var length := StrLen(expr, Skeleton(toks));
    var skeleton := expr[..length];
    ghost var texts := AtomsOf(toks);
    ok, matches := SplitAtoms(buf, atoms, n, buf[..], atoms[..], texts, e);
    if !ok {
      return;
    }
    var tree := Parse(Lex(skeleton));
    if tree.None? {
      ok := false;
      return;
    }
    DnfIsDnf(tree.value);
    terms := Dnf(tree.value, true);
  }
}
