/** `halevt_parse_property_name`: counts the separators of a string, then cuts the string in place and
    leaves pointers into it. */
module PathParser {
  import opened Options
  import opened CStrings
  import opened PropertyPaths

  /** The pointer reads `text`, wholly inside the cells from `lo` to `hi`. */
  ghost predicate PieceAt(b: seq<char>, ptr: int, text: string, lo: int, hi: int) {
    lo <= ptr && Terminated(b, ptr) && End(b, ptr) <= hi && Text(b, ptr) == text
  }

  /** The pointer array and the name pointer read `path`; the array ends with NULL. */
  ghost predicate PathAt(b: seq<char>, parents: seq<int>, name: int, path: Path, lo: int, hi: int) {
    && |parents| == |path.parents| + 1
    && parents[|path.parents|] == NULL
    && (forall j | 0 <= j < |path.parents| :: PieceAt(b, parents[j], path.parents[j], lo, hi))
    && PieceAt(b, name, path.name, lo, hi)
  }

  lemma PieceAtSame(b: seq<char>, c: seq<char>, ptr: int, text: string, lo: nat, hi: int)
    requires PieceAt(b, ptr, text, lo, hi)
    requires hi < |b| == |c| && forall k | lo <= k <= hi :: b[k] == c[k]
    ensures PieceAt(c, ptr, text, lo, hi)
  {
    TextSame(b, c, ptr);
  }

  lemma PathAtSame(b: seq<char>, c: seq<char>, parents: seq<int>, name: int, path: Path, lo: nat, hi: int)
    requires PathAt(b, parents, name, path, lo, hi)
    requires hi < |b| == |c| && forall k | lo <= k <= hi :: b[k] == c[k]
    ensures PathAt(c, parents, name, path, lo, hi)
  {
    forall j | 0 <= j < |path.parents| ensures PieceAt(c, parents[j], path.parents[j], lo, hi) {
      PieceAtSame(b, c, parents[j], path.parents[j], lo, hi);
    }
    PieceAtSame(b, c, name, path.name, lo, hi);
  }

  /** The pieces before `last` are cut out already. */
  ghost predicate Done(b: seq<char>, ptrs: seq<int>, pieces: seq<string>, last: nat, lo: int, hi: int) {
    last <= |ptrs| && last <= |pieces| &&
    forall j | 0 <= j < last :: PieceAt(b, ptrs[j], pieces[j], lo, hi)
  }

  /** One round of either pass: what the search at a pointer says about the pieces that remain. */
  lemma {:induction false} CutStep(t: string, pieces: seq<string>, last: nat)
    requires last <= |pieces| && pieces[last..] == Cut(t)
    ensures last < |pieces|
    ensures var hit := Find(SEPARATOR, t);
            if hit == -1 then last + 1 == |pieces| && pieces[last] == t
            else 0 <= hit < |t| && pieces[last] == t[0..hit] && pieces[last + 1..] == Cut(t[hit + 1..])
  {
    FindSpec(SEPARATOR, t);
    var rest := Cut(t);
    assert pieces[last] == rest[0];
    assert pieces[last + 1..] == rest[1..];
  }

  /** The state of the cutting pass at `p`, in a buffer that was `b0` on entry: the pieces before
      `last` are cut out, the current one starts at `p`, and nothing from `p` on has changed. */
  ghost predicate Cutting(b0: seq<char>, start: nat, b: seq<char>, ptrs: seq<int>, pieces: seq<string>, last: nat, p: nat) {
    var state :=
      && Terminated(b0, start)
      && start <= p && Terminated(b, p) && End(b, p) == End(b0, start)
      && last < |pieces| == |ptrs|
      && ptrs[last] == p
      && pieces[last..] == Cut(Text(b, p))
      && Done(b, ptrs, pieces, last, start, p - 1)
      && |b| == |b0| && forall k | 0 <= k < |b| && !(start <= k < p) :: b[k] == b0[k];
    state
  }

  /** Nothing changed outside the text at `start`. */
  ghost predicate OnlyWithin(b0: seq<char>, b: seq<char>, start: nat) {
    Terminated(b0, start) && |b| == |b0| && forall k | 0 <= k < |b| && !(start <= k < End(b0, start)) :: b[k] == b0[k]
  }

  lemma CutStart(b0: seq<char>, start: nat, ptrs: seq<int>, pieces: seq<string>)
    requires Terminated(b0, start) && pieces == Cut(Text(b0, start)) && |ptrs| == |pieces| && ptrs[0] == start
    ensures Cutting(b0, start, b0, ptrs, pieces, 0, start)
  {
    assert pieces[0..] == pieces;
  }

  /** Cutting at a hit completes the piece at `p` and leaves the earlier ones and the rest alone. */
  lemma CutNext(b0: seq<char>, start: nat, b: seq<char>, ptrs: seq<int>, pieces: seq<string>, last: nat, p: nat)
    requires Cutting(b0, start, b, ptrs, pieces, last, p)
    requires StrStr(b, p, SEPARATOR) != NULL
    ensures var hit := StrStr(b, p, SEPARATOR);
            p <= hit < End(b0, start) && last + 1 < |pieces| &&
            Cutting(b0, start, b[hit := NUL], ptrs[last + 1 := hit + 1], pieces, last + 1, hit + 1)
  {
    var t, hit, e := Text(b, p), StrStr(b, p, SEPARATOR), End(b, p);
    CutStep(t, pieces, last);
    var c, next := b[hit := NUL], ptrs[last + 1 := hit + 1];
    EndIs(c, p, hit);
    assert c[p..hit] == t[0..hit - p];
    EndIs(c, hit + 1, e);
    assert c[hit + 1..e] == t[hit - p + 1..];
    forall j | 0 <= j < last + 1 ensures PieceAt(c, next[j], pieces[j], start, hit) {
      if j < last { PieceAtSame(b, c, ptrs[j], pieces[j], start, p - 1); }
    }
  }

  /** Without another hit, the piece at `p` is the last one. */
  lemma CutLast(b0: seq<char>, start: nat, b: seq<char>, ptrs: seq<int>, pieces: seq<string>, last: nat, p: nat)
    requires Cutting(b0, start, b, ptrs, pieces, last, p)
    requires StrStr(b, p, SEPARATOR) == NULL
    ensures last + 1 == |pieces| == |ptrs|
    ensures Done(b, ptrs, pieces, |pieces|, start, End(b0, start))
    ensures OnlyWithin(b0, b, start)
  {
    FindSpec(SEPARATOR, Text(b, p));
    CutStep(Text(b, p), pieces, last);
  }

  /** The counting pass. */
  method CountSeparators(buf: array<char>, start: nat) returns (n: nat)
    requires Terminated(buf[..], start)
    ensures n + 1 == |Cut(Text(buf[..], start))|
  {
    ghost var b := buf[..];
    ghost var pieces := Cut(Text(b, start));
    n := 0;
    var p := start;
    var hit := Search(buf, p, SEPARATOR);
    while hit != NULL
      invariant start <= p && Terminated(b, p) && End(b, p) == End(b, start)
      invariant n < |pieces| && pieces[n..] == Cut(Text(b, p))
      invariant hit == StrStr(b, p, SEPARATOR)
      decreases End(b, start) - p
    {
      CutStep(Text(b, p), pieces, n);
      TextFrom(b, p, hit + 1 - p);
      n := n + 1;
      p := hit + 1;
      hit := Search(buf, p, SEPARATOR);
    }
    FindSpec(SEPARATOR, Text(b, p));
    CutStep(Text(b, p), pieces, n);
  }

  /** One round of the cutting pass: the two writes that a hit leads to, and the next hit. */
  method CutAt(buf: array<char>, parents: array<int>, last: nat, p: nat, hit: int,
               ghost b0: seq<char>, ghost start: nat, ghost b: seq<char>, ghost ptrs: seq<int>, ghost pieces: seq<string>)
    returns (next: int, ghost c: seq<char>, ghost qtrs: seq<int>)
    requires buf[..] == b && parents[..] == ptrs && Cutting(b0, start, b, ptrs, pieces, last, p)
    requires hit == StrStr(b, p, SEPARATOR) != NULL
    modifies buf, parents
    ensures buf[..] == c && parents[..] == qtrs
    ensures p <= hit < End(b0, start) && Cutting(b0, start, c, qtrs, pieces, last + 1, hit + 1)
    ensures next == StrStr(c, hit + 1, SEPARATOR)
  {
    CutNext(b0, start, b, ptrs, pieces, last, p);
    c, qtrs := b[hit := NUL], ptrs[last + 1 := hit + 1];
    buf[hit] := NUL;
    parents[last + 1] := hit + 1;
    assert buf[..] == c && parents[..] == qtrs;
    next := Search(buf, hit + 1, SEPARATOR);
  }

  /** The cutting pass from a state with the hits that remain. */
  method CutRest(buf: array<char>, start: nat, parents: array<int>, first: nat, hit0: int,
                 ghost b0: seq<char>, ghost b1: seq<char>, ghost ptrs1: seq<int>, ghost pieces: seq<string>)
    returns (last: nat, ghost b: seq<char>, ghost ptrs: seq<int>)
    requires buf[..] == b1 && parents[..] == ptrs1 && Cutting(b0, start, b1, ptrs1, pieces, 0, first)
    requires hit0 == StrStr(b1, first, SEPARATOR)
    modifies buf, parents
    ensures buf[..] == b && parents[..] == ptrs && last + 1 == |pieces| == |ptrs|
    ensures Done(b, ptrs, pieces, |pieces|, start, End(b0, start)) && OnlyWithin(b0, b, start)
  {
    var p, hit := first, hit0;
    last := 0;
    b, ptrs := b1, ptrs1;
    while hit != NULL
      invariant buf[..] == b && parents[..] == ptrs
      invariant Cutting(b0, start, b, ptrs, pieces, last, p) && hit == StrStr(b, p, SEPARATOR)
      decreases End(b0, start) - p
    {
      var next;
      next, b, ptrs := CutAt(buf, parents, last, p, hit, b0, start, b, ptrs, pieces);
      last, p, hit := last + 1, hit + 1, next;
    }
    CutLast(b0, start, b, ptrs, pieces, last, p);
  }

  /** The cutting pass: writes a terminator over the dot of every separator. It writes as many
      pointers as the counting pass made room for. */
  method CutInPlace(buf: array<char>, start: nat, parents: array<int>, ghost b0: seq<char>)
    returns (last: nat, ghost b: seq<char>, ghost ptrs: seq<int>)
    requires buf[..] == b0 && Terminated(b0, start)
    requires parents.Length == |Cut(Text(b0, start))|
    modifies buf, parents
    ensures buf[..] == b && parents[..] == ptrs && last + 1 == |ptrs|
    ensures Done(b, ptrs, Cut(Text(b0, start)), |ptrs|, start, End(b0, start))
    ensures OnlyWithin(b0, b, start)
  {
    ghost var pieces := Cut(Text(b0, start));
    parents[0] := start;
    CutStart(b0, start, parents[..], pieces);
    assert buf[..] == b0;
    var hit := Search(buf, start, SEPARATOR);
    last, b, ptrs := CutRest(buf, start, parents, start, hit, b0, b0, parents[..], pieces);
  }

  /** The pointer that `halevt_hal_string` returns: behind the prefix, or NULL. */
  ghost function HalPointer(b: seq<char>, p: nat): (r: int)
    requires Terminated(b, p)
  {
    if IsHal(Text(b, p)) then p + 4 else NULL
  }

  lemma HalPointerReads(b: seq<char>, p: nat)
    requires Terminated(b, p) && IsHal(Text(b, p))
    ensures PieceAt(b, p + 4, Text(b, p)[4..], p, End(b, p))
  {
    TextFrom(b, p, 4);
  }

  /** `halevt_hal_string`. */
  method HalString(buf: array<char>, p: nat) returns (r: int)
    requires Terminated(buf[..], p)
    ensures r == HalPointer(buf[..], p)
  {
    ghost var s := Text(buf[..], p);
    assert |s| >= 4 ==> s[..4] == [s[0], s[1], s[2], s[3]];
    if buf[p] == 'h' && buf[p + 1] == 'a' && buf[p + 2] == 'l' && buf[p + 3] == '.' && buf[p + 4] != NUL {
      return p + 4;
    }
    return NULL;
  }

  /** The pointers before `n` were moved behind their prefixes. */
  ghost predicate Moved(b: seq<char>, ptrs: seq<int>, pieces: seq<string>, n: nat, lo: int, hi: int) {
    n <= |pieces| == |ptrs| &&
    forall i | 0 <= i < |pieces| ::
      if i < n then IsHal(pieces[i]) && PieceAt(b, ptrs[i], pieces[i][4..], lo, hi)
      else PieceAt(b, ptrs[i], pieces[i], lo, hi)
  }

  lemma MoveNext(b: seq<char>, ptrs: seq<int>, pieces: seq<string>, n: nat, lo: nat, hi: int)
    requires Moved(b, ptrs, pieces, n, lo, hi) && n < |pieces|
    ensures PieceAt(b, ptrs[n], pieces[n], lo, hi)
    ensures HalPointer(b, ptrs[n]) == NULL <==> !IsHal(pieces[n])
    ensures IsHal(pieces[n]) ==> Moved(b, ptrs[n := HalPointer(b, ptrs[n])], pieces, n + 1, lo, hi)
  {
    assert PieceAt(b, ptrs[n], pieces[n], lo, hi);
    if IsHal(pieces[n]) { HalPointerReads(b, ptrs[n]); }
  }

  lemma AllMoved(b: seq<char>, ptrs: seq<int>, pieces: seq<string>, lo: int, hi: int)
    requires Moved(b, ptrs, pieces, |pieces|, lo, hi)
    ensures AllHal(pieces) && Done(b, ptrs, Stripped(pieces), |pieces|, lo, hi)
  {
    forall i | 0 <= i < |pieces| ensures IsHal(pieces[i]) && PieceAt(b, ptrs[i], pieces[i][4..], lo, hi) {
    }
  }

  /** Moves every piece pointer behind its prefix, and stops at the first piece without one. */
  method StripPrefixes(buf: array<char>, parents: array<int>, ghost b: seq<char>, ghost ptrs0: seq<int>,
                       ghost pieces: seq<string>, ghost lo: nat, ghost hi: int) returns (ok: bool, ghost ptrs: seq<int>)
    requires buf[..] == b && parents[..] == ptrs0 && Moved(b, ptrs0, pieces, 0, lo, hi)
    modifies parents
    ensures buf[..] == b && parents[..] == ptrs && |ptrs| == |ptrs0|
    ensures ok <==> AllHal(pieces)
    ensures ok ==> Done(b, ptrs, Stripped(pieces), |pieces|, lo, hi)
  {
    ptrs := ptrs0;
    for j := 0 to parents.Length
      invariant buf[..] == b && parents[..] == ptrs
      invariant Moved(b, ptrs, pieces, j, lo, hi)
    {
      MoveNext(b, ptrs, pieces, j, lo, hi);
      var stripped := HalString(buf, parents[j]);
      if stripped == NULL {
        return false, ptrs;
      }
      ptrs := ptrs[j := stripped];
      parents[j] := stripped;
      assert parents[..] == ptrs && buf[..] == b;
    }
    AllMoved(b, ptrs, pieces, lo, hi);
    ok := true;
  }

  /** With NULL over the last pointer, which becomes the name, the pointers read the path. */
  lemma DoneIsPath(b: seq<char>, ptrs: seq<int>, pieces: seq<string>, lo: int, hi: int)
    requires |ptrs| == |pieces| > 0 && Done(b, ptrs, pieces, |pieces|, lo, hi)
    ensures PathAt(b, ptrs[|ptrs| - 1 := NULL], ptrs[|ptrs| - 1], PathOf(pieces), lo, hi)
  {
  }

  /** A string without separators is its own single piece. */
  lemma SinglePiece(b: seq<char>, start: nat, parents: seq<int>)
    requires Terminated(b, start) && |Cut(Text(b, start))| == 1 && parents == [NULL]
    ensures ParsePath(Text(b, start)).None? <==> HalPointer(b, start) == NULL
    ensures HalPointer(b, start) != NULL ==>
              PathAt(b, parents, HalPointer(b, start), ParsePath(Text(b, start)).value, start, End(b, start))
  {
    var s := Text(b, start);
    GlueOfCut(s);
    assert Cut(s) == [s];
    if IsHal(s) {
      HalPointerReads(b, start);
      assert Stripped([s]) == [s[4..]];
    }
  }

  /** The whole parser. On success the pointers read the path of the string, as it was on entry. */
  method ParsePropertyName(buf: array<char>, start: nat) returns (parents: array<int>, name: int)
    requires Terminated(buf[..], start)
    modifies buf
    ensures fresh(parents)
    ensures name == NULL <==> ParsePath(old(Text(buf[..], start))).None?
    ensures name != NULL ==> PathAt(buf[..], parents[..], name, ParsePath(old(Text(buf[..], start))).value,
                                    start, old(End(buf[..], start)))
    ensures forall k | 0 <= k < buf.Length && !(start <= k < old(End(buf[..], start))) :: buf[k] == old(buf[k])
  {
    ghost var b := buf[..];
    var parentsSize := CountSeparators(buf, start);
    parents := new int[parentsSize + 1];
    assert buf[..] == b;
    if parentsSize > 0 {
      name := CutAndStrip(buf, start, parents, b);
    } else {
      name := HalString(buf, start);
      parents[parentsSize] := NULL;
      SinglePiece(b, start, parents[..]);
      assert buf[..] == b;
    }
  }

  /** The branch for names with parents. */
  method CutAndStrip(buf: array<char>, start: nat, parents: array<int>, ghost b0: seq<char>) returns (name: int)
    requires buf[..] == b0 && Terminated(b0, start)
    requires parents.Length == |Cut(Text(b0, start))|
    modifies buf, parents
    ensures name == NULL <==> ParsePath(Text(b0, start)).None?
    ensures name != NULL ==> PathAt(buf[..], parents[..], name, ParsePath(Text(b0, start)).value, start, End(b0, start))
    ensures OnlyWithin(b0, buf[..], start)
  {
    var last, b, ptrs := CutInPlace(buf, start, parents, b0);
    name := StripAndName(buf, parents, last, b, ptrs, Cut(Text(b0, start)), start, End(b0, start));
    assert buf[..] == b;
  }

  /** What follows the cutting pass: the prefixes, and the last piece as the name. */
  method StripAndName(buf: array<char>, parents: array<int>, last: nat, ghost b: seq<char>, ghost ptrs0: seq<int>,
                      ghost pieces: seq<string>, ghost lo: nat, ghost hi: int) returns (name: int)
    requires buf[..] == b && parents[..] == ptrs0 && last + 1 == |ptrs0| == |pieces|
    requires Done(b, ptrs0, pieces, |pieces|, lo, hi)
    modifies parents
    ensures buf[..] == b && (name == NULL <==> !AllHal(pieces))
    ensures name != NULL ==> PathAt(b, parents[..], name, PathOf(Stripped(pieces)), lo, hi)
  {
    var ok, ptrs := StripPrefixes(buf, parents, b, ptrs0, pieces, lo, hi);
    if !ok {
      return NULL;
    }
    DoneIsPath(b, ptrs, Stripped(pieces), lo, hi);
    name := parents[last];
    parents[last] := NULL;
    assert parents[..] == ptrs[last := NULL] && buf[..] == b;
  }
}
