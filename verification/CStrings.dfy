/** Option values, standing for results that the C code signals with NULL. */
module Options {
  datatype Option<+T> = None | Some(value: T)
}

module Sequences {
  function Each<T, U>(l: seq<T>, f: T -> U): (r: seq<U>)
    ensures |r| == |l| && forall i | 0 <= i < |l| :: r[i] == f(l[i])
  {
    seq(|l|, i requires 0 <= i < |l| => f(l[i]))
  }
}

/** C strings: substring search and NUL-terminated text inside a buffer.
    A buffer is a sequence of characters and a pointer into it is an index. */
module CStrings {
  const NUL: char := '\0'

  /** `isspace` in the C locale: blank, and the range from tab to carriage return. */
  predicate IsSpace(c: char) {
    c == ' ' || '\t' <= c <= '\r'
  }

  /** A string as C sees it: it holds no terminator. */
  predicate IsText(s: string) {
    forall i | 0 <= i < |s| :: s[i] != NUL
  }

  predicate TextList(l: seq<string>) {
    forall i | 0 <= i < |l| :: IsText(l[i])
  }

  predicate Occurs(pat: string, s: string, i: int) {
    0 <= i && i + |pat| <= |s| && s[i..i + |pat|] == pat
  }

  ghost predicate Absent(pat: string, s: string) {
    forall j :: !Occurs(pat, s, j)
  }

  ghost predicate FirstAt(pat: string, s: string, r: int) {
    Occurs(pat, s, r) && forall j | 0 <= j < r :: !Occurs(pat, s, j)
  }

  /** The first occurrence of `pat` in `s`, or -1. */
  ghost function Find(pat: string, s: string): int {
    if exists r :: FirstAt(pat, s, r) then (var r :| FirstAt(pat, s, r); r) else -1
  }

  lemma FindIs(pat: string, s: string, r: int)
    requires FirstAt(pat, s, r)
    ensures Find(pat, s) == r
  {
  }

  lemma FindSpec(pat: string, s: string)
    ensures var r := Find(pat, s);
            if r == -1 then Absent(pat, s) else FirstAt(pat, s, r) && 0 <= r && r + |pat| <= |s|
  {
    if j :| Occurs(pat, s, j) {
      var r := Least(pat, s, j);
    }
  }

  lemma {:induction false} Least(pat: string, s: string, j: int) returns (r: int)
    requires Occurs(pat, s, j)
    ensures FirstAt(pat, s, r)
    decreases j
  {
    if i :| 0 <= i < j && Occurs(pat, s, i) {
      r := Least(pat, s, i);
    } else {
      r := j;
    }
  }

  lemma OccursAt(pat: string, s: string, i: int, k: nat)
    requires Occurs(pat, s, i) && k < |pat|
    ensures s[i + k] == pat[k]
  {
    assert s[i..i + |pat|][k] == s[i + k];
  }

  lemma SliceOfSlice(s: string, a: nat, e: nat, i: nat, j: nat)
    requires i <= j && a + j <= e <= |s|
    ensures s[a..e][i..j] == s[a + i..a + j]
  {
    var x, y := s[a..e][i..j], s[a + i..a + j];
    forall k | 0 <= k < |x| ensures x[k] == y[k] {
      assert x[k] == s[a..e][i + k];
    }
    assert x == y;
  }

  /** Occurrences in a slice are occurrences in the whole. */
  lemma OccursInSlice(pat: string, s: string, a: nat, e: nat, j: nat)
    requires a <= e <= |s| && j + |pat| <= e - a
    ensures Occurs(pat, s[a..e], j) <==> Occurs(pat, s, a + j)
  {
    SliceOfSlice(s, a, e, j, j + |pat|);
  }

  lemma OccursInSuffix(pat: string, s: string, a: nat, j: nat)
    requires a <= |s|
    ensures Occurs(pat, s[a..], j) <==> Occurs(pat, s, a + j)
  {
    assert s[a..] == s[a..|s|];
    if j + |pat| <= |s| - a { OccursInSlice(pat, s, a, |s|, j); }
  }

  /** Text up to the first occurrence holds none, even when all but the last character of the
      occurrence follow. */
  lemma AbsentBefore(pat: string, s: string, k: nat)
    requires Find(pat, s) != -1 && k < |pat|
    ensures 0 <= Find(pat, s) && Find(pat, s) + k <= |s|
    ensures Absent(pat, s[0..Find(pat, s) + k])
  {
    FindSpec(pat, s);
    var e := Find(pat, s) + k;
    forall j ensures !Occurs(pat, s[0..e], j) {
      if 0 <= j && j + |pat| <= e {
        OccursInSlice(pat, s, 0, e, j);
      }
    }
  }

  /* Text inside a buffer */

  ghost predicate Terminated(b: seq<char>, p: int) {
    0 <= p && exists e :: p <= e < |b| && b[e] == NUL
  }

  ghost predicate EndsAt(b: seq<char>, p: nat, e: int) {
    p <= e < |b| && b[e] == NUL && forall k | p <= k < e :: b[k] != NUL
  }

  /** The index of the terminator of the text that starts at `p`. */
  ghost function End(b: seq<char>, p: nat): (e: nat)
    requires Terminated(b, p)
    ensures EndsAt(b, p, e)
  {
    var t :| p <= t < |b| && b[t] == NUL;
    EndExists(b, p, t);
    var e: nat :| EndsAt(b, p, e);
    e
  }

  lemma {:induction false} EndExists(b: seq<char>, p: nat, t: nat)
    requires p <= t < |b| && b[t] == NUL
    ensures exists e: nat :: EndsAt(b, p, e)
    decreases t
  {
    if u :| p <= u < t && b[u] == NUL {
      EndExists(b, p, u);
    } else {
      assert EndsAt(b, p, t);
    }
  }

  ghost function Text(b: seq<char>, p: nat): string
    requires Terminated(b, p)
  {
    b[p..End(b, p)]
  }

  lemma EndIs(b: seq<char>, p: nat, e: nat)
    requires p <= e < |b| && b[e] == NUL
    requires forall k | p <= k < e :: b[k] != NUL
    ensures Terminated(b, p) && End(b, p) == e && Text(b, p) == b[p..e]
  {
  }

  lemma TextSlice(b: seq<char>, p: nat, i: nat, j: nat)
    requires Terminated(b, p) && i <= j <= |Text(b, p)|
    ensures Text(b, p)[i..j] == b[p + i..p + j]
  {
    SliceOfSlice(b, p, End(b, p), i, j);
  }

  /** The pointer `k` characters on reads the rest of the text. */
  lemma TextFrom(b: seq<char>, p: nat, k: nat)
    requires Terminated(b, p) && k <= |Text(b, p)|
    ensures Terminated(b, p + k) && End(b, p + k) == End(b, p)
    ensures Text(b, p + k) == Text(b, p)[k..]
  {
    EndIs(b, p + k, End(b, p));
  }

  /** `strstr(p, pat)`: an index into the buffer, or -1 for NULL. */
  ghost function StrStr(b: seq<char>, p: nat, pat: string): int
    requires Terminated(b, p)
  {
    if Find(pat, Text(b, p)) == -1 then -1 else p + Find(pat, Text(b, p))
  }

  /** The library's `strstr`. */
  method Search(buf: array<char>, p: nat, pat: string) returns (r: int)
    requires Terminated(buf[..], p) && |pat| > 0 && IsText(pat)
    ensures r == StrStr(buf[..], p, pat)
    ensures r == -1 || p <= r <= End(buf[..], p) - |pat|
  {
    ghost var e := End(buf[..], p);
    ghost var s := Text(buf[..], p);
    r := p;
    while buf[r] != NUL
      invariant p <= r <= e
      invariant forall j | 0 <= j < r - p :: !Occurs(pat, s, j)
      decreases e - r
    {
      var k := 0;
      while k < |pat| && buf[r + k] == pat[k]
        invariant 0 <= k <= |pat| && r + k <= e
        invariant s[r - p..r - p + k] == pat[..k]
      {
        assert s[r - p + k] == buf[r + k];
        k := k + 1;
      }
      if k == |pat| {
        assert FirstAt(pat, s, r - p);
        FindIs(pat, s, r - p);
        return;
      }
      assert !Occurs(pat, s, r - p) by {
        if r - p + |pat| <= |s| {
          assert s[r - p..r - p + |pat|][k] == buf[r + k];
        }
      }
      r := r + 1;
    }
    FindSpec(pat, s);
    r := -1;
  }

  /** The library's `strlen`, at a pointer. */
  method Length(buf: array<char>, p: nat) returns (n: nat)
    requires Terminated(buf[..], p)
    ensures n == |Text(buf[..], p)| && n == End(buf[..], p) - p
  {
    n := 0;
    while buf[p + n] != NUL
      invariant p + n <= End(buf[..], p)
      decreases End(buf[..], p) - n
    {
      n := n + 1;
    }
  }

  /** The library's `strdup`. */
  method Duplicate(buf: array<char>, p: nat) returns (s: string)
    requires Terminated(buf[..], p)
    ensures s == Text(buf[..], p)
  {
    var n := Length(buf, p);
    s := buf[p..p + n];
  }

  /** Text at a pointer only depends on the cells up to its terminator. */
  lemma TextSame(b: seq<char>, c: seq<char>, p: nat)
    requires Terminated(b, p)
    requires End(b, p) < |c| && forall k | p <= k <= End(b, p) :: c[k] == b[k]
    ensures Terminated(c, p) && End(c, p) == End(b, p) && Text(c, p) == Text(b, p)
  {
    EndIs(c, p, End(b, p));
  }
}

/** Strings in buffers of their own, and the library calls that extend them. */
module CBuffers {
  import opened CStrings

  /** The buffer holds the string and its terminator. */
  ghost predicate HoldsText(x: seq<char>, s: string) {
    |s| < |x| && x[..|s|] == s && x[|s|] == NUL && IsText(s)
  }

  /** `strlen`. */
  method StrLen(x: array<char>, ghost s: string) returns (n: nat)
    requires HoldsText(x[..], s)
    ensures n == |s|
  {
    n := 0;
    ghost var b := x[..];
    assert forall k | 0 <= k < |s| :: b[k] == s[k];
    while x[n] != NUL
      invariant n <= |s|
      decreases |s| - n
    {
      n := n + 1;
    }
  }

  /** `strcat`. */
  method StrCat(x: array<char>, t: string, ghost s: string)
    requires HoldsText(x[..], s) && IsText(t) && |s| + |t| + 1 <= x.Length
    modifies x
    ensures HoldsText(x[..], s + t)
  {
    var n := StrLen(x, s);
    for k := 0 to |t|
      invariant x[..n + k] == s + t[..k]
    {
      x[n + k] := t[k];
    }
    x[n + |t|] := NUL;
    assert x[..n + |t|] == s + t;
  }

  /** `realloc` of a string buffer. */
  method GrowText(x: array<char>, size: nat, ghost s: string) returns (y: array<char>)
    requires HoldsText(x[..], s) && x.Length <= size
    ensures fresh(y) && y.Length == size && HoldsText(y[..], s)
  {
    y := new char[size](i requires 0 <= i < size reads x => if i < x.Length then x[i] else NUL);
    assert y[..|s|] == x[..|s|];
  }
}
