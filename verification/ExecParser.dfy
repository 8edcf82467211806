/** `halevt_new_exec`: a counting pass over the command, then a pass that cuts the copy of the command
    in place and fills an array of elements with pointers into it. */
module ExecParser {
  import opened Options
  import opened CStrings
  import opened PropertyPaths
  import opened PathParser
  import opened ExecTemplates

  /** An element of the array: a pointer to literal text, or the pointers of a parsed property. */
  datatype Slot = Empty | LiteralAt(start: int) | PropertyAt(parents: seq<int>, name: int)

  /** The slot reads `e`, wholly inside the cells from `lo` to `hi`. */
  ghost predicate ElementAt(b: seq<char>, slot: Slot, e: Element, lo: int, hi: int) {
    match slot
    case Empty => false
    case LiteralAt(start) => e.Literal? && PieceAt(b, start, e.text, lo, hi)
    case PropertyAt(parents, name) => e.Property? && PathAt(b, parents, name, e.path, lo, hi)
  }

  /** The first slots read the elements of `done`. */
  ghost predicate Filled(b: seq<char>, slots: seq<Slot>, done: seq<Element>, hi: int) {
    |done| <= |slots| && forall i | 0 <= i < |done| :: ElementAt(b, slots[i], done[i], 0, hi)
  }

  /** The split of a text in the shape that both passes follow: text without a property, text with
      one that ends the command, or text with one that more text follows. */
  datatype Form = Final(text: string) | Closed(text: string, tag: string) | More(text: string, tag: string, rest: Form)

  function Chunks(f: Form): seq<Chunk> {
    match f
    case Final(text) => [Plain(text)]
    case Closed(text, tag) => [Plain(text), Tag(tag)]
    case More(text, tag, rest) => [Plain(text), Tag(tag)] + Chunks(rest)
  }

  function Tail(f: Form): string
    decreases f, 0
  {
    if f.More? then Flat(f.rest) else ""
  }

  function Flat(f: Form): string
    decreases f, 1
  {
    if f.Final? then f.text else f.text + "$" + f.tag + "$" + Tail(f)
  }

  ghost predicate Good(f: Form) {
    match f
    case Final(text) => NextMark(text).None?
    case Closed(text, tag) => Absent(OPENER, text) && IsTag(Tag(tag))
    case More(text, tag, rest) => Absent(OPENER, text) && IsTag(Tag(tag)) && Flat(rest) != "" && Good(rest)
  }

  lemma {:induction false} FormOf(l: seq<Chunk>) returns (f: Form)
    requires Alternating(l)
    ensures Good(f) && Chunks(f) == l && Flat(f) == Flatten(l)
  {
    FirstMark(l);
    if |l| == 1 {
      f := Final(l[0].text);
      FlattenOne(l[0].text);
      assert l == [Plain(l[0].text)];
    } else if |l| == 2 {
      f := Closed(l[0].text, l[1].text);
      assert l[2..] == [];
      assert l == [Plain(l[0].text), Tag(l[1].text)];
    } else {
      var rest := FormOf(l[2..]);
      f := More(l[0].text, l[1].text, rest);
      assert l == [Plain(l[0].text), Tag(l[1].text)] + l[2..];
    }
  }

  /** The elements of a form, if every path is accepted. */
  ghost function Read(f: Form): Option<seq<Element>> {
    match f
    case Final(text) => Some([Literal(text)])
    case Closed(text, tag) => Prepend([Literal(text)], Decode(Tag(tag)), Some([]))
    case More(text, tag, rest) => Prepend([Literal(text)], Decode(Tag(tag)), Read(rest))
  }

  function Prepend(done: seq<Element>, e: Option<Element>, rest: Option<seq<Element>>): Option<seq<Element>> {
    if e.None? || rest.None? then None else Some(done + [e.value] + rest.value)
  }

  lemma {:induction false} ReadIsDecode(f: Form)
    ensures Read(f) == if AllDecode(Chunks(f)) then Some(Decoded(Chunks(f))) else None
  {
    var l := Chunks(f);
    assert Decode(l[0]) == Some(Literal(f.text));
    if f.Final? {
      assert Decoded(l) == [Literal(f.text)];
    } else {
      assert l[1] == Tag(f.tag);
      var k := if f.More? then Chunks(f.rest) else [];
      assert l == [l[0], l[1]] + k;
      if f.More? { ReadIsDecode(f.rest); }
      DecodeHead(l[0], l[1], k);
    }
  }

  lemma DecodeHead(a: Chunk, c: Chunk, k: seq<Chunk>)
    requires Decode(a).Some?
    ensures AllDecode([a, c] + k) <==> Decode(c).Some? && AllDecode(k)
    ensures AllDecode([a, c] + k) ==> Decoded([a, c] + k) == [Decode(a).value] + [Decode(c).value] + Decoded(k)
  {
    var l := [a, c] + k;
    assert l[0] == a && l[1] == c;
    if AllDecode(l) {
      forall i | 0 <= i < |k| ensures Decode(k[i]).Some? { assert l[i + 2] == k[i]; }
      DecodedElementwise(a, c, k);
    } else if AllDecode(k) {
      assert forall i | 2 <= i < |l| :: l[i] == k[i - 2];
    }
  }

  lemma DecodedElementwise(a: Chunk, c: Chunk, k: seq<Chunk>)
    requires AllDecode([a, c] + k) && Decode(a).Some? && Decode(c).Some? && AllDecode(k)
    ensures Decoded([a, c] + k) == [Decode(a).value] + [Decode(c).value] + Decoded(k)
  {
    var l := [a, c] + k;
    var x, y := Decoded(l), [Decode(a).value] + [Decode(c).value] + Decoded(k);
    forall i | 0 <= i < |l| ensures x[i] == y[i] {
      if i >= 2 { assert l[i] == k[i - 2]; }
    }
  }

  function Size(f: Form): nat {
    match f
    case Final(_) => 1
    case Closed(_, _) => 2
    case More(_, _, rest) => 2 + Size(rest)
  }

  lemma {:induction false} SizeIsLength(f: Form)
    ensures Size(f) == |Chunks(f)|
  {
    if f.More? { SizeIsLength(f.rest); }
  }

  lemma PieceAtWithin(b: seq<char>, c: seq<char>, ptr: int, text: string, lo: nat, hi: int, lo': nat, hi': int)
    requires PieceAt(b, ptr, text, lo, hi) && lo' <= lo && hi <= hi' && hi < |b| == |c|
    requires forall k | lo <= k <= hi :: b[k] == c[k]
    ensures PieceAt(c, ptr, text, lo', hi')
  {
    PieceAtSame(b, c, ptr, text, lo, hi);
  }

  lemma ElementAtWithin(b: seq<char>, c: seq<char>, slot: Slot, e: Element, lo: nat, hi: int, lo': nat, hi': int)
    requires ElementAt(b, slot, e, lo, hi) && lo' <= lo && hi <= hi' && hi < |b| == |c|
    requires forall k | lo <= k <= hi :: b[k] == c[k]
    ensures ElementAt(c, slot, e, lo', hi')
  {
    if slot.LiteralAt? {
      PieceAtWithin(b, c, slot.start, e.text, lo, hi, lo', hi');
    } else {
      forall j | 0 <= j < |e.path.parents| ensures PieceAt(c, slot.parents[j], e.path.parents[j], lo', hi') {
        PieceAtWithin(b, c, slot.parents[j], e.path.parents[j], lo, hi, lo', hi');
      }
      PieceAtWithin(b, c, slot.name, e.path.name, lo, hi, lo', hi');
    }
  }

  /** What a search finds, by position in the buffer. */
  lemma SearchSpec(b: seq<char>, p: nat, pat: string)
    requires Terminated(b, p)
    ensures var r, e := StrStr(b, p, pat), End(b, p);
            if r == NULL then forall j | p <= j && j + |pat| <= e :: !Occurs(pat, b, j)
            else p <= r && r + |pat| <= e && Occurs(pat, b, r) && forall j | p <= j < r :: !Occurs(pat, b, j)
  {
    var e, t := End(b, p), Text(b, p);
    FindSpec(pat, t);
    var r := Find(pat, t);
    if r != -1 { OccursInSlice(pat, b, p, e, r); }
    forall j | p <= j && j + |pat| <= e && (r == -1 || j < p + r) ensures !Occurs(pat, b, j) {
      OccursInSlice(pat, b, p, e, j - p);
    }
  }

  /* The counting pass */

  ghost predicate IsForm(t: string, f: Form) {
    Good(f) && Flat(f) == t
  }

  /** Where the first property of a text is. */
  lemma MarkInText(t: string, f: Form)
    requires IsForm(t, f) && !f.Final?
    ensures var x := |f.text|; var y := x + 1 + |f.tag|;
            y < |t| && Find(OPENER, t) == x && Occurs(OPENER, t, x) && t[x] == '$' &&
            Find(CLOSER, t[x + 1..]) == y - x - 1
  {
    var x := |f.text|;
    var y := x + 1 + |f.tag|;
    MarkFound(f.text, f.tag, Tail(f));
    MarkSpec(t, x, y);
    FindIs(OPENER, t, x);
    FindIs(CLOSER, t[x + 1..], y - x - 1);
  }

  /** The positions of the marks of the first property, when `f` is the form of the text at `a`. */
  ghost predicate Marks(b: seq<char>, a: nat, f: Form, x: nat, y: nat) {
    && Terminated(b, a) && a <= x < y < End(b, a)
    && x == a + |f.text|
    && StrStr(b, a, OPENER) == x && Occurs(OPENER, b, x)
    && Occurs(CLOSER, b, x)
    && Terminated(b, x + 1) && StrStr(b, x + 1, CLOSER) == y
  }

  lemma MarkAt(b: seq<char>, a: nat, f: Form)
    requires Terminated(b, a) && IsForm(Text(b, a), f) && !f.Final?
    ensures var x := a + |f.text|; Marks(b, a, f, x, x + 1 + |f.tag|)
  {
    OpenerAt(b, a, f);
    CloserAt(b, a, f);
    DollarCloses(b, a + |f.text|);
  }

  lemma OpenerAt(b: seq<char>, a: nat, f: Form)
    requires Terminated(b, a) && IsForm(Text(b, a), f) && !f.Final?
    ensures var x := a + |f.text|; x < |b| && StrStr(b, a, OPENER) == x && Occurs(OPENER, b, x) && b[x] == '$'
  {
    MarkInText(Text(b, a), f);
    SearchSpec(b, a, OPENER);
    OccursAt(OPENER, b, a + |f.text|, 0);
  }

  lemma CloserAt(b: seq<char>, a: nat, f: Form)
    requires Terminated(b, a) && IsForm(Text(b, a), f) && !f.Final?
    ensures var x := a + |f.text|; var y := x + 1 + |f.tag|;
            y < End(b, a) && Terminated(b, x + 1) && StrStr(b, x + 1, CLOSER) == y
  {
    MarkInText(Text(b, a), f);
    TextFrom(b, a, |f.text| + 1);
  }

  lemma DollarCloses(b: seq<char>, x: nat)
    requires x < |b| && b[x] == '$'
    ensures Occurs(CLOSER, b, x)
  {
    assert b[x..x + 1] == [b[x]];
  }

  /** What the first text, the first property and what follows look like in the buffer. */
  lemma PartsAt(b: seq<char>, a: nat, f: Form)
    requires Terminated(b, a) && IsForm(Text(b, a), f) && !f.Final?
    ensures var x := a + |f.text|; var y := x + 1 + |f.tag|;
            y < End(b, a) && b[a..x] == f.text && b[x + 1..y] == f.tag &&
            Terminated(b, y + 1) && End(b, y + 1) == End(b, a) && Text(b, y + 1) == Tail(f)
  {
    var x := |f.text|;
    var y := x + 1 + |f.tag|;
    PartsOf(f.text, f.tag, Tail(f));
    SliceOfSlice(b, a, End(b, a), 0, x);
    SliceOfSlice(b, a, End(b, a), x + 1, y);
    TextFrom(b, a, y + 1);
  }

  /** One round of the counting pass from `p`, which is at most where the first property opens: the
      round finds that property, or something that closes no later than there. */
  lemma CountRound(b: seq<char>, a: nat, f: Form, p: nat, x: nat, y: nat)
    requires Marks(b, a, f, x, y)
    requires p <= x && Terminated(b, p) && End(b, p) == End(b, a)
    ensures var o := StrStr(b, p, OPENER);
            p <= o <= x && Terminated(b, o + 1) && End(b, o + 1) == End(b, a) &&
            var q := StrStr(b, o + 1, CLOSER);
            if o == x then q == y else o < q <= x
  {
    SearchSpec(b, p, OPENER);
    var o := StrStr(b, p, OPENER);
    TextFrom(b, p, o + 1 - p);
    SearchSpec(b, o + 1, CLOSER);
  }

  /** The state of the counting pass: `f` is the form of the text at `a`, whose first property opens
      at `p` or further right, and the chunks in front of `a` were counted. */
  ghost predicate Counting(b: seq<char>, e: nat, total: nat, n: nat, a: nat, f: Form, p: nat) {
    && Terminated(b, a) && End(b, a) == e && IsForm(Text(b, a), f)
    && Terminated(b, p) && End(b, p) == e
    && total <= n + Size(f)
    && (f.Final? || p <= a + |f.text|)
  }

  /** The state after one more round, which counted two and resumes at the closing mark `q`. */
  lemma CountOn(b: seq<char>, e: nat, total: nat, n: nat, a: nat, f: Form, p: nat, q: nat)
      returns (a': nat, f': Form)
    requires Counting(b, e, total, n, a, f, p)
    requires p <= q && q + 1 < e && (f.Final? || q <= a + |f.text| || q == a + |f.text| + 1 + |f.tag|)
    ensures Counting(b, e, total, n + 2, a', f', q)
  {
    TextFrom(b, p, q - p);
    a', f' := a, f;
    if !f.Final? {
      PartsAt(b, a, f);
      if q > a + |f.text| { a', f' := q + 1, f.rest; }
    }
  }

  lemma OpenerInside(b: seq<char>, p: nat)
    requires Terminated(b, p)
    ensures var o := StrStr(b, p, OPENER);
            o == NULL || (p <= o < End(b, p) && Terminated(b, o + 1) && End(b, o + 1) == End(b, p))
  {
    SearchSpec(b, p, OPENER);
    var o := StrStr(b, p, OPENER);
    if o != NULL { TextFrom(b, p, o + 1 - p); }
  }

  /** What the searches of one round find. */
  lemma CountFinds(b: seq<char>, e: nat, total: nat, n: nat, a: nat, f: Form, p: nat)
    requires Counting(b, e, total, n, a, f, p)
    ensures var o := StrStr(b, p, OPENER);
            if o == NULL then f.Final? else
            p <= o < e && Terminated(b, o + 1) && End(b, o + 1) == e && var q := StrStr(b, o + 1, CLOSER);
            f.Final? || (q != NULL && (q <= a + |f.text| || q == a + |f.text| + 1 + |f.tag|))
  {
    if f.Final? {
      OpenerInside(b, p);
    } else {
      MarkAt(b, a, f);
      CountRound(b, a, f, p, a + |f.text|, a + |f.text| + 1 + |f.tag|);
    }
  }

  /** The counting pass. It resumes its search at the closing mark it found, not behind it. */
  method CountElements(buf: array<char>, ghost f0: Form) returns (n: nat)
    requires Terminated(buf[..], 0) && IsForm(Text(buf[..], 0), f0)
    ensures Size(f0) <= n + 1
  {
    ghost var b, e := buf[..], End(buf[..], 0);
    ghost var a, f := 0, f0;
    n := 0;
    var p := 0;
    while true
      invariant Counting(b, e, Size(f0), n, a, f, p)
      decreases e - p
    {
      CountFinds(b, e, Size(f0), n, a, f, p);
      var o := Search(buf, p, OPENER);
      if o == NULL { break; }
      var q := Search(buf, o + 1, CLOSER);
      if q == NULL { break; }
      n := n + 1;
      if buf[q + 1] == NUL {
        LastProperty(b, a, f, q);
        break;
      }
      a, f := CountOn(b, e, Size(f0), n - 1, a, f, p, q);
      n := n + 1;
      p := q;
    }
  }

  /** A closing mark at the very end closes the last property. */
  lemma LastProperty(b: seq<char>, a: nat, f: Form, q: nat)
    requires Terminated(b, a) && IsForm(Text(b, a), f) && q + 1 == End(b, a)
    requires f.Final? || q <= a + |f.text| || q == a + |f.text| + 1 + |f.tag|
    ensures Size(f) <= 2
  {
    if !f.Final? { PartsAt(b, a, f); }
  }

  /* The filling pass */

  /** The state of the filling pass: the slots of `done` are complete, the next one is plain text that
      starts at `p`, and `f` is the form of the text from there on. */
  ghost predicate Filling(b: seq<char>, e: nat, slots: seq<Slot>, done: seq<Element>, f: Form, p: nat) {
    var state :=
      && |done| + Size(f) <= |slots|
      && Filled(b, slots, done, p - 1)
      && slots[|done|] == LiteralAt(p)
      && Terminated(b, p) && End(b, p) == e
      && IsForm(Text(b, p), f);
    state
  }

  /** Both cuts of a round, and the property parser on what they leave between them. */
  method CutAndParse(buf: array<char>, o: nat, q: nat, ghost b: seq<char>, ghost p: nat, ghost tag: string)
    returns (parents: array<int>, name: int)
    requires buf[..] == b && Terminated(b, p) && p <= o < q < End(b, p) && b[o + 1..q] == tag
    modifies buf
    ensures fresh(parents)
    ensures name == NULL <==> ParsePath(tag).None?
    ensures name != NULL ==> PathAt(buf[..], parents[..], name, ParsePath(tag).value, o + 1, q)
    ensures buf[o] == NUL == buf[q] && forall k | 0 <= k < |b| && !(o <= k <= q) :: buf[k] == b[k]
  {
    TagCells(b, p, o, q, tag);
    buf[q] := NUL;
    buf[o] := NUL;
    assert buf[..] == b[q := NUL][o := NUL];
    parents, name := ParsePropertyName(buf, o + 1);
  }

  lemma TagCells(b: seq<char>, p: nat, o: nat, q: nat, tag: string)
    requires Terminated(b, p) && p <= o < q < End(b, p) && b[o + 1..q] == tag
    ensures var c := b[q := NUL][o := NUL];
            Terminated(c, o + 1) && End(c, o + 1) == q && Text(c, o + 1) == tag
  {
    var c := b[q := NUL][o := NUL];
    EndIs(c, o + 1, q);
    assert c[o + 1..q] == b[o + 1..q];
  }

  /** A round completes two slots, in a buffer that the round left alone in front of the text. */
  lemma SlotsFilled(b: seq<char>, c: seq<char>, slots: seq<Slot>, done: seq<Element>, p: nat, o: nat, q: nat,
                    text: string, parents: seq<int>, name: int, path: Path)
    requires |done| + 2 <= |slots| && Filled(b, slots, done, p - 1) && slots[|done|] == LiteralAt(p)
    requires p <= o < q < |b| == |c| && forall k | 0 <= k < p :: c[k] == b[k]
    requires PieceAt(c, p, text, p, o) && PathAt(c, parents, name, path, o + 1, q)
    ensures Filled(c, slots[|done| + 1 := PropertyAt(parents, name)], done + [Literal(text), Property(path)], q)
  {
    var n, next, all := |done|, slots[|done| + 1 := PropertyAt(parents, name)], done + [Literal(text), Property(path)];
    forall i | 0 <= i < n + 2 ensures ElementAt(c, next[i], all[i], 0, q) {
      if i < n {
        ElementAtWithin(b, c, slots[i], done[i], 0, p - 1, 0, q);
      } else if i == n {
        PieceAtWithin(c, c, p, text, p, o, 0, q);
      } else {
        ElementAtWithin(c, c, next[i], Property(path), o + 1, q, 0, q);
      }
    }
  }

  /** What a round leaves alone: the text behind the property, and the plain text in front of it. */
  lemma RoundKeeps(b: seq<char>, c: seq<char>, p: nat, o: nat, q: nat, f: Form)
    requires Terminated(b, p) && IsForm(Text(b, p), f) && !f.Final?
    requires o == p + |f.text| && q == o + 1 + |f.tag| && q < |b| == |c|
    requires c[o] == NUL && forall k | 0 <= k < |b| && !(o <= k <= q) :: c[k] == b[k]
    ensures PieceAt(c, p, f.text, p, o)
    ensures q < End(b, p) && Terminated(c, q + 1) && End(c, q + 1) == End(b, p) && Text(c, q + 1) == Tail(f)
  {
    PartsAt(b, p, f);
    EndIs(c, p, o);
    assert c[p..o] == b[p..o];
    TextSame(b, c, q + 1);
  }

  /** What a round of the filling pass leaves when it completed a text and a property. */
  ghost predicate Behind(b: seq<char>, e: nat, slots: seq<Slot>, done: seq<Element>, rest: string, q: nat) {
    && Filled(b, slots, done, q)
    && q < e && Terminated(b, q + 1) && End(b, q + 1) == e && Text(b, q + 1) == rest
  }

  ghost function Both(f: Form): seq<Element>
    requires !f.Final? && ParsePath(f.tag).Some?
  {
    [Literal(f.text), Property(ParsePath(f.tag).value)]
  }

  lemma RoundDone(b: seq<char>, c: seq<char>, e: nat, slots: seq<Slot>, done: seq<Element>, f: Form, p: nat,
                  o: nat, q: nat, parents: seq<int>, name: int)
    requires Filling(b, e, slots, done, f, p) && !f.Final? && ParsePath(f.tag).Some?
    requires o == p + |f.text| && q == o + 1 + |f.tag| && q < |b| == |c|
    requires c[o] == NUL && forall k | 0 <= k < |b| && !(o <= k <= q) :: c[k] == b[k]
    requires PathAt(c, parents, name, ParsePath(f.tag).value, o + 1, q)
    ensures |done| + 1 < |slots|
    ensures Behind(c, e, slots[|done| + 1 := PropertyAt(parents, name)], done + Both(f), Tail(f), q)
  {
    RoundKeeps(b, c, p, o, q, f);
    SlotsFilled(b, c, slots, done, p, o, q, f.text, parents, name, ParsePath(f.tag).value);
  }

  /** One round: both cuts, the property parser, and the property's slot. */
  method FillOne(buf: array<char>, elements: array<Slot>, n: nat, o: nat, q: nat, ghost b: seq<char>, ghost slots: seq<Slot>,
                 ghost e: nat, ghost done: seq<Element>, ghost f: Form, ghost p: nat) returns (ok: bool)
    requires buf[..] == b && elements[..] == slots && n == |done|
    requires Filling(b, e, slots, done, f, p) && !f.Final?
    requires o == p + |f.text| && q == o + 1 + |f.tag|
    modifies buf, elements
    ensures ok <==> ParsePath(f.tag).Some?
    ensures ok ==> Behind(buf[..], e, elements[..], done + Both(f), Tail(f), q)
  {
    PartsAt(b, p, f);
    var parents, name := CutAndParse(buf, o, q, b, p, f.tag);
    ghost var c := buf[..];
    if name == NULL {
      return false;
    }
    RoundDone(b, c, e, slots, done, f, p, o, q, parents[..], name);
    ghost var next := slots[n + 1 := PropertyAt(parents[..], name)];
    elements[n + 1] := PropertyAt(parents[..], name);
    assert elements[..] == next && buf[..] == c;
    return true;
  }

  /** What the two searches of a round find. */
  lemma RoundFinds(b: seq<char>, p: nat, f: Form)
    requires Terminated(b, p) && IsForm(Text(b, p), f)
    ensures var o := StrStr(b, p, OPENER);
            if o == NULL then f.Final? else
            p <= o < End(b, p) && Terminated(b, o + 1) && var q := StrStr(b, o + 1, CLOSER);
            if q == NULL then f.Final?
            else !f.Final? && o == p + |f.text| && q == o + 1 + |f.tag|
  {
    SearchSpec(b, p, OPENER);
    if f.Final? {
      var o := StrStr(b, p, OPENER);
      if o != NULL {
        TextFrom(b, p, o + 1 - p);
        FindSpec(CLOSER, Text(b, o + 1));
      }
    } else {
      MarkAt(b, p, f);
    }
  }

  /** How a round of the filling pass ends: without a property, with one that is refused, or with
      both slots of a property and its text complete. */
  datatype Round = NoProperty | Refused | Complete

  method FillNext(buf: array<char>, elements: array<Slot>, n: nat, p: nat, ghost b: seq<char>, ghost slots: seq<Slot>,
                  ghost e: nat, ghost done: seq<Element>, ghost f: Form)
    returns (round: Round, q: nat, ghost c: seq<char>, ghost next: seq<Slot>)
    requires buf[..] == b && elements[..] == slots && n == |done|
    requires Filling(b, e, slots, done, f, p)
    modifies buf, elements
    ensures buf[..] == c && elements[..] == next && |next| == |slots|
    ensures round.NoProperty? <==> f.Final?
    ensures round.NoProperty? ==> c == b && next == slots
    ensures round.Refused? ==> ParsePath(f.tag).None?
    ensures round.Complete? ==> p <= q && ParsePath(f.tag).Some? && Behind(c, e, next, done + Both(f), Tail(f), q)
  {
    RoundFinds(b, p, f);
    q := 0;
    var o := Search(buf, p, OPENER);
    c, next := b, slots;
    assert buf[..] == c && elements[..] == next;
    if o == NULL {
      round := NoProperty;
      return;
    }
    var hit := Search(buf, o + 1, CLOSER);
    assert buf[..] == c && elements[..] == next;
    if hit == NULL {
      round := NoProperty;
      return;
    }
    q := hit;
    var ok := FillOne(buf, elements, n, o, q, b, slots, e, done, f, p);
    c, next := buf[..], elements[..];
    round := if ok then Complete else Refused;
  }

  method PutLiteral(buf: array<char>, elements: array<Slot>, n: nat, p: nat, ghost b: seq<char>, ghost slots: seq<Slot>)
    requires buf[..] == b && elements[..] == slots && n < |slots|
    modifies elements
    ensures buf[..] == b && elements[..] == slots[n := LiteralAt(p)]
  {
    elements[n] := LiteralAt(p);
  }

  lemma FilledTo(b: seq<char>, slots: seq<Slot>, done: seq<Element>, hi: int, hi': int)
    requires Filled(b, slots, done, hi) && hi <= hi' && hi < |b|
    ensures Filled(b, slots, done, hi')
  {
    forall i | 0 <= i < |done| ensures ElementAt(b, slots[i], done[i], 0, hi') {
      ElementAtWithin(b, b, slots[i], done[i], 0, hi, 0, hi');
    }
  }

  /** A text behind a property starts a literal. */
  lemma NextFilling(b: seq<char>, e: nat, slots: seq<Slot>, done: seq<Element>, f: Form, q: nat)
    requires Behind(b, e, slots, done, Flat(f), q) && Good(f) && |done| + Size(f) <= |slots|
    ensures Filling(b, e, slots[|done| := LiteralAt(q + 1)], done, f, q + 1)
  {
  }

  /** What is read so far, and what the rest adds to it. */
  ghost function Append(done: seq<Element>, rest: Option<seq<Element>>): Option<seq<Element>> {
    if rest.None? then None else Some(done + rest.value)
  }

  lemma ReadAll(f: Form)
    ensures Append([], Read(f)) == Read(f)
  {
    if Read(f).Some? { assert [] + Read(f).value == Read(f).value; }
  }

  lemma ReadOn(done: seq<Element>, f: Form)
    requires !f.Final? && ParsePath(f.tag).Some?
    ensures Append(done, Read(f)) == if f.Closed? then Some(done + Both(f)) else Append(done + Both(f), Read(f.rest))
  {
    var e := Property(ParsePath(f.tag).value);
    if f.Closed? {
      Regroup(done, Literal(f.text), e, []);
    } else if Read(f.rest).Some? {
      Regroup(done, Literal(f.text), e, Read(f.rest).value);
    }
  }

  lemma Regroup(done: seq<Element>, x: Element, y: Element, rest: seq<Element>)
    ensures done + ([x] + [y] + rest) == done + [x, y] + rest
    ensures done + ([x] + [y] + []) == done + [x, y]
  {
  }

  /** The invariant of the filling pass over a command of form `f0`. */
  ghost predicate FillingOf(b: seq<char>, e: nat, slots: seq<Slot>, done: seq<Element>, f: Form, p: nat, f0: Form) {
    Filling(b, e, slots, done, f, p) && Read(f0) == Append(done, Read(f))
  }

  /** Without another property, the literal that is open is the last element. */
  lemma LastSlot(b: seq<char>, e: nat, slots: seq<Slot>, done: seq<Element>, f: Form, p: nat, f0: Form)
    requires FillingOf(b, e, slots, done, f, p, f0) && f.Final?
    ensures Read(f0) == Some(done + [Literal(f.text)]) && Filled(b, slots, done + [Literal(f.text)], e)
  {
    LastFilled(b, e, slots, done, f, p);
  }

  lemma LastFilled(b: seq<char>, e: nat, slots: seq<Slot>, done: seq<Element>, f: Form, p: nat)
    requires Filling(b, e, slots, done, f, p) && f.Final?
    ensures Filled(b, slots, done + [Literal(f.text)], e)
  {
    FilledTo(b, slots, done, p - 1, e);
    var all := done + [Literal(f.text)];
    forall i | 0 <= i < |all| ensures ElementAt(b, slots[i], all[i], 0, e) {
      if i < |done| { assert all[i] == done[i]; }
    }
  }

  lemma RefusedRound(done: seq<Element>, f: Form, f0: Form)
    requires Read(f0) == Append(done, Read(f)) && !f.Final? && ParsePath(f.tag).None?
    ensures Read(f0).None?
  {
  }

  /** After a complete round, the command either ends or the pass goes on behind the property. */
  lemma AfterRound(b: seq<char>, e: nat, slots: seq<Slot>, done: seq<Element>, f: Form, f0: Form, q: nat)
    requires !f.Final? && ParsePath(f.tag).Some? && Good(f) && |done| + Size(f) <= |slots|
    requires Read(f0) == Append(done, Read(f))
    requires Behind(b, e, slots, done + Both(f), Tail(f), q)
    ensures q + 1 < |b|
    ensures b[q + 1] == NUL ==> Read(f0) == Some(done + Both(f)) && Filled(b, slots, done + Both(f), e)
    ensures b[q + 1] != NUL ==> f.More? && |done| + 2 < |slots| &&
                                FillingOf(b, e, slots[|done| + 2 := LiteralAt(q + 1)], done + Both(f), f.rest, q + 1, f0)
  {
    ReadOn(done, f);
    if b[q + 1] == NUL {
      FilledTo(b, slots, done + Both(f), q, e);
    } else {
      NextFilling(b, e, slots, done + Both(f), f.rest, q);
    }
  }

  /** One round of the filling pass: the end of the command or of the parser, or the next literal. */
  method FillRound(buf: array<char>, elements: array<Slot>, n: nat, p: nat, ghost b: seq<char>, ghost slots: seq<Slot>,
                   ghost e: nat, ghost done: seq<Element>, ghost f: Form, ghost f0: Form)
    returns (finished: bool, ok: bool, q: nat, ghost c: seq<char>, ghost next: seq<Slot>)
    requires buf[..] == b && elements[..] == slots && n == |done|
    requires FillingOf(b, e, slots, done, f, p, f0)
    modifies buf, elements
    ensures finished ==> (ok <==> Read(f0).Some?)
    ensures finished && ok ==> q == |Read(f0).value| && Filled(buf[..], elements[..], Read(f0).value, e)
    ensures !finished ==> buf[..] == c && elements[..] == next && f.More? && ParsePath(f.tag).Some?
    ensures !finished ==> p < q <= e && FillingOf(c, e, next, done + Both(f), f.rest, q, f0)
  {
    var round;
    round, q, c, next := FillNext(buf, elements, n, p, b, slots, e, done, f);
    finished, ok := true, true;
    if round.NoProperty? {
      LastSlot(b, e, slots, done, f, p, f0);
      q := n + 1;
    } else if round.Refused? {
      RefusedRound(done, f, f0);
      ok := false;
    } else {
      finished, q, next := NextLiteral(buf, elements, n, q, c, next, e, done, f, f0);
    }
  }

  /** What follows a complete round: the end of the command, or the next literal. */
  method NextLiteral(buf: array<char>, elements: array<Slot>, n: nat, q0: nat, ghost c: seq<char>, ghost slots: seq<Slot>,
                     ghost e: nat, ghost done: seq<Element>, ghost f: Form, ghost f0: Form)
    returns (finished: bool, q: nat, ghost next: seq<Slot>)
    requires buf[..] == c && elements[..] == slots && n == |done|
    requires !f.Final? && ParsePath(f.tag).Some? && Good(f) && |done| + Size(f) <= |slots|
    requires Read(f0) == Append(done, Read(f))
    requires Behind(c, e, slots, done + Both(f), Tail(f), q0)
    modifies elements
    ensures buf[..] == c && elements[..] == next
    ensures finished ==> Read(f0).Some? && q == |Read(f0).value| && Filled(c, next, Read(f0).value, e)
    ensures !finished ==> f.More? && q == q0 + 1 && FillingOf(c, e, next, done + Both(f), f.rest, q, f0)
  {
    AfterRound(c, e, slots, done, f, f0, q0);
    next := slots;
    finished := buf[q0 + 1] == NUL;
    if finished {
      q := n + 2;
    } else {
      next := slots[n + 2 := LiteralAt(q0 + 1)];
      PutLiteral(buf, elements, n + 2, q0 + 1, c, slots);
      q := q0 + 1;
    }
  }

  /** The rounds of the filling pass, from the first literal on. */
  method FillRounds(buf: array<char>, elements: array<Slot>, ghost f0: Form, ghost b0: seq<char>, ghost slots0: seq<Slot>, ghost e: nat)
    returns (ok: bool, size: nat)
    requires buf[..] == b0 && elements[..] == slots0 && FillingOf(b0, e, slots0, [], f0, 0, f0)
    modifies buf, elements
    ensures ok <==> Read(f0).Some?
    ensures ok ==> size == |Read(f0).value| && Filled(buf[..], elements[..], Read(f0).value, e)
  {
    ghost var b, slots := b0, slots0;
    ghost var f, done: seq<Element> := f0, [];
    var n, p := 0, 0;
    while true
      invariant buf[..] == b && elements[..] == slots && n == |done|
      invariant FillingOf(b, e, slots, done, f, p, f0)
      decreases e - p
    {
      var finished, q;
      finished, ok, q, b, slots := FillRound(buf, elements, n, p, b, slots, e, done, f, f0);
      if finished {
        return ok, q;
      }
      done, f := done + Both(f), f.rest;
      n, p := n + 2, q;
    }
  }

  /** The filling pass. Every slot it writes is within the array that the counting pass sized. */
  method FillElements(buf: array<char>, elements: array<Slot>, ghost f0: Form, ghost b0: seq<char>)
    returns (ok: bool, size: nat)
    requires buf[..] == b0 && Terminated(b0, 0) && IsForm(Text(b0, 0), f0) && Size(f0) <= elements.Length
    modifies buf, elements
    ensures ok <==> Read(f0).Some?
    ensures ok ==> size == |Read(f0).value| && Filled(buf[..], elements[..], Read(f0).value, End(b0, 0))
  {
    ReadAll(f0);
    ghost var slots := elements[..][0 := LiteralAt(0)];
    PutLiteral(buf, elements, 0, 0, b0, elements[..]);
    ok, size := FillRounds(buf, elements, f0, b0, slots, End(b0, 0));
  }

  /** The whole parser, on a copy of the command in a buffer of its own. It succeeds exactly on the
      commands that denote a list of elements, and its slots then read that list. */
  method NewExec(buf: array<char>) returns (ok: bool, elements: array<Slot>, size: nat)
    requires Terminated(buf[..], 0)
    modifies buf
    ensures ok <==> exists l :: IsTemplate(old(Text(buf[..], 0)), l)
    ensures ok ==> forall l | IsTemplate(old(Text(buf[..], 0)), l) ::
              size == |l| && Filled(buf[..], elements[..], l, old(End(buf[..], 0)))
  {
    ghost var s, e := Text(buf[..], 0), End(buf[..], 0);
    ghost var c := SplitExists(s);
    ghost var f := FormOf(c);
    ReadIsDecode(f);
    TemplateExists(s, c);
    elements := new Slot[0];
    var refused := OpensWithProperty(buf);
    if refused {
      return false, elements, 0;
    }
    var count := CountElements(buf, f);
    elements := new Slot[count + 1](i => Empty);
    ok, size := FillElements(buf, elements, f, buf[..]);
    if ok {
      forall l | IsTemplate(s, l) ensures l == Decoded(c) { TemplateUnique(l, Decoded(c)); }
    }
  }

  method OpensWithProperty(buf: array<char>) returns (r: bool)
    requires Terminated(buf[..], 0)
    ensures r <==> OPENER <= Text(buf[..], 0)
  {
    ghost var s := Text(buf[..], 0);
    r := buf[0] == '$' && buf[1] == 'h' && buf[2] == 'a' && buf[3] == 'l' && buf[4] == '.';
    assert |s| >= 5 ==> s[..5] == [s[0], s[1], s[2], s[3], s[4]];
    assert OPENER <= s <==> |s| >= 5 && s[..5] == OPENER;
  }
}
