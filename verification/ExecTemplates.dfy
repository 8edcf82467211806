/** Command templates: literal text with `$hal.path$` properties in it. First the text is split into
    chunks at the marks, then each tag is read as a property path. */
module ExecTemplates {
  import opened Options
  import opened CStrings
  import opened PropertyPaths

  const OPENER := "$hal."
  const CLOSER := "$"

  datatype Chunk = Plain(text: string) | Tag(text: string)
  datatype Element = Literal(text: string) | Property(path: Path)

  /** Where a property opens and closes. */
  datatype Mark = Mark(open: nat, close: nat)

  /** The first property of a text: an opening mark and the next '$' behind it. */
  ghost function NextMark(s: string): (m: Option<Mark>)
    ensures m.Some? ==> m.value.open < m.value.close < |s|
  {
    FindSpec(OPENER, s);
    var o := Find(OPENER, s);
    if o == -1 then None else
    FindSpec(CLOSER, s[o + 1..]);
    var q := Find(CLOSER, s[o + 1..]);
    if q == -1 then None else Some(Mark(o, o + 1 + q))
  }

  ghost function Decode(c: Chunk): Option<Element> {
    match c
    case Plain(text) => Some(Literal(text))
    case Tag(text) => if ParsePath(text).None? then None else Some(Property(ParsePath(text).value))
  }

  ghost predicate AllDecode(l: seq<Chunk>) {
    forall i | 0 <= i < |l| :: Decode(l[i]).Some?
  }

  ghost function Decoded(l: seq<Chunk>): (r: seq<Element>)
    requires AllDecode(l)
    ensures |r| == |l|
  {
    seq(|l|, i requires 0 <= i < |l| => Decode(l[i]).value)
  }

  function Encode(e: Element): Chunk {
    match e
    case Literal(text) => Plain(text)
    case Property(path) => Tag(Render(path))
  }

  function Encoded(l: seq<Element>): (r: seq<Chunk>)
    ensures |r| == |l|
  {
    seq(|l|, i requires 0 <= i < |l| => Encode(l[i]))
  }

  function Flatten(l: seq<Chunk>): string {
    if l == [] then "" else
    match l[0]
    case Plain(text) => text + Flatten(l[1..])
    case Tag(text) => "$" + text + "$" + Flatten(l[1..])
  }

  function RenderExec(l: seq<Element>): string {
    Flatten(Encoded(l))
  }

  ghost predicate IsTag(c: Chunk) {
    c.Tag? && |c.text| >= 4 && c.text[..4] == PREFIX && Absent(CLOSER, c.text)
  }

  /** Plain text and tags alternate, plain text first. Only the last text may hold an opening mark,
      which then is not closed; a last text behind a tag is not empty. */
  ghost predicate Alternating(l: seq<Chunk>) {
    |l| > 0 && l[0].Plain? &&
    if |l| == 1 then NextMark(l[0].text).None?
    else Absent(OPENER, l[0].text) && IsTag(l[1]) &&
         (|l| == 2 || (l[2..] != [Plain("")] && Alternating(l[2..])))
  }

  /** The chunks of a text: the only alternating list that flattens to it. */
  ghost predicate IsSplit(s: string, l: seq<Chunk>) {
    Alternating(l) && Flatten(l) == s
  }

  /** Paths print as themselves, chunks alternate, and no property stands at the very start. */
  ghost predicate WellFormedExec(l: seq<Element>) {
    && Alternating(Encoded(l))
    && (forall i | 0 <= i < |l| && l[i].Property? :: WellFormed(l[i].path))
    && !(OPENER <= RenderExec(l))
  }

  /** The elements that a command denotes, if it is accepted: a well-formed list that prints as the
      command. */
  ghost predicate IsTemplate(s: string, l: seq<Element>) {
    WellFormedExec(l) && RenderExec(l) == s
  }

  /* Marks */

  lemma MarkSpec(s: string, o: nat, q: nat)
    requires NextMark(s) == Some(Mark(o, q))
    ensures FirstAt(OPENER, s, o) && FirstAt(CLOSER, s[o + 1..], q - o - 1)
    ensures Absent(OPENER, s[0..o])
    ensures IsTag(Tag(s[o + 1..q]))
    ensures s[o] == '$' == s[q]
  {
    FindSpec(OPENER, s);
    AbsentBefore(OPENER, s, 0);
    assert s[0..o + 0] == s[0..o];
    var t := s[o + 1..];
    FindSpec(CLOSER, t);
    AbsentBefore(CLOSER, t, 0);
    assert t[0..q - o - 1] == s[o + 1..q];
    OccursAt(OPENER, s, o, 0);
    OccursAt(CLOSER, t, q - o - 1, 0);
    TagStartsWithPrefix(s, o, q);
  }

  lemma TagStartsWithPrefix(s: string, o: nat, q: nat)
    requires o < q < |s| && Occurs(OPENER, s, o) && s[q] == '$'
    ensures q >= o + 5 && s[o + 1..q][..4] == PREFIX
  {
    OccursAt(OPENER, s, o, 1);
    OccursAt(OPENER, s, o, 2);
    OccursAt(OPENER, s, o, 3);
    OccursAt(OPENER, s, o, 4);
    assert q != o + 1 && q != o + 2 && q != o + 3 && q != o + 4;
    assert s[o + 1..q][..4] == ['h', 'a', 'l', '.'];
  }

  lemma MarkIs(s: string, o: nat, q: nat)
    requires o < q < |s| && FirstAt(OPENER, s, o) && FirstAt(CLOSER, s[o + 1..], q - o - 1)
    ensures NextMark(s) == Some(Mark(o, q))
  {
    FindIs(OPENER, s, o);
    FindIs(CLOSER, s[o + 1..], q - o - 1);
  }

  /* Splitting and flattening */

  lemma FlattenTwo(text: string, tag: string, rest: seq<Chunk>)
    ensures Flatten([Plain(text), Tag(tag)] + rest) == text + "$" + tag + "$" + Flatten(rest)
  {
    var l := [Plain(text), Tag(tag)] + rest;
    assert l[1..] == [Tag(tag)] + rest;
    assert l[1..][1..] == rest;
    assert Flatten(l[1..]) == "$" + tag + "$" + Flatten(rest);
  }

  lemma FlattenOne(text: string)
    ensures Flatten([Plain(text)]) == text
  {
    assert [Plain(text)][1..] == [];
  }

  /** Every text has a split. */
  lemma {:induction false} SplitExists(s: string) returns (l: seq<Chunk>)
    ensures IsSplit(s, l)
    decreases |s|
  {
    var m := NextMark(s);
    if m.None? {
      l := [Plain(s)];
      FlattenOne(s);
    } else {
      var o, q := m.value.open, m.value.close;
      MarkSpec(s, o, q);
      var rest := s[q + 1..];
      var tail := [];
      if rest != "" {
        tail := SplitExists(rest);
        FlattenOne("");
      }
      l := [Plain(s[0..o]), Tag(s[o + 1..q])] + tail;
      FlattenTwo(s[0..o], s[o + 1..q], tail);
      assert l[2..] == tail;
      assert s[0..o] + "$" + s[o + 1..q] + "$" + rest == s;
    }
  }

  /** In `text $ r $ rest` the first property is `r`. */
  lemma MarkFound(text: string, r: string, rest: string)
    requires Absent(OPENER, text) && IsTag(Tag(r))
    ensures NextMark(text + "$" + r + "$" + rest) == Some(Mark(|text|, |text| + 1 + |r|))
  {
    var s := text + "$" + r + "$" + rest;
    OpenerFound(text, r, s);
    var t := r + "$" + rest;
    assert s[|text| + 1..] == t;
    assert t[|r|..|r| + 1] == CLOSER;
    assert t[0..|r|] == r;
    forall j | 0 <= j < |r| ensures !Occurs(CLOSER, t, j) {
      OccursInSlice(CLOSER, t, 0, |r|, j);
    }
    MarkIs(s, |text|, |text| + 1 + |r|);
  }

  lemma OpenerFound(text: string, r: string, s: string)
    requires Absent(OPENER, text) && |r| >= 4 && r[..4] == PREFIX
    requires text + "$" + r <= s
    ensures FirstAt(OPENER, s, |text|)
  {
    var o := |text|;
    var t := "$" + r;
    assert s[0..o] == text;
    assert s[o..o + |t|] == t;
    assert t[0..5] == "$" + r[..4] == OPENER;
    SliceOfSlice(s, o, o + |t|, 0, 5);
    assert Occurs(OPENER, s, o);
    forall j | 0 <= j < o ensures !Occurs(OPENER, s, j) {
      if j + 5 <= o {
        OccursInSlice(OPENER, s, 0, o, j);
      } else if Occurs(OPENER, s, j) {
        OccursAt(OPENER, s, j, o - j);
        OccursAt(OPENER, s, o, 0);
      }
    }
  }

  /** The first mark of a split text is where the list says it is. */
  lemma {:induction false} FirstMark(l: seq<Chunk>)
    requires Alternating(l)
    ensures var o := |l[0].text|;
            NextMark(Flatten(l)) == if |l| == 1 then None else Some(Mark(o, o + 1 + |l[1].text|))
    ensures |l| > 1 ==> Flatten(l) == l[0].text + "$" + l[1].text + "$" + Flatten(l[2..])
    ensures |l| > 2 ==> Flatten(l[2..]) != ""
  {
    if |l| == 1 {
      assert l == [Plain(l[0].text)];
      FlattenOne(l[0].text);
    } else {
      var rest := l[2..];
      assert l == [Plain(l[0].text), Tag(l[1].text)] + rest;
      FlattenTwo(l[0].text, l[1].text, rest);
      MarkFound(l[0].text, l[1].text, Flatten(rest));
      if |l| > 2 { FlattenNonEmpty(rest); }
    }
  }

  /** A text has one split only. */
  lemma {:induction false} SplitUnique(l: seq<Chunk>, k: seq<Chunk>)
    requires Alternating(l) && Alternating(k) && Flatten(l) == Flatten(k)
    ensures l == k
  {
    FirstMark(l);
    FirstMark(k);
    if |l| == 1 {
      FlattenOne(l[0].text);
      FlattenOne(k[0].text);
      assert l == [Plain(l[0].text)] && k == [Plain(k[0].text)];
    } else {
      SameHead(l[0].text, l[1].text, Flatten(l[2..]), k[0].text, k[1].text, Flatten(k[2..]));
      assert l == [l[0], l[1]] + l[2..];
      assert k == [k[0], k[1]] + k[2..];
      if |l| > 2 {
        SplitUnique(l[2..], k[2..]);
      }
    }
  }

  lemma SameHead(a: string, b: string, c: string, x: string, y: string, z: string)
    requires a + "$" + b + "$" + c == x + "$" + y + "$" + z && |a| == |x| && |b| == |y|
    ensures a == x && b == y && c == z
  {
    PartsOf(a, b, c);
    PartsOf(x, y, z);
  }

  lemma PartsOf(text: string, tag: string, t: string)
    ensures var s, q := text + "$" + tag + "$" + t, |text| + 1 + |tag|;
            s[0..|text|] == text && s[|text| + 1..q] == tag && s[q + 1..] == t
  {
  }

  lemma FlattenNonEmpty(l: seq<Chunk>)
    requires Alternating(l) && l != [Plain("")]
    ensures Flatten(l) != ""
  {
    if |l| == 1 {
      assert l == [Plain(l[0].text)];
      FlattenOne(l[0].text);
    } else {
      assert l == [Plain(l[0].text), Tag(l[1].text)] + l[2..];
      FlattenTwo(l[0].text, l[1].text, l[2..]);
    }
  }

  /* Round trips */

  lemma EncodedDecoded(l: seq<Chunk>)
    requires AllDecode(l)
    ensures Encoded(Decoded(l)) == l
    ensures forall i | 0 <= i < |l| && Decoded(l)[i].Property? :: WellFormed(Decoded(l)[i].path)
  {
    forall i | 0 <= i < |l|
      ensures Encode(Decoded(l)[i]) == l[i]
      ensures Decoded(l)[i].Property? ==> WellFormed(Decoded(l)[i].path)
    {
      if l[i].Tag? { RenderInvertsParse(l[i].text); }
    }
  }

  lemma DecodedEncoded(l: seq<Element>)
    requires forall i | 0 <= i < |l| && l[i].Property? :: WellFormed(l[i].path)
    ensures AllDecode(Encoded(l)) && Decoded(Encoded(l)) == l
  {
    forall i | 0 <= i < |l| ensures Decode(Encoded(l)[i]) == Some(l[i]) {
      if l[i].Property? { ParseInvertsRender(l[i].path); }
    }
  }

  /** A command denotes one list of elements at most. */
  lemma TemplateUnique(l: seq<Element>, k: seq<Element>)
    requires WellFormedExec(l) && WellFormedExec(k) && RenderExec(l) == RenderExec(k)
    ensures l == k
  {
    SplitUnique(Encoded(l), Encoded(k));
    DecodedEncoded(l);
    DecodedEncoded(k);
  }

  /** Which commands denote a list: those that do not open with a property and have an acceptable
      path in every property. The list is the reading of the command's chunks. */
  lemma TemplateExists(s: string, c: seq<Chunk>)
    requires IsSplit(s, c)
    ensures (exists l :: IsTemplate(s, l)) <==> !(OPENER <= s) && AllDecode(c)
    ensures !(OPENER <= s) && AllDecode(c) ==> IsTemplate(s, Decoded(c))
  {
    if AllDecode(c) {
      EncodedDecoded(c);
      if !(OPENER <= s) { assert IsTemplate(s, Decoded(c)); }
    }
    if l :| IsTemplate(s, l) {
      SplitUnique(Encoded(l), c);
      DecodedEncoded(l);
    }
  }

  /** Text, a property, and text again that opens none. */
  lemma PropertyBetweenTexts(text: string, path: Path, tail: string)
    requires text != "" && Absent(OPENER, text) && tail != "" && NextMark(tail).None?
    requires WellFormed(path) && Absent(CLOSER, Render(path))
    ensures IsTemplate(text + "$" + Render(path) + "$" + tail, [Literal(text), Property(path), Literal(tail)])
  {
    var l := [Literal(text), Property(path), Literal(tail)];
    var r := Render(path);
    GlueStartsWithPrefix(Prefixed(path.Pieces()));
    assert Encoded(l) == [Plain(text), Tag(r)] + [Plain(tail)];
    FlattenTwo(text, r, [Plain(tail)]);
    FlattenOne(tail);
    assert Encoded(l)[2..] == [Plain(tail)];
    var s := text + "$" + r + "$" + tail;
    OpenerFound(text, r, s);
    assert OPENER <= s ==> Occurs(OPENER, s, 0);
  }

  /** Text in which no property is opened and closed stays one literal, unless it opens at once. */
  lemma UnterminatedStaysLiteral(t: string)
    ensures IsTemplate(t, [Literal(t)]) <==> NextMark(t).None? && !(OPENER <= t)
  {
    FlattenOne(t);
    assert Encoded([Literal(t)]) == [Plain(t)];
  }
}
