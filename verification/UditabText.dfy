/** The text form of the table of handled devices: one line for a device, with its udi, block device and
    mount point separated by colons. Reading works on chunks of limited length, not on lines. */
module UditabText {
  import opened Options
  import opened CStrings

  datatype Record = Record(udi: string, device: Option<string>, mountpoint: Option<string>)

  /** What one call of `fgets` with a size of 1023 takes at most. */
  const CHUNK := 1022

  function FirstChar(s: string, c: char, from: nat): (i: nat)
    requires from <= |s|
    ensures from <= i <= |s| && (i < |s| ==> s[i] == c)
    ensures forall k | from <= k < i :: s[k] != c
    decreases |s| - from
  {
    if from == |s| || s[from] == c then from else FirstChar(s, c, from + 1)
  }

  lemma FirstCharIs(s: string, c: char, i: nat)
    requires i <= |s| && (i < |s| ==> s[i] == c) && forall k | 0 <= k < i :: s[k] != c
    ensures FirstChar(s, c, 0) == i
  {
  }

  /* Printing */

  /** A line without its end, in one of four shapes. */
  function Content(r: Record): string {
    r.udi +
    match (r.device, r.mountpoint)
    case (Some(d), Some(m)) => ":" + d + ":" + m
    case (None, Some(m)) => "::" + m
    case (Some(d), None) => ":" + d
    case (None, None) => ""
  }

  function PrintLine(r: Record): string {
    Content(r) + "\n"
  }

  function PrintAll(rs: seq<Record>): string {
    if rs == [] then "" else PrintLine(rs[0]) + PrintAll(rs[1..])
  }

  /* Reading */

  /** The part of a string that C sees. */
  function Seen(s: string): string {
    s[..FirstChar(s, NUL, 0)]
  }

  function Strip(line: string): string {
    if line != "" && line[|line| - 1] == '\n' then line[..|line| - 1] else line
  }

  function After(s: string, i: nat): string {
    if i < |s| then s[i + 1..] else ""
  }

  function NonEmpty(s: string): Option<string> {
    if s == "" then None else Some(s)
  }

  /** The record of a line without its end; none if the udi is empty. */
  function ReadFields(line: string): Option<Record> {
    var c := FirstChar(line, ':', 0);
    var rest := After(line, c);
    var d := FirstChar(rest, ':', 0);
    if c == 0 then None else Some(Record(line[..c], NonEmpty(rest[..d]), NonEmpty(After(rest, d))))
  }

  function ReadChunk(chunk: string): Option<Record> {
    ReadFields(Strip(Seen(chunk)))
  }

  /** How much of the rest of the file the next `fgets` takes. */
  function ChunkLength(text: string): (n: nat)
    ensures n <= |text| && (text != "" ==> n > 0)
  {
    var limit := if |text| < CHUNK then |text| else CHUNK;
    var k := FirstChar(text[..limit], '\n', 0);
    if k < limit then k + 1 else limit
  }

  function AsList(r: Option<Record>): seq<Record> {
    if r.Some? then [r.value] else []
  }

  /** The list that a file leaves, newest record first. */
  function ParseFile(text: string): seq<Record>
    decreases |text|
  {
    if text == "" then [] else
    var n := ChunkLength(text);
    ParseFile(text[n..]) + AsList(ReadChunk(text[..n]))
  }

  /* Round trip */

  /** No line end and no terminator; and no colon, unless the field may hold them. */
  predicate Plain(s: string, colons: bool) {
    forall i | 0 <= i < |s| :: s[i] != '\n' && s[i] != NUL && (colons || s[i] != ':')
  }

  predicate WellFormed(r: Record) {
    r.udi != "" && Plain(r.udi, false) &&
    (r.device.Some? ==> r.device.value != "" && Plain(r.device.value, false)) &&
    (r.mountpoint.Some? ==> r.mountpoint.value != "" && Plain(r.mountpoint.value, true))
  }

  predicate Printable(r: Record) {
    WellFormed(r) && |Content(r)| <= CHUNK
  }

  function Reverse(rs: seq<Record>): (l: seq<Record>)
    ensures |l| == |rs|
  {
    if rs == [] then [] else Reverse(rs[1..]) + [rs[0]]
  }

  lemma {:induction false} ReverseAt(rs: seq<Record>, i: nat)
    requires i < |rs|
    ensures Reverse(rs)[|rs| - 1 - i] == rs[i]
  {
    if i > 0 { ReverseAt(rs[1..], i - 1); }
  }

  lemma ReverseTwice(rs: seq<Record>)
    ensures Reverse(Reverse(rs)) == rs
  {
    forall i | 0 <= i < |rs| ensures Reverse(Reverse(rs))[i] == rs[i] {
      ReverseAt(Reverse(rs), |rs| - 1 - i);
      ReverseAt(rs, i);
    }
  }

  /** What is behind the udi in a line. */
  function Fields(r: Record): string {
    match (r.device, r.mountpoint)
    case (Some(d), Some(m)) => d + ":" + m
    case (None, Some(m)) => ":" + m
    case (Some(d), None) => d
    case (None, None) => ""
  }

  lemma ReadContent(r: Record)
    requires WellFormed(r)
    ensures ReadFields(Content(r)) == Some(r)
  {
    var line, c := Content(r), |r.udi|;
    FirstCharIs(line, ':', c);
    var d := if r.device.Some? then |r.device.value| else 0;
    assert After(line, c) == Fields(r);
    FirstCharIs(Fields(r), ':', d);
    assert line[..c] == r.udi;
    if r.device.Some? { assert Fields(r)[..d] == r.device.value; }
    if r.mountpoint.Some? { assert After(Fields(r), d) == r.mountpoint.value; }
  }

  /** The four shapes of a line, and that the fullest one is read back. */
  lemma LineShapes(u: string, d: string, m: string)
    requires WellFormed(Record(u, Some(d), Some(m)))
    ensures Content(Record(u, Some(d), Some(m))) == u + ":" + d + ":" + m
    ensures Content(Record(u, None, Some(m))) == u + "::" + m
    ensures Content(Record(u, Some(d), None)) == u + ":" + d
    ensures Content(Record(u, None, None)) == u
    ensures ReadFields(u + ":" + d + ":" + m) == Some(Record(u, Some(d), Some(m)))
  {
    FullShape(u, d, m);
    ReadContent(Record(u, Some(d), Some(m)));
    assert u + "" == u;
  }

  lemma FullShape(u: string, d: string, m: string)
    ensures Content(Record(u, Some(d), Some(m))) == u + ":" + d + ":" + m
  {
    assert u + (":" + d + ":" + m) == u + ":" + d + ":" + m;
  }

  lemma ContentIsPlain(r: Record)
    requires WellFormed(r)
    ensures Plain(Content(r), true)
  {
  }

  lemma ReadIsWellFormed(line: string)
    requires Plain(line, true)
    ensures var r := ReadFields(line); r.Some? ==> WellFormed(r.value) && |Content(r.value)| <= |line|
  {
  }

  lemma {:induction false} ReadPlainChunk(s: string, n: nat)
    requires Plain(s, true) && n <= 1
    ensures ReadChunk(s + seq(n, i => '\n')) == ReadFields(s)
  {
    var chunk := s + seq(n, i => '\n');
    FirstCharIs(chunk, NUL, |chunk|);
    assert Seen(chunk) == chunk && Strip(chunk) == s;
  }

  /** A line is read in front of whatever follows it, whatever its fields are. */
  lemma {:induction false} LineParses(s: string, rest: string)
    requires Plain(s, true) && |s| <= CHUNK
    ensures ParseFile(s + "\n" + rest) == ParseFile(rest) + AsList(ReadFields(s))
  {
    var text := s + "\n" + rest;
    if |s| < CHUNK {
      var limit := if |text| < CHUNK then |text| else CHUNK;
      FirstCharIs(text[..limit], '\n', |s|);
      assert text[..|s| + 1] == s + seq(1, i => '\n') && text[|s| + 1..] == rest;
      ReadPlainChunk(s, 1);
    } else {
      FirstCharIs(text[..CHUNK], '\n', CHUNK);
      assert text[..CHUNK] == s + seq(0, i => '\n') && text[CHUNK..] == "\n" + rest;
      ReadPlainChunk(s, 0);
      LineEndParses(rest);
    }
  }

  /** The end of a line that filled a chunk makes a chunk of its own, which leaves nothing. */
  lemma LineEndParses(rest: string)
    ensures ParseFile("\n" + rest) == ParseFile(rest)
  {
    var text := "\n" + rest;
    var limit := if |text| < CHUNK then |text| else CHUNK;
    FirstCharIs(text[..limit], '\n', 0);
    assert text[..1] == "" + seq(1, i => '\n') && text[1..] == rest;
    ReadPlainChunk("", 1);
  }

  /** Every record that reading any file at all leaves is one that a line can hold. */
  lemma {:induction false} ParsedIsPrintable(text: string)
    ensures forall i | 0 <= i < |ParseFile(text)| :: Printable(ParseFile(text)[i])
    decreases |text|
  {
    if text != "" {
      var n := ChunkLength(text);
      ParsedIsPrintable(text[n..]);
      ChunkIsPrintable(text);
    }
  }

  lemma {:induction false} ChunkIsPrintable(text: string)
    requires text != ""
    ensures var r := ReadChunk(text[..ChunkLength(text)]); r.Some? ==> Printable(r.value)
  {
    var n := ChunkLength(text);
    var chunk := text[..n];
    var line := Strip(Seen(chunk));
    assert forall k | 0 <= k < n - 1 :: chunk[k] != '\n';
    assert Plain(line, true) && |line| <= CHUNK;
    ReadIsWellFormed(line);
  }

  /** The main result: a printed table is read back in reverse exactly if every record can stand on a
      line that fits into a chunk; the end of the line need not fit. */
  lemma {:induction false} ParseInvertsPrint(rs: seq<Record>)
    ensures ParseFile(PrintAll(rs)) == Reverse(rs) <==> forall i | 0 <= i < |rs| :: Printable(rs[i])
  {
    if forall i | 0 <= i < |rs| :: Printable(rs[i]) { PrintedParses(rs); }
    if ParseFile(PrintAll(rs)) == Reverse(rs) {
      ParsedIsPrintable(PrintAll(rs));
      forall i | 0 <= i < |rs| ensures Printable(rs[i]) {
        ReverseAt(rs, i);
      }
    }
  }

  lemma {:induction false} PrintedParses(rs: seq<Record>)
    requires forall i | 0 <= i < |rs| :: Printable(rs[i])
    ensures ParseFile(PrintAll(rs)) == Reverse(rs)
  {
    if rs != [] {
      ContentIsPlain(rs[0]);
      ReadContent(rs[0]);
      LineParses(Content(rs[0]), PrintAll(rs[1..]));
      PrintedParses(rs[1..]);
    }
  }
}
