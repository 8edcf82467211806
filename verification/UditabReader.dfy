/** Reading the table: `fgets` into a line buffer, which is then cut up in place. */
module UditabReader {
  import opened Options
  import opened CStrings
  import opened UditabText

  const LINE_SIZE := 1024

  /** `fgets(line, 1023, fd)` on a file that is not at its end. */
  method FGets(file: string, position: nat, line: array<char>) returns (next: nat)
    requires position < |file| && line.Length == LINE_SIZE
    modifies line
    ensures next == position + ChunkLength(file[position..])
    ensures Terminated(line[..], 0) && Text(line[..], 0) == Seen(file[position..next])
  {
    var k := 0;
    while k < CHUNK && position + k < |file| && (k == 0 || line[k - 1] != '\n')
      invariant k <= CHUNK && position + k <= |file|
      invariant line[..k] == file[position..position + k]
      invariant forall i | 0 <= i < k - 1 :: line[i] != '\n'
    {
      line[k] := file[position + k];
      k := k + 1;
    }
    line[k] := NUL;
    next := position + k;
    ghost var b := line[..];
    assert b[..k] == file[position..next];
    forall j | position <= j < next - 1 ensures file[j] != '\n' {
      assert line[j - position] == file[position..next][j - position];
    }
    ChunkIs(file, position, k);
    SeenInBuffer(b, k, file[position..next]);
  }

  lemma ChunkIs(file: string, position: nat, k: nat)
    requires 0 < k <= CHUNK && position + k <= |file|
    requires forall j | position <= j < position + k - 1 :: file[j] != '\n'
    requires k == CHUNK || position + k == |file| || file[position + k - 1] == '\n'
    ensures ChunkLength(file[position..]) == k
  {
    var text := file[position..];
    var limit := if |text| < CHUNK then |text| else CHUNK;
    forall i | 0 <= i < k - 1 ensures text[..limit][i] != '\n' {
      assert text[..limit][i] == file[position + i];
    }
    FirstCharIs(text[..limit], '\n', if text[k - 1] == '\n' then k - 1 else limit);
  }

  lemma SeenInBuffer(b: seq<char>, k: nat, s: string)
    requires k < |b| && b[..k] == s && b[k] == NUL
    ensures Terminated(b, 0) && Text(b, 0) == Seen(s)
  {
    var e := FirstChar(s, NUL, 0);
    assert forall i | 0 <= i < k :: b[i] == s[i];
    EndIs(b, 0, e);
  }

  lemma ColonOccurs(s: string, i: int)
    ensures Occurs(":", s, i) <==> 0 <= i < |s| && s[i] == ':'
  {
    if 0 <= i < |s| { assert s[i..i + 1] == [s[i]]; }
  }

  /** Where `strstr` finds a colon. */
  lemma ColonAt(s: string)
    ensures Find(":", s) == if FirstChar(s, ':', 0) < |s| then FirstChar(s, ':', 0) else -1
  {
    var c := FirstChar(s, ':', 0);
    if c < |s| {
      ColonOccurs(s, c);
      forall j | 0 <= j < c ensures !Occurs(":", s, j) { ColonOccurs(s, j); }
      FindIs(":", s, c);
    } else {
      FindSpec(":", s);
      ColonOccurs(s, Find(":", s));
    }
  }

  /** Writing a terminator into the text cuts it there; the text behind stays readable. */
  lemma CutAt(b: seq<char>, p: nat, c: nat)
    requires Terminated(b, p) && c < |Text(b, p)|
    ensures p + c < |b|
    ensures var d := b[p + c := NUL];
            Terminated(d, p) && Text(d, p) == Text(b, p)[..c] &&
            Terminated(d, p + c + 1) && Text(d, p + c + 1) == Text(b, p)[c + 1..]
  {
    var d := b[p + c := NUL];
    EndIs(d, p, p + c);
    TextSlice(b, p, 0, c);
    TextFrom(b, p, c + 1);
    TextSame(b, d, p + c + 1);
  }

  /** Cuts the text at a character and yields what is behind it, if that is not empty. */
  method Split(line: array<char>, p: nat, at: nat, ghost b: seq<char>) returns (more: bool, ghost d: seq<char>)
    requires line[..] == b && Terminated(b, p) && p <= at && at - p < |Text(b, p)|
    modifies line
    ensures line[..] == d && |d| == |b| && at + 1 < |d| && forall i | 0 <= i < |b| && i != at :: d[i] == b[i]
    ensures Terminated(d, p) && End(d, p) == at && Text(d, p) == Text(b, p)[..at - p]
    ensures Terminated(d, at + 1) && Text(d, at + 1) == Text(b, p)[at - p + 1..]
    ensures more <==> Text(b, p)[at - p + 1..] != ""
  {
    TextFrom(b, p, at - p);
    var n := Length(line, at);
    CutAt(b, p, at - p);
    line[at] := NUL;
    d := b[at := NUL];
    EndIs(d, p, at);
    more := n != 1;
  }

  /** What follows the udi: the device up to the next colon, and the mount point if there is more. */
  method ParseFields(line: array<char>, current: nat, ghost b: seq<char>) returns (device: string, mountpoint: Option<string>)
    requires line[..] == b && Terminated(b, current)
    modifies line
    ensures forall i | 0 <= i < current :: line[i] == b[i]
    ensures var rest := Text(b, current); var d := FirstChar(rest, ':', 0);
            device == rest[..d] && mountpoint == NonEmpty(After(rest, d))
  {
    mountpoint := None;
    ColonAt(Text(b, current));
    var next := Search(line, current, ":");
    if next != -1 {
      var more; ghost var d;
      more, d := Split(line, current, next, b);
      if more {
        var m := Duplicate(line, next + 1);
        mountpoint := Some(m);
      }
    }
    device := Duplicate(line, current);
  }

  /** The line up to its first colon, which becomes a terminator, and the fields behind. */
  method ParseUdi(line: array<char>, ghost b: seq<char>) returns (udi: string, device: Option<string>, mountpoint: Option<string>)
    requires line[..] == b && Terminated(b, 0)
    modifies line
    ensures var s := Text(b, 0); var c := FirstChar(s, ':', 0); var rest := After(s, c); var d := FirstChar(rest, ':', 0);
            udi == s[..c] && (device == Some(rest[..d]) || (device == None && rest == "")) && mountpoint == NonEmpty(After(rest, d))
  {
    device, mountpoint := None, None;
    ColonAt(Text(b, 0));
    var next := Search(line, 0, ":");
    if next != -1 {
      var more; ghost var c;
      more, c := Split(line, 0, next, b);
      if more {
        var d;
        d, mountpoint := ParseFields(line, next + 1, c);
        device := Some(d);
      }
      ghost var after := line[..];
      TextSame(c, after, 0);
    }
    udi := Duplicate(line, 0);
  }

  /** One line: the record, if its udi is not empty. */
  method ParseLine(line: array<char>) returns (record: Option<Record>)
    requires Terminated(line[..], 0)
    modifies line
    ensures record == ReadFields(Strip(old(Text(line[..], 0))))
  {
    ghost var b, s := line[..], Text(line[..], 0);
    var n := Length(line, 0);
    if n < 1 {
      return None;
    }
    if line[n - 1] == '\n' {
      CutAt(b, 0, n - 1);
      line[n - 1] := NUL;
      assert line[..] == b[n - 1 := NUL];
    }
    assert Terminated(line[..], 0) && Text(line[..], 0) == Strip(s);
    var udi, device, mountpoint := ParseUdi(line, line[..]);
    if udi == "" {
      return None;
    }
    if device == Some("") { device := None; }
    if mountpoint == Some("") { mountpoint := None; }
    return Some(Record(udi, device, mountpoint));
  }
}
