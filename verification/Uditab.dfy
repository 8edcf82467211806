/** The table of handled devices: a linked list that is filled by prepending, walked with a previous
    pointer, and changed in place. */
module Uditab {
  import opened Options
  import opened Hal
  import opened Sequences
  import opened UditabText
  import opened UditabReader
  import opened UditabSync

  class UdiNode {
    const udi: string
    var device: Option<string>
    var mountpoint: Option<string>
    var next: UdiNode?

    constructor (r: Record, next: UdiNode?)
      ensures Is(r, next)
    {
      udi, device, mountpoint, this.next := r.udi, r.device, r.mountpoint, next;
    }

    ghost predicate Is(r: Record, next: UdiNode?)
      reads this
    {
      r == Record(udi, device, mountpoint) && this.next == next
    }

    /** `halevt_mount_check_udi`: the fields are overwritten with those of the database. */
    method Check(hal: Database) returns (ok: bool, exits: bool)
      modifies this`device, this`mountpoint
      ensures ok ==> IsVolume(hal, Record(udi, device, mountpoint))
      ensures !ok && !exits ==> forall r: Record | r.udi == udi :: !IsVolume(hal, r)
      ensures exits <==> Ends(hal, udi)
      ensures exits <==> CheckUdi(hal, udi).Exit?
      ensures ok <==> CheckUdi(hal, udi).Keep?
      ensures ok ==> CheckUdi(hal, udi).record == Record(udi, device, mountpoint)
    {
      ok, exits := false, false;
      CheckEnds(hal, udi);
      forall r: Record | r.udi == udi ensures CheckUdi(hal, udi) == Keep(r) <==> IsVolume(hal, r) { CheckKeeps(hal, r); }
      if udi !in hal { return; }
      var props := hal[udi];
      if "block.is_volume" !in props || !IsTrue(props["block.is_volume"]) { return; }
      if "block.device" !in props { return; }
      if !props["block.device"].Str? { exits := true; return; }
      var halDevice := props["block.device"].s;
      if device == None {
        device := Some(halDevice);
      } else if device.value != halDevice {
        device := Some(halDevice);
      }
      if "volume.fsusage" !in props { return; }
      if !props["volume.fsusage"].Str? { exits := true; return; }
      if props["volume.fsusage"].s != FILESYSTEM { return; }
      if "volume.is_mounted" !in props { return; }
      if IsTrue(props["volume.is_mounted"]) {
        if "volume.mount_point" !in props { return; }
        if !props["volume.mount_point"].Str? { exits := true; return; }
        var halMountpoint := props["volume.mount_point"].s;
        if mountpoint == None {
          mountpoint := Some(halMountpoint);
        } else if mountpoint.value != halMountpoint {
          mountpoint := Some(halMountpoint);
        }
      } else if mountpoint != None {
        mountpoint := None;
      }
      ok := true;
    }
  }

  ghost function NodeAfter(s: seq<UdiNode>, i: int): UdiNode? {
    if 0 <= i + 1 < |s| then s[i + 1] else null
  }

  /* Searching */

  /** What a search asks for; `any` may be any of the three. */
  datatype Query = Query(udi: Option<string>, device: Option<string>, mountpoint: Option<string>, any: Option<string>)

  predicate Wanted(r: Record, q: Query) {
    (q.udi.Some? && r.udi == q.udi.value) ||
    (q.device.Some? && r.device == q.device) ||
    (q.mountpoint.Some? && r.mountpoint == q.mountpoint) ||
    (q.any.Some? && (r.udi == q.any.value || r.device == q.any || r.mountpoint == q.any))
  }

  function WantedUdis(rs: seq<Record>, q: Query): seq<string> {
    if rs == [] then [] else
    WantedUdis(rs[..|rs| - 1], q) + if Wanted(rs[|rs| - 1], q) then [rs[|rs| - 1].udi] else []
  }

  lemma {:induction false} WantedIsFound(rs: seq<Record>, q: Query, i: nat)
    requires i < |rs| && Wanted(rs[i], q)
    ensures rs[i].udi in WantedUdis(rs, q)
  {
    if i < |rs| - 1 { WantedIsFound(rs[..|rs| - 1], q, i); }
  }

  /** What a search asks for, criterion by criterion. */
  lemma {:induction false} WantedUdisAre(rs: seq<Record>, q: Query, udi: string)
    ensures udi in WantedUdis(rs, q) <==>
              exists i | 0 <= i < |rs| :: rs[i].udi == udi &&
                (q.udi == Some(rs[i].udi) || q.any == Some(rs[i].udi) ||
                 (rs[i].device.Some? && (q.device == rs[i].device || q.any == rs[i].device)) ||
                 (rs[i].mountpoint.Some? && (q.mountpoint == rs[i].mountpoint || q.any == rs[i].mountpoint)))
  {
    if rs != [] {
      var n := |rs| - 1;
      WantedUdisAre(rs[..n], q, udi);
      assert forall i | 0 <= i < n :: rs[..n][i] == rs[i];
    }
  }

  /** The list after the search and the removal of what was found. */
  function Cleaned(rs: seq<Record>, q: Query): seq<Record> {
    Loop([], Each(rs, Spare(WantedUdis(rs, q))))
  }

  predicate Spared(r: Record, rs: seq<Record>, udis: seq<string>) {
    r in rs && r.udi !in udis
  }

  lemma {:induction false} AcceptedIsSpared(rs: seq<Record>, udis: seq<string>, i: nat)
    requires i < |Accepted(Each(rs, Spare(udis)))|
    ensures Spared(Accepted(Each(rs, Spare(udis)))[i], rs, udis)
  {
    var outs, rest := Each(rs, Spare(udis)), Each(rs[1..], Spare(udis));
    assert outs[1..] == rest;
    if outs[0].None? {
      AcceptedIsSpared(rs[1..], udis, i);
    } else if i > 0 {
      AcceptedIsSpared(rs[1..], udis, i - 1);
    }
  }

  /** Cleaning leaves nothing that was asked for, and nothing that was not there. */
  lemma CleanedIsClean(rs: seq<Record>, q: Query, j: nat)
    requires j < |Cleaned(rs, q)|
    ensures Cleaned(rs, q)[j] in rs && !Wanted(Cleaned(rs, q)[j], q)
    ensures var r := Cleaned(rs, q)[j];
            q.udi != Some(r.udi) && q.any != Some(r.udi) &&
            (r.device.Some? ==> q.device != r.device && q.any != r.device) &&
            (r.mountpoint.Some? ==> q.mountpoint != r.mountpoint && q.any != r.mountpoint)
  {
    var udis := WantedUdis(rs, q);
    var outs := Each(rs, Spare(udis));
    LoopIsSurvivors(outs);
    SurvivorsAreLast(outs);
    AcceptedIsSpared(rs, udis, Lost(outs) + j);
    var r := Accepted(outs)[Lost(outs) + j];
    assert Cleaned(rs, q)[j] == r;
    var i :| 0 <= i < |rs| && rs[i] == r;
    if Wanted(r, q) { WantedIsFound(rs, q, i); }
  }

  lemma {:induction false} SparedIsAccepted(rs: seq<Record>, udis: seq<string>, r: Record)
    requires Spared(r, rs, udis)
    ensures r in Accepted(Each(rs, Spare(udis)))
  {
    assert Each(rs, Spare(udis))[1..] == Each(rs[1..], Spare(udis));
    if rs[0] != r { SparedIsAccepted(rs[1..], udis, r); }
  }

  /** The first record whose udi is not found is at `i`, and directly followed by one whose udi is. */
  predicate LoneSparedAt(rs: seq<Record>, udis: seq<string>, i: nat) {
    i + 1 < |rs| && rs[i].udi !in udis && rs[i + 1].udi in udis && forall k | 0 <= k < i :: rs[k].udi in udis
  }

  /** Otherwise cleaning removes the records whose udi is found and no other. */
  lemma CleanedIsRest(rs: seq<Record>, q: Query, r: Record)
    requires forall i: nat :: !LoneSparedAt(rs, WantedUdis(rs, q), i)
    ensures r in Cleaned(rs, q) <==> r in rs && r.udi !in WantedUdis(rs, q)
  {
    var udis := WantedUdis(rs, q);
    var outs := Each(rs, Spare(udis));
    LoopIsFilter(outs);
    if i: nat :| i < |outs| && LoneAt(outs, i) { assert LoneSparedAt(rs, udis, i); }
    if r in Accepted(outs) {
      var j :| 0 <= j < |Accepted(outs)| && Accepted(outs)[j] == r;
      AcceptedIsSpared(rs, udis, j);
    }
    if Spared(r, rs, udis) { SparedIsAccepted(rs, udis, r); }
  }

  /** The nodes that a search finds. */
  ghost function Found(ns: seq<UdiNode>, rs: seq<Record>, q: Query): seq<UdiNode>
    requires |ns| == |rs|
  {
    if rs == [] then [] else
    var n := |rs| - 1;
    Found(ns[..n], rs[..n], q) + if Wanted(rs[n], q) then [ns[n]] else []
  }

  ghost function Udis(found: seq<UdiNode>): (udis: seq<string>)
    ensures |udis| == |found| && forall i | 0 <= i < |found| :: udis[i] == found[i].udi
  {
    seq(|found|, i requires 0 <= i < |found| => found[i].udi)
  }

  lemma {:induction false} FoundUdis(ns: seq<UdiNode>, rs: seq<Record>, q: Query)
    requires |ns| == |rs| && forall i | 0 <= i < |rs| :: ns[i].udi == rs[i].udi
    ensures Udis(Found(ns, rs, q)) == WantedUdis(rs, q)
  {
    if rs != [] {
      var n := |rs| - 1;
      FoundUdis(ns[..n], rs[..n], q);
    }
  }

  /** The array of a search: the nodes it found, then a null. */
  ghost predicate HoldsNodes(list: seq<UdiNode?>, found: seq<UdiNode>) {
    |found| < |list| && list[|found|] == null && forall i | 0 <= i < |found| :: list[i] == found[i]
  }

  /** `realloc` of such an array. */
  method GrowList(list: array<UdiNode?>, size: nat) returns (grown: array<UdiNode?>)
    requires list.Length <= size
    ensures fresh(grown) && grown.Length == size && forall i | 0 <= i < list.Length :: grown[i] == list[i]
  {
    grown := new UdiNode?[size](i requires 0 <= i < size reads list => if i < list.Length then list[i] else null);
  }

  lemma FoundNext(ns: seq<UdiNode>, rs: seq<Record>, q: Query, n: nat)
    requires |ns| == |rs| && n < |rs|
    ensures Found(ns[..n + 1], rs[..n + 1], q) == Found(ns[..n], rs[..n], q) + if Wanted(rs[n], q) then [ns[n]] else []
  {
    assert ns[..n + 1][..n] == ns[..n] && rs[..n + 1][..n] == rs[..n];
  }

  /** The array so far, with room for a null. */
  ghost predicate Collects(list: seq<UdiNode?>, found: seq<UdiNode>) {
    |found| < |list| && forall i | 0 <= i < |found| :: list[i] == found[i]
  }

  /** One more node: the array doubles when the node and the null do not fit. */
  method Append(list: array<UdiNode?>, count: nat, node: UdiNode, ghost found: seq<UdiNode>) returns (longer: array<UdiNode?>)
    requires Collects(list[..], found) && count == |found|
    modifies list
    ensures (longer == list || fresh(longer)) && Collects(longer[..], found + [node])
  {
    longer := list;
    if count + 2 > list.Length {
      longer := GrowList(list, 2 * list.Length);
    }
    longer[count] := node;
  }

  /** The walk over `was` has dealt with `k` entries and kept `n`; the list is `now`. */
  ghost predicate Walking(was: seq<Record>, judge: Record -> Option<Record>, now: seq<Record>, n: nat, k: nat) {
    && n <= |now| && k <= |was| && now[n..] == was[k..]
    && Loop(now[..n], Each(was, judge)[k..]) == Loop([], Each(was, judge))
  }

  lemma WalkStarts(was: seq<Record>, judge: Record -> Option<Record>)
    ensures Walking(was, judge, was, 0, 0)
  {
    assert was[..0] == [] && Each(was, judge)[0..] == Each(was, judge);
  }

  lemma WalkOn(was: seq<Record>, judge: Record -> Option<Record>, now: seq<Record>, n: nat, k: nat)
    requires Walking(was, judge, now, n, k) && n < |now|
    ensures k < |was| && now[n] == was[k] && now[n + 1..] == was[k + 1..]
  {
    assert now[n..][0] == was[k..][0];
    assert now[n..][1..] == was[k..][1..];
  }

  lemma WalkStep(was: seq<Record>, judge: Record -> Option<Record>, now: seq<Record>, n: nat, k: nat, next: seq<Record>, m: nat)
    requires Walking(was, judge, now, n, k) && n < |now| && m <= |next|
    requires next[m..] == now[n + 1..] && next[..m] == Kept(now[..n], judge(now[n]))
    ensures Walking(was, judge, next, m, k + 1)
  {
    WalkOn(was, judge, now, n, k);
    var outs := Each(was, judge);
    assert outs[k..][0] == judge(now[n]) && outs[k..][1..] == outs[k + 1..];
  }

  lemma WalkEnds(was: seq<Record>, judge: Record -> Option<Record>, now: seq<Record>, n: nat, k: nat)
    requires Walking(was, judge, now, n, k) && n == |now|
    ensures k == |was| && now == Loop([], Each(was, judge))
  {
    assert |now[n..]| == |was[k..]|;
    assert now[..n] == now && Each(was, judge)[k..] == [];
  }

  /** The records of the part of a file before a position, in front of what is left to read. */
  ghost predicate Parsing(file: string, position: nat, records: seq<Record>) {
    position <= |file| && ParseFile(file[position..]) + records == ParseFile(file)
  }

  lemma {:induction false} ParsingStep(file: string, position: nat, next: nat, records: seq<Record>)
    requires Parsing(file, position, records) && position < |file| && next == position + ChunkLength(file[position..])
    ensures next <= |file| && Parsing(file, next, AsList(ReadChunk(file[position..next])) + records)
  {
    var text, n := file[position..], ChunkLength(file[position..]);
    Suffixes(file, position, n);
    FileStep(text, file[next..], file[position..next]);
    Regroup(ParseFile(text), ParseFile(file[next..]), AsList(ReadChunk(file[position..next])), records);
  }

  lemma Suffixes(s: string, p: nat, n: nat)
    requires p + n <= |s|
    ensures s[p..][n..] == s[p + n..] && s[p..][..n] == s[p..p + n]
  {
  }

  lemma Regroup(x: seq<Record>, a: seq<Record>, b: seq<Record>, c: seq<Record>)
    requires x == a + b
    ensures x + c == a + (b + c)
  {
  }

  lemma FileStep(text: string, rest: string, chunk: string)
    requires text != "" && rest == text[ChunkLength(text)..] && chunk == text[..ChunkLength(text)]
    ensures ParseFile(text) == ParseFile(rest) + AsList(ReadChunk(chunk))
  {
  }

  /** One chunk of the file. */
  method ReadRecord(file: string, position: nat, line: array<char>) returns (next: nat, record: Option<Record>)
    requires position < |file| && line.Length == LINE_SIZE
    modifies line
    ensures next == position + ChunkLength(file[position..]) && record == ReadChunk(file[position..next])
  {
    next := FGets(file, position, line);
    record := ParseLine(line);
  }

  class Uditab {
    var root: UdiNode?
    ghost var nodes: seq<UdiNode>
    ghost var records: seq<Record>

    ghost predicate Valid()
      reads this, nodes
    {
      && |nodes| == |records| && root == NodeAfter(nodes, -1)
      && (forall i {:trigger nodes[i].Is(records[i], NodeAfter(nodes, i))} | 0 <= i < |nodes| ::
            nodes[i].Is(records[i], NodeAfter(nodes, i)))
      && (forall i, j | 0 <= i < j < |nodes| :: nodes[i] != nodes[j])
    }

    lemma At(i: nat)
      requires Valid() && i < |nodes|
      ensures nodes[i].Is(records[i], NodeAfter(nodes, i))
    {
    }

    constructor ()
      ensures Valid() && records == [] && nodes == []
    {
      root, nodes, records := null, [], [];
    }

    method Prepend(r: Record)
      requires Valid()
      modifies this
      ensures Valid() && records == [r] + old(records)
      ensures forall x | x in nodes :: x in old(nodes) || fresh(x)
    {
      ghost var before, was := nodes, records;
      var node := new UdiNode(r, root);
      root := node;
      nodes, records := [node] + before, [r] + was;
      forall i | 0 <= i < |nodes| ensures nodes[i].Is(records[i], NodeAfter(nodes, i)) {
        if i > 0 {
          assert nodes[i] == before[i - 1] && records[i] == was[i - 1];
          assert old(before[i - 1].Is(was[i - 1], NodeAfter(before, i - 1)));
        }
      }
    }

    method PrependIf(r: Option<Record>)
      requires Valid()
      modifies this
      ensures Valid() && records == AsList(r) + old(records)
      ensures forall x | x in nodes :: x in old(nodes) || fresh(x)
    {
      if r.Some? {
        Prepend(r.value);
      } else {
        assert [] + records == records;
      }
    }

    /** `halevt_mount_parse_file`. */
    method ParseFile(file: string)
      requires Valid() && records == []
      modifies this
      ensures Valid() && records == UditabText.ParseFile(file)
      ensures forall x | x in nodes :: fresh(x)
    {
      var line := new char[LINE_SIZE];
      var position := 0;
      assert file[0..] == file;
      while position < |file|
        invariant Valid() && Parsing(file, position, records)
        invariant forall x | x in nodes :: fresh(x)
      {
        var next, record := ReadRecord(file, position, line);
        ParsingStep(file, position, next, records);
        PrependIf(record);
        position := next;
      }
    }

    /** The walk of `halevt_mount_remove_udi`'s callers has kept `n` entries and stands at the next one. */
    ghost predicate Standing(previous: UdiNode?, n: nat)
      reads this
    {
      n <= |nodes| && previous == if n == 0 then root else nodes[n - 1]
    }

    /** `halevt_mount_remove_udi`: compares the previous node with the head. */
    method RemoveUdi(current: UdiNode, previous: UdiNode?, ghost n: nat) returns (newPrevious: UdiNode?, ghost m: nat)
      requires Valid() && n < |nodes| && current == nodes[n] && Standing(previous, n)
      modifies this, previous
      ensures Valid() && Standing(newPrevious, m) && current.next == NodeAfter(nodes, m - 1)
      ensures m == if n <= 1 then 0 else n
      ensures records == (if n <= 1 then [] else old(records)[..n]) + old(records)[n + 1..]
      ensures forall x | x in nodes :: x in old(nodes)
    {
      At(n);
      if n > 1 { assert nodes[0] != nodes[n - 1]; }
      if previous == root {
        DropThrough(current, n);
        newPrevious := root;
        m := 0;
        assert records == [] + old(records)[n + 1..];
      } else {
        Unlink(current, previous, n);
        newPrevious := previous;
        m := n;
      }
    }

    /** Makes the node behind `current` the head. */
    method DropThrough(current: UdiNode, ghost n: nat)
      requires Valid() && n < |nodes| && current == nodes[n]
      modifies this
      ensures Valid() && root == current.next
      ensures nodes == old(nodes)[n + 1..] && records == old(records)[n + 1..]
    {
      ghost var before, was := nodes, records;
      At(n);
      root := current.next;
      nodes, records := before[n + 1..], was[n + 1..];
      forall i | 0 <= i < |nodes| ensures nodes[i].Is(records[i], NodeAfter(nodes, i)) {
        assert old(before[n + 1 + i].Is(was[n + 1 + i], NodeAfter(before, n + 1 + i)));
      }
    }

    /** Takes `current` out of the chain behind `previous`. */
    method Unlink(current: UdiNode, previous: UdiNode, ghost n: nat)
      requires Valid() && 0 < n < |nodes| && current == nodes[n] && previous == nodes[n - 1]
      modifies this, previous
      ensures Valid() && current.next == NodeAfter(nodes, n - 1)
      ensures nodes == old(nodes)[..n] + old(nodes)[n + 1..] && records == old(records)[..n] + old(records)[n + 1..]
    {
      ghost var before, was := nodes, records;
      At(n);
      previous.next := current.next;
      nodes, records := before[..n] + before[n + 1..], was[..n] + was[n + 1..];
      forall i | 0 <= i < |nodes| ensures nodes[i].Is(records[i], NodeAfter(nodes, i)) {
        ghost var k := if i < n then i else i + 1;
        assert nodes[i] == before[k] && records[i] == was[k];
        assert old(before[k].Is(was[k], NodeAfter(before, k)));
      }
    }

    /** The check of the node at `n`, which changes its record. */
    method CheckAt(hal: Database, current: UdiNode, ghost n: nat) returns (ok: bool, exits: bool)
      requires Valid() && n < |nodes| && current == nodes[n]
      modifies this`records, current
      ensures Valid() && current.next == old(current.next)
      ensures exits <==> CheckUdi(hal, old(records)[n].udi).Exit?
      ensures ok <==> CheckUdi(hal, old(records)[n].udi).Keep?
      ensures |records| == |old(records)| && records == old(records)[n := records[n]]
      ensures ok ==> Judge(hal)(old(records)[n]) == Some(records[n])
    {
      ghost var was := records;
      At(n);
      ok, exits := current.Check(hal);
      records := was[n := Record(current.udi, current.device, current.mountpoint)];
      forall i | 0 <= i < |nodes| ensures nodes[i].Is(records[i], NodeAfter(nodes, i)) {
        assert old(nodes[i].Is(records[i], NodeAfter(nodes, i)));
      }
    }

    /** One turn of the loop of `halevt_mount_sync_udi`. */
    method SyncOne(hal: Database, current: UdiNode, previous: UdiNode?, ghost n: nat)
      returns (exits: bool, newPrevious: UdiNode?, ghost m: nat)
      requires Valid() && n < |nodes| && current == nodes[n] && Standing(previous, n)
      modifies this, current, previous
      ensures Valid() && (exits <==> CheckUdi(hal, old(records)[n].udi).Exit?)
      ensures !exits ==> Standing(newPrevious, m) && current.next == NodeAfter(nodes, m - 1)
      ensures !exits ==> m <= |records| && records[m..] == old(records)[n + 1..]
      ensures !exits ==> records[..m] == Kept(old(records)[..n], Judge(hal)(old(records)[n]))
      ensures forall x | x in nodes :: x in old(nodes)
    {
      ghost var was := records;
      var ok;
      ok, exits := CheckAt(hal, current, n);
      newPrevious, m := previous, n;
      ghost var judged := records;
      if !exits {
        if !ok {
          newPrevious, m := RemoveUdi(current, previous, n);
          assert judged[..n] == was[..n] && judged[n + 1..] == was[n + 1..];
          assert records[..m] == if n <= 1 then [] else judged[..n];
        } else {
          newPrevious, m := current, n + 1;
          At(n);
          assert judged[n + 1..] == was[n + 1..] && judged[..n + 1] == was[..n] + [judged[n]];
        }
      }
    }

    /** The loop of `halevt_mount_sync_udi`. */
    method Sync(hal: Database) returns (ok: bool)
      requires Valid()
      modifies this, nodes
      ensures Valid() && (ok <==> !Exits(hal, old(records)))
      ensures ok ==> records == Synced(hal, old(records))
      ensures forall x | x in nodes :: x in old(nodes)
    {
      ghost var was := records;
      var current, previous := root, root;
      ghost var n: nat, k: nat := 0, 0;
      WalkStarts(was, Judge(hal));
      while current != null
        invariant Valid() && n <= |nodes| && current == NodeAfter(nodes, n - 1) && Standing(previous, n)
        invariant Walking(was, Judge(hal), records, n, k)
        invariant forall x | x in nodes :: x in old(nodes)
        invariant forall i | 0 <= i < k :: !Ends(hal, was[i].udi)
        decreases |was| - k
      {
        ghost var now := records;
        assert nodes[n] in nodes && (n > 0 ==> nodes[n - 1] in nodes);
        var exits; ghost var m;
        exits, previous, m := SyncOne(hal, current, previous, n);
        WalkOn(was, Judge(hal), now, n, k);
        CheckEnds(hal, was[k].udi);
        if exits {
          return false;
        }
        WalkStep(was, Judge(hal), now, n, k, records, m);
        k := k + 1;
        n := m;
        current := current.next;
      }
      WalkEnds(was, Judge(hal), records, n, k);
      return true;
    }

    /** `halevt_mount_find_udi`: an array that doubles when the next node and the null do not fit. */
    method FindUdi(q: Query) returns (list: array<UdiNode?>, ghost found: seq<UdiNode>)
      requires Valid()
      ensures fresh(list) && found == Found(nodes, records, q) && HoldsNodes(list[..], found)
      ensures Udis(found) == WantedUdis(records, q)
    {
      var count := 0;
      list := new UdiNode?[2];
      list[0] := null;
      found := [];
      var current := root;
      ghost var n: nat := 0;
      while current != null
        invariant n <= |nodes| && current == NodeAfter(nodes, n - 1) && Valid()
        invariant fresh(list) && count == |found| && Collects(list[..], found)
        invariant found == Found(nodes[..n], records[..n], q)
        decreases |nodes| - n
      {
        At(n);
        FoundNext(nodes, records, q, n);
        list, count, found := Collect(list, count, current, q, found);
        current := current.next;
        n := n + 1;
      }
      list[count] := null;
      assert nodes[..n] == nodes && records[..n] == records;
      forall i | 0 <= i < |nodes| ensures nodes[i].udi == records[i].udi { At(i); }
      FoundUdis(nodes, records, q);
    }

    /** One node of the search. */
    method Collect(list: array<UdiNode?>, count: nat, node: UdiNode, q: Query, ghost found: seq<UdiNode>)
      returns (longer: array<UdiNode?>, newCount: nat, ghost newFound: seq<UdiNode>)
      requires Collects(list[..], found) && count == |found|
      modifies list
      ensures (longer == list || fresh(longer)) && Collects(longer[..], newFound) && newCount == |newFound|
      ensures newFound == found + if Wanted(Record(node.udi, node.device, node.mountpoint), q) then [node] else []
    {
      longer, newCount, newFound := list, count, found;
      var wanted := IsWanted(node, q);
      if wanted {
        longer := Append(list, count, node, found);
        newCount, newFound := count + 1, found + [node];
      }
    }

    /** The test of the search, criterion by criterion. */
    method IsWanted(node: UdiNode, q: Query) returns (wanted: bool)
      ensures wanted <==> Wanted(Record(node.udi, node.device, node.mountpoint), q)
    {
      wanted := false;
      if q.udi.Some? && node.udi == q.udi.value { return true; }
      if q.device.Some? && node.device.Some? && node.device.value == q.device.value { return true; }
      if q.mountpoint.Some? && node.mountpoint.Some? && node.mountpoint.value == q.mountpoint.value { return true; }
      if q.any.Some? {
        if node.udi == q.any.value { return true; }
        if node.device.Some? && node.device.value == q.any.value { return true; }
        if node.mountpoint.Some? && node.mountpoint.value == q.any.value { return true; }
      }
    }

    /** The search for a node's udi among the found ones. */
    method IsFound(node: UdiNode, list: array<UdiNode?>, ghost found: seq<UdiNode>) returns (result: bool)
      requires HoldsNodes(list[..], found)
      ensures result <==> node.udi in Udis(found)
    {
      var j := 0;
      while list[j] != null
        invariant j <= |found| && forall i | 0 <= i < j :: Udis(found)[i] != node.udi
        decreases |found| - j
      {
        if node.udi == list[j].udi {
          assert Udis(found)[j] == node.udi;
          return true;
        }
        j := j + 1;
      }
      return false;
    }

    /** One turn of the loop that takes the found nodes out of the list. */
    method CleanOne(current: UdiNode, previous: UdiNode?, list: array<UdiNode?>, ghost found: seq<UdiNode>, ghost n: nat)
      returns (newPrevious: UdiNode?, ghost m: nat)
      requires Valid() && HoldsNodes(list[..], found)
      requires n < |nodes| && current == nodes[n] && Standing(previous, n)
      modifies this, previous
      ensures Valid() && Standing(newPrevious, m) && current.next == NodeAfter(nodes, m - 1)
      ensures m <= |records| && records[m..] == old(records)[n + 1..]
      ensures records[..m] == Kept(old(records)[..n], Spare(Udis(found))(old(records)[n]))
      ensures forall x | x in nodes :: x in old(nodes)
    {
      ghost var now := records;
      At(n);
      var remove := IsFound(current, list, found);
      if remove {
        newPrevious, m := RemoveUdi(current, previous, n);
      } else {
        newPrevious, m := current, n + 1;
        assert now[..m] == now[..n] + [now[n]];
      }
    }

    /** The loop that takes the found nodes out of the list. */
    method Clean(list: array<UdiNode?>, ghost found: seq<UdiNode>)
      requires Valid() && HoldsNodes(list[..], found)
      modifies this, nodes
      ensures Valid() && records == Loop([], Each(old(records), Spare(Udis(found))))
    {
      ghost var was, judge := records, Spare(Udis(found));
      var current, previous := root, root;
      ghost var n: nat, k: nat := 0, 0;
      WalkStarts(was, judge);
      while current != null
        invariant Valid() && n <= |nodes| && current == NodeAfter(nodes, n - 1) && Standing(previous, n)
        invariant Walking(was, judge, records, n, k)
        invariant forall x | x in nodes :: x in old(nodes)
        decreases |was| - k
      {
        ghost var now := records;
        assert nodes[n] in nodes && (n > 0 ==> nodes[n - 1] in nodes);
        ghost var m;
        previous, m := CleanOne(current, previous, list, found, n);
        WalkStep(was, judge, now, n, k, records, m);
        k, n := k + 1, m;
        current := current.next;
      }
      WalkEnds(was, judge, records, n, k);
    }

    /** `halevt_mount_print_udis`, without the annotations of listings. */
    method PrintUdis() returns (text: string)
      requires Valid()
      ensures text == PrintAll(records)
    {
      text := "";
      var current := root;
      ghost var n := 0;
      assert records[0..] == records;
      while current != null
        invariant 0 <= n <= |nodes| && current == NodeAfter(nodes, n - 1)
        invariant text + PrintAll(records[n..]) == PrintAll(records)
        decreases |nodes| - n
      {
        At(n);
        ghost var before := text;
        if current.mountpoint != None && current.device != None {
          text := text + current.udi + ":" + current.device.value + ":" + current.mountpoint.value + "\n";
        } else if current.mountpoint != None {
          text := text + current.udi + "::" + current.mountpoint.value + "\n";
        } else if current.device != None {
          text := text + current.udi + ":" + current.device.value + "\n";
        } else {
          text := text + current.udi + "\n";
        }
        assert text == before + PrintLine(records[n]);
        PrintNext(before, records, n);
        current := current.next;
        n := n + 1;
      }
    }

    /** `halevt_mount_rewrite_device_file`: the file afterwards. */
    method Rewrite() returns (file: Option<string>)
      requires Valid()
      ensures file == Written(records)
      ensures if records == [] then file == None else file == Some(PrintAll(records))
    {
      if root == null {
        return None;
      }
      var text := PrintUdis();
      file := Some(text);
    }
  }

  lemma PrintNext(text: string, rs: seq<Record>, n: nat)
    requires n < |rs|
    ensures (text + PrintLine(rs[n])) + PrintAll(rs[n + 1..]) == text + PrintAll(rs[n..])
  {
    assert rs[n..][0] == rs[n] && rs[n..][1..] == rs[n + 1..];
  }

  /* The commands */

  /** The table of a file, synchronised. */
  method Open(hal: Database, file: Option<string>) returns (ok: bool, table: Uditab)
    ensures fresh(table) && table.Valid() && fresh(table.nodes)
    ensures ok <==> !Exits(hal, Loaded(file))
    ensures ok ==> table.records == Synced(hal, Loaded(file))
  {
    table := new Uditab();
    ok := true;
    if file.Some? {
      table.ParseFile(file.value);
      ghost var loaded := table.nodes;
      assert forall i | 0 <= i < |loaded| :: loaded[i] in loaded;
      ok := table.Sync(hal);
      assert forall i | 0 <= i < |table.nodes| :: table.nodes[i] in loaded;
    }
  }

  /** The command that synchronises a file: what it leaves, which is the file as it was if it exits early. */
  method SyncFile(hal: Database, file: Option<string>) returns (ok: bool, written: Option<string>)
    ensures ok <==> !Exits(hal, Loaded(file))
    ensures written == if ok then Written(Synced(hal, Loaded(file))) else file
  {
    var table;
    ok, table := Open(hal, file);
    written := file;
    if ok { written := table.Rewrite(); }
  }

  /** The command that removes devices: it exits early, too, if the search finds nothing. */
  method CleanFile(hal: Database, file: Option<string>, q: Query) returns (ok: bool, written: Option<string>)
    ensures ok <==> !Exits(hal, Loaded(file)) && WantedUdis(Synced(hal, Loaded(file)), q) != []
    ensures written == if ok then Written(Cleaned(Synced(hal, Loaded(file)), q)) else file
  {
    var table;
    ok, table := Open(hal, file);
    written := file;
    if !ok { return; }
    var list; ghost var found;
    list, found := table.FindUdi(q);
    assert |Udis(found)| == |found|;
    ok := list[0] != null;
    if ok {
      table.Clean(list, found);
      written := table.Rewrite();
    }
  }
}
