/** What synchronising the table with the database does to its list, as values. */
module UditabSync {
  import opened Options
  import opened Hal
  import opened Sequences
  import opened UditabText

  /* The check of one device */

  datatype Outcome = Keep(record: Record) | Reject | Exit

  const FILESYSTEM := "filesystem"

  /** The boolean getter, which is false for a value of another type. */
  predicate IsTrue(v: Value) {
    v.Bool? && v.b
  }

  /** `halevt_mount_check_udi`. A getter that does not find a string ends the program. */
  function CheckUdi(hal: Database, udi: string): Outcome {
    if !HasProperty(hal, udi, "block.is_volume") || !IsTrue(hal[udi]["block.is_volume"]) then Reject
    else if !HasProperty(hal, udi, "block.device") then Reject
    else if !hal[udi]["block.device"].Str? then Exit
    else if !HasProperty(hal, udi, "volume.fsusage") then Reject
    else if !hal[udi]["volume.fsusage"].Str? then Exit
    else if hal[udi]["volume.fsusage"].s != FILESYSTEM then Reject
    else if !HasProperty(hal, udi, "volume.is_mounted") then Reject
    else
      var device := Some(hal[udi]["block.device"].s);
      if !IsTrue(hal[udi]["volume.is_mounted"]) then Keep(Record(udi, device, None))
      else if !HasProperty(hal, udi, "volume.mount_point") then Reject
      else if !hal[udi]["volume.mount_point"].Str? then Exit
      else Keep(Record(udi, device, Some(hal[udi]["volume.mount_point"].s)))
  }

  /* The check, said about the keys of the database */

  ghost predicate Has(hal: Database, udi: string, key: string, value: Value) {
    udi in hal && key in hal[udi] && hal[udi][key] == value
  }

  ghost predicate NoString(hal: Database, udi: string, key: string) {
    udi in hal && key in hal[udi] && forall s :: hal[udi][key] != Str(s)
  }

  /** The record is what the database says about a volume: it has a file system, the record has its block
      device, and its mount point exactly if it is mounted. */
  ghost predicate IsVolume(hal: Database, r: Record) {
    && Has(hal, r.udi, "block.is_volume", Bool(true))
    && r.device.Some? && Has(hal, r.udi, "block.device", Str(r.device.value))
    && Has(hal, r.udi, "volume.fsusage", Str("filesystem"))
    && "volume.is_mounted" in hal[r.udi]
    && if hal[r.udi]["volume.is_mounted"] == Bool(true)
       then r.mountpoint.Some? && Has(hal, r.udi, "volume.mount_point", Str(r.mountpoint.value))
       else r.mountpoint == None
  }

  /** A string that the check needs is there and is none. */
  ghost predicate Ends(hal: Database, udi: string) {
    Has(hal, udi, "block.is_volume", Bool(true)) &&
    (NoString(hal, udi, "block.device") ||
     ("block.device" in hal[udi] && NoString(hal, udi, "volume.fsusage")) ||
     ("block.device" in hal[udi] && Has(hal, udi, "volume.fsusage", Str("filesystem")) &&
      Has(hal, udi, "volume.is_mounted", Bool(true)) && NoString(hal, udi, "volume.mount_point")))
  }

  /** The check accepts a device with a record exactly if that is what the database says about a volume. */
  lemma CheckKeeps(hal: Database, r: Record)
    ensures CheckUdi(hal, r.udi) == Keep(r) <==> IsVolume(hal, r)
  {
  }

  lemma CheckKeepsUdi(hal: Database, udi: string)
    ensures CheckUdi(hal, udi).Keep? ==> CheckUdi(hal, udi).record.udi == udi
  {
  }

  /** The check ends the program exactly then. */
  lemma CheckEnds(hal: Database, udi: string)
    ensures CheckUdi(hal, udi).Exit? <==> Ends(hal, udi)
  {
    forall key, s | udi in hal && key in hal[udi] && hal[udi][key] == Str(s) ensures hal[udi][key].Str? { }
    forall key | udi in hal && key in hal[udi] && hal[udi][key].Str? ensures hal[udi][key] == Str(hal[udi][key].s) { }
  }

  /** What the check of a record leaves: nothing that the record said about the device before. */
  function Judge(hal: Database): Record -> Option<Record> {
    (r: Record) => var o := CheckUdi(hal, r.udi); if o.Keep? then Some(o.record) else None
  }

  /** A record is accepted, and replaced by another one of its udi, exactly if that is a volume's. */
  lemma JudgeAccepts(hal: Database, r: Record, accepted: Record)
    ensures Judge(hal)(r) == Some(accepted) <==> accepted.udi == r.udi && IsVolume(hal, accepted)
  {
    CheckKeepsUdi(hal, r.udi);
    if accepted.udi == r.udi { CheckKeeps(hal, accepted); }
  }

  ghost predicate Exits(hal: Database, rs: seq<Record>) {
    exists i | 0 <= i < |rs| :: Ends(hal, rs[i].udi)
  }

  /** What the clean loop leaves of a record. */
  function Spare(udis: seq<string>): Record -> Option<Record> {
    (r: Record) => if r.udi in udis then None else Some(r)
  }

  /* The removal loop */

  /** The loop over the list with the removal as it is written: a rejected entry right after the only
      kept one takes that one with it. */
  function Loop<T>(kept: seq<T>, outs: seq<Option<T>>): seq<T>
    decreases |outs|
  {
    if outs == [] then kept else Loop(Kept(kept, outs[0]), outs[1..])
  }

  /** What is kept after one more entry. */
  function Kept<T>(kept: seq<T>, out: Option<T>): seq<T> {
    if out.Some? then kept + [out.value] else if |kept| == 1 then [] else kept
  }

  function Accepted<T>(outs: seq<Option<T>>): seq<T> {
    if outs == [] then [] else if outs[0].Some? then [outs[0].value] + Accepted(outs[1..]) else Accepted(outs[1..])
  }

  /** What survives: heads are lost for as long as the first accepted entry is followed by a rejected one. */
  function Survivors<T>(outs: seq<Option<T>>): seq<T>
    decreases |outs|
  {
    if outs == [] then []
    else if outs[0].None? then Survivors(outs[1..])
    else if |outs| == 1 then [outs[0].value]
    else if outs[1].None? then Survivors(outs[2..])
    else [outs[0].value, outs[1].value] + Accepted(outs[2..])
  }

  lemma {:induction false} LoopWithTwo<T>(kept: seq<T>, outs: seq<Option<T>>)
    requires |kept| >= 2
    ensures Loop(kept, outs) == kept + Accepted(outs)
    decreases |outs|
  {
    if outs == [] {
      assert kept + [] == kept;
    } else {
      LoopWithTwo(Kept(kept, outs[0]), outs[1..]);
      if outs[0].Some? {
        assert kept + [outs[0].value] + Accepted(outs[1..]) == kept + Accepted(outs);
      } else {
        assert Accepted(outs) == Accepted(outs[1..]);
      }
    }
  }

  /** The exact result of the loop. */
  lemma {:induction false} LoopIsSurvivors<T>(outs: seq<Option<T>>)
    ensures Loop([], outs) == Survivors(outs)
    decreases |outs|
  {
    if outs != [] {
      if outs[0].None? {
        LoopIsSurvivors(outs[1..]);
      } else {
        var head := [outs[0].value];
        assert [] + head == head;
        assert Loop([], outs) == Loop(head, outs[1..]);
        if |outs| > 1 {
          assert outs[1..][0] == outs[1] && outs[1..][1..] == outs[2..];
          if outs[1].None? {
            LoopIsSurvivors(outs[2..]);
          } else {
            assert head + [outs[1].value] == [outs[0].value, outs[1].value];
            LoopWithTwo([outs[0].value, outs[1].value], outs[2..]);
          }
        }
      }
    }
  }

  /** How many accepted entries the loop loses. */
  function Lost<T>(outs: seq<Option<T>>): nat
    decreases |outs|
  {
    if outs == [] then 0
    else if outs[0].None? then Lost(outs[1..])
    else if |outs| > 1 && outs[1].None? then 1 + Lost(outs[2..])
    else 0
  }

  /** The loop keeps accepted entries only, in order, and all of them but the first `Lost(outs)`. */
  lemma {:induction false} SurvivorsAreLast<T>(outs: seq<Option<T>>)
    ensures Lost(outs) <= |Accepted(outs)| && Survivors(outs) == Accepted(outs)[Lost(outs)..]
    decreases |outs|
  {
    if outs != [] {
      if outs[0].None? {
        SurvivorsAreLast(outs[1..]);
      } else if |outs| > 1 {
        assert outs[1..][0] == outs[1] && outs[1..][1..] == outs[2..];
        if outs[1].None? { SurvivorsAreLast(outs[2..]); }
      }
    }
  }

  /** The first accepted entry is at `i` and directly followed by a rejected one. */
  predicate LoneAt<T>(outs: seq<Option<T>>, i: nat) {
    i + 1 < |outs| && outs[i].Some? && outs[i + 1].None? && forall k | 0 <= k < i :: outs[k].None?
  }

  predicate LoneHead<T>(outs: seq<Option<T>>) {
    exists i: nat | i < |outs| :: LoneAt(outs, i)
  }

  lemma {:induction false} LosesWhenLone<T>(outs: seq<Option<T>>)
    ensures Lost(outs) > 0 <==> LoneHead(outs)
  {
    if outs != [] {
      if outs[0].None? {
        LosesWhenLone(outs[1..]);
        if i: nat :| i < |outs| && LoneAt(outs, i) { assert LoneAt(outs[1..], i - 1); }
        if i: nat :| i < |outs[1..]| && LoneAt(outs[1..], i) { assert LoneAt(outs, i + 1); }
      } else {
        assert forall i: nat | LoneAt(outs, i) :: i == 0;
        assert |outs| > 1 && outs[1].None? ==> LoneAt(outs, 0);
      }
    }
  }

  /** The loop removes the rejected entries and nothing else exactly if the first accepted entry is not
      directly followed by a rejected one. */
  lemma LoopIsFilter<T>(outs: seq<Option<T>>)
    ensures Loop([], outs) == Accepted(outs) <==> !LoneHead(outs)
  {
    LoopIsSurvivors(outs);
    SurvivorsAreLast(outs);
    LosesWhenLone(outs);
  }

  /* Files */

  /** The list after synchronising. */
  function Synced(hal: Database, rs: seq<Record>): seq<Record> {
    Loop([], Each(rs, Judge(hal)))
  }

  /** An empty table has no file. */
  function Written(rs: seq<Record>): Option<string> {
    if rs == [] then None else Some(PrintAll(rs))
  }

  function Loaded(file: Option<string>): seq<Record> {
    if file.None? then [] else ParseFile(file.value)
  }

  /* A table that loses an accepted entry */

  /** A volume that is not mounted, which the database accepts. */
  const GOOD: Database := map["g" := map["block.is_volume" := Bool(true), "block.device" := Str("d"),
                                         "volume.fsusage" := Str(FILESYSTEM), "volume.is_mounted" := Bool(false)]]

  /** The second line is the only accepted one and becomes the head; the first one, whose device is gone,
      is rejected right behind it, and nothing is left. */
  lemma {:induction false} GoodHeadLost(file: string)
    requires file == "b\ng\n"
    ensures Loaded(Some(file)) == [Record("g", None, None), Record("b", None, None)]
    ensures var rs := Loaded(Some(file));
            Accepted(Each(rs, Judge(GOOD))) == [Record("g", Some("d"), None)] && Synced(GOOD, rs) == []
  {
    GoodLoaded(file);
    assert CheckUdi(GOOD, "g") == Keep(Record("g", Some("d"), None)) && CheckUdi(GOOD, "b") == Reject;
    var outs := Each([Record("g", None, None), Record("b", None, None)], Judge(GOOD));
    assert outs == [Some(Record("g", Some("d"), None)), None];
    HeadLost(Record("g", Some("d"), None));
  }

  /** A kept entry with a rejected one behind it. */
  lemma HeadLost<T>(x: T)
    ensures Loop([], [Some(x), None]) == [] && Accepted([Some(x), None]) == [x]
  {
    var outs := [Some(x), None];
    assert outs[1..] == [None] && outs[1..][1..] == [] && outs[2..] == [];
    assert Accepted(outs[1..]) == [];
    assert Survivors(outs) == Survivors(outs[2..]);
    LoopIsSurvivors(outs);
  }

  lemma GoodLoaded(file: string)
    requires file == "b\ng\n"
    ensures Loaded(Some(file)) == [Record("g", None, None), Record("b", None, None)]
  {
    var rs := [Record("b", None, None), Record("g", None, None)];
    TwoLines(rs[0], rs[1]);
    assert Content(rs[0]) == "b" && Content(rs[1]) == "g";
    assert file == PrintAll(rs);
    PrintedParses(rs);
  }

  lemma TwoLines(x: Record, y: Record)
    ensures PrintAll([x, y]) == PrintLine(x) + PrintLine(y) && Reverse([x, y]) == [y, x]
  {
    assert [x, y][1..] == [y] && [y][1..] == [];
    assert PrintAll([y]) == PrintLine(y) + "" == PrintLine(y);
    assert Reverse([y]) == [y];
  }

  /** Every entry is what the database says about its device. */
  ghost predicate Current(hal: Database, rs: seq<Record>) {
    forall i | 0 <= i < |rs| :: IsVolume(hal, rs[i])
  }

  /** Udis as a file can hold them. */
  predicate NamesUdis(rs: seq<Record>) {
    forall i | 0 <= i < |rs| :: rs[i].udi != "" && Plain(rs[i].udi, false)
  }

  lemma {:induction false} AcceptedIsCurrent(hal: Database, rs: seq<Record>)
    ensures Current(hal, Accepted(Each(rs, Judge(hal))))
    ensures NamesUdis(rs) ==> NamesUdis(Accepted(Each(rs, Judge(hal))))
  {
    if rs != [] {
      AcceptedIsCurrent(hal, rs[1..]);
      assert Each(rs, Judge(hal))[1..] == Each(rs[1..], Judge(hal));
    }
  }

  /** After synchronising, no entry that the database rejects is left, and every entry has the device
      and the mount point of the database. */
  lemma SyncedIsCurrent(hal: Database, rs: seq<Record>)
    ensures Current(hal, Synced(hal, rs))
    ensures NamesUdis(rs) ==> NamesUdis(Synced(hal, rs))
  {
    var outs := Each(rs, Judge(hal));
    LoopIsSurvivors(outs);
    SurvivorsAreLast(outs);
    AcceptedIsCurrent(hal, rs);
  }

  lemma {:induction false} AllAccepted(outs: seq<Option<Record>>, rs: seq<Record>)
    requires |outs| == |rs| && forall i | 0 <= i < |rs| :: outs[i] == Some(rs[i])
    ensures Accepted(outs) == rs
  {
    if rs != [] { AllAccepted(outs[1..], rs[1..]); }
  }

  /** Synchronising entries that the database knows replaces what they say and loses none. */
  lemma SyncedRefreshes(hal: Database, rs: seq<Record>, current: seq<Record>)
    requires Current(hal, current) && |rs| == |current| && forall i | 0 <= i < |rs| :: rs[i].udi == current[i].udi
    ensures !Exits(hal, rs) && Synced(hal, rs) == current
  {
    var outs := Each(rs, Judge(hal));
    forall i | 0 <= i < |rs| ensures outs[i] == Some(current[i]) { }
    LoopIsFilter(outs);
    AllAccepted(outs, current);
  }

  /** The line of a record can be read back, whatever its fields look like. */
  predicate OneLine(r: Record) {
    Plain(Content(r), true) && |Content(r)| <= CHUNK
  }

  lemma UdiReadBack(r: Record)
    requires OneLine(r) && r.udi != "" && Plain(r.udi, false)
    ensures var back := ReadFields(Content(r)); back.Some? && back.value.udi == r.udi
  {
    FirstCharIs(Content(r), ':', |r.udi|);
    assert Content(r)[..|r.udi|] == r.udi;
  }

  lemma {:induction false} UdisReadBack(rs: seq<Record>)
    requires NamesUdis(rs) && forall i | 0 <= i < |rs| :: OneLine(rs[i])
    ensures var back := ParseFile(PrintAll(rs));
            |back| == |rs| && forall i | 0 <= i < |rs| :: back[i].udi == Reverse(rs)[i].udi
  {
    if rs != [] {
      UdisReadBack(rs[1..]);
      UdiReadBack(rs[0]);
      LineParses(Content(rs[0]), PrintAll(rs[1..]));
    }
  }

  lemma ReverseIsCurrent(hal: Database, rs: seq<Record>)
    requires Current(hal, rs)
    ensures Current(hal, Reverse(rs))
    ensures NamesUdis(rs) ==> NamesUdis(Reverse(rs))
  {
    forall i | 0 <= i < |rs| ensures Reverse(rs)[i] == rs[|rs| - 1 - i] {
      ReverseAt(rs, |rs| - 1 - i);
    }
  }

  /** Writing current entries and synchronising again reverses them. */
  lemma {:induction false} SyncReverses(hal: Database, rs: seq<Record>)
    requires Current(hal, rs) && NamesUdis(rs) && forall i | 0 <= i < |rs| :: OneLine(rs[i])
    ensures !Exits(hal, Loaded(Written(rs))) && Synced(hal, Loaded(Written(rs))) == Reverse(rs)
  {
    UdisReadBack(rs);
    ReverseIsCurrent(hal, rs);
    SyncedRefreshes(hal, Loaded(Written(rs)), Reverse(rs));
  }

  lemma LoadedNames(file: Option<string>)
    ensures NamesUdis(Loaded(file))
  {
    if file.Some? { ParsedIsPrintable(file.value); }
  }

  lemma ReverseFits(rs: seq<Record>)
    requires forall i | 0 <= i < |rs| :: OneLine(rs[i])
    ensures forall i | 0 <= i < |rs| :: OneLine(Reverse(rs)[i])
  {
    forall i | 0 <= i < |rs| ensures OneLine(Reverse(rs)[i]) {
      ReverseAt(rs, |rs| - 1 - i);
    }
  }

  /** With an unchanged database, starting from any file at all: the first synchronisation leaves what
      the database says about each entry; if these entries fit on lines, the second one writes the same
      entries reversed, and the third one writes the first one's file again. */
  lemma {:induction false} ThreeSyncs(hal: Database, file: Option<string>, first: seq<Record>, second: seq<Record>, third: seq<Record>)
    requires first == Synced(hal, Loaded(file)) && forall i | 0 <= i < |first| :: OneLine(first[i])
    requires second == Synced(hal, Loaded(Written(first))) && third == Synced(hal, Loaded(Written(second)))
    ensures Current(hal, first) && second == Reverse(first) && Written(third) == Written(first)
    ensures !Exits(hal, Loaded(Written(first))) && !Exits(hal, Loaded(Written(second)))
  {
    LoadedNames(file);
    SyncedIsCurrent(hal, Loaded(file));
    SyncReverses(hal, first);
    ReverseIsCurrent(hal, first);
    ReverseFits(first);
    SyncReverses(hal, second);
    ReverseTwice(first);
  }
}
