/** Finding the configuration files: every regular file of three directories whose name ends in the
    extension, once for each name, from the first directory that has it. */
module ConfFiles {
  import opened Options
  import opened CStrings

  const EXTENSION := ".xml"

  /** What `stat` says about a name that a directory lists. */
  datatype Status = Regular | Special | Vanished
  datatype DirEntry = DirEntry(name: string, status: Status)

  /** A directory that cannot be opened, or is not defined, is missing. */
  datatype Directory = Missing | Listing(path: string, entries: seq<DirEntry>)

  predicate HasExtension(name: string) {
    |name| >= |EXTENSION| && name[|name| - |EXTENSION|..] == EXTENSION
  }

  predicate Eligible(e: DirEntry) {
    e.status.Regular? && e.name != EXTENSION && HasExtension(e.name)
  }

  /* The scan of a name */

  /** Two occurrences of the extension do not overlap. */
  lemma NoOverlap(s: string, i: nat, j: nat)
    requires Occurs(EXTENSION, s, i) && Occurs(EXTENSION, s, j) && i < j
    ensures i + |EXTENSION| <= j
  {
    if j < i + |EXTENSION| {
      OccursAt(EXTENSION, s, i, j - i);
      OccursAt(EXTENSION, s, j, 0);
    }
  }

  /** A hit of the search from `pos` that is not at the end of the name leaves room for a step of the
      length of the extension from `pos`, and a hit at the end, if there is one, is not skipped. */
  lemma StepSkipsNothing(s: string, pos: nat, hit: nat)
    requires pos <= hit && Occurs(EXTENSION, s, hit) && hit + |EXTENSION| != |s|
    ensures pos + |EXTENSION| <= |s|
    ensures HasExtension(s) ==> pos + |EXTENSION| <= |s| - |EXTENSION|
  {
    if HasExtension(s) {
      assert Occurs(EXTENSION, s, |s| - |EXTENSION|);
      NoOverlap(s, hit, |s| - |EXTENSION|);
    }
  }

  /** The loop that looks for the extension at the end of a name. It goes on from its own position, not
      from behind the hit. */
  method EndsInExtension(name: array<char>) returns (ends: bool)
    requires Terminated(name[..], 0)
    ensures ends <==> HasExtension(Text(name[..], 0))
  {
    ghost var b, s := name[..], Text(name[..], 0);
    var pos := 0;
    while true
      invariant pos <= |s| && (HasExtension(s) ==> pos <= |s| - |EXTENSION|)
      decreases |s| - pos
    {
      TextFrom(b, 0, pos);
      var hit := Search(name, pos, EXTENSION);
      FindSpec(EXTENSION, s[pos..]);
      if hit == -1 {
        if HasExtension(s) { OccursInSuffix(EXTENSION, s, pos, |s| - |EXTENSION| - pos); }
        return false;
      }
      OccursInSuffix(EXTENSION, s, pos, hit - pos);
      TextFrom(b, 0, hit);
      var n := Length(name, hit);
      if n == |EXTENSION| {
        return true;
      }
      StepSkipsNothing(s, pos, hit);
      pos := pos + |EXTENSION|;
    }
  }

  /* The merge */

  datatype Conf = Conf(base: string, file: string)

  function Bases(found: seq<Conf>): (bases: seq<string>)
    ensures |bases| == |found| && forall i | 0 <= i < |found| :: bases[i] == found[i].base
  {
    seq(|found|, i requires 0 <= i < |found| => found[i].base)
  }

  function Add(found: seq<Conf>, path: string, e: DirEntry): seq<Conf> {
    if Eligible(e) && e.name !in Bases(found) then found + [Conf(e.name, path + e.name)] else found
  }

  function AddAll(found: seq<Conf>, path: string, entries: seq<DirEntry>): seq<Conf> {
    if entries == [] then found else Add(AddAll(found, path, entries[..|entries| - 1]), path, entries[|entries| - 1])
  }

  function Merge(dirs: seq<Directory>): seq<Conf> {
    if dirs == [] then [] else
    var found := Merge(dirs[..|dirs| - 1]);
    match dirs[|dirs| - 1]
    case Missing => found
    case Listing(path, entries) => AddAll(found, path, entries)
  }

  predicate Lists(entries: seq<DirEntry>, name: string) {
    exists i | 0 <= i < |entries| :: entries[i].name == name && Eligible(entries[i])
  }

  predicate Offers(d: Directory, name: string) {
    d.Listing? && Lists(d.entries, name)
  }

  /** The first directory that offers a name. */
  function Origin(dirs: seq<Directory>, name: string): (d: nat)
    ensures d <= |dirs| && (d < |dirs| ==> Offers(dirs[d], name))
    ensures forall k | 0 <= k < d :: !Offers(dirs[k], name)
  {
    if dirs == [] then 0 else
    var n := |dirs| - 1;
    var d := Origin(dirs[..n], name);
    if d < n || Offers(dirs[n], name) then d else |dirs|
  }

  predicate Distinct(found: seq<Conf>) {
    forall i, j | 0 <= i < j < |found| :: found[i].base != found[j].base
  }

  lemma ListsSnoc(entries: seq<DirEntry>, e: DirEntry, name: string)
    ensures Lists(entries + [e], name) <==> Lists(entries, name) || (e.name == name && Eligible(e))
  {
    var l := entries + [e];
    if i :| 0 <= i < |entries| && entries[i].name == name && Eligible(entries[i]) { assert l[i] == entries[i]; }
    assert l[|entries|] == e;
  }

  /** What one directory adds: a new tail of names that it offers and that were not found before. */
  lemma {:induction false} AddAllAdds(found: seq<Conf>, path: string, entries: seq<DirEntry>)
    requires Distinct(found)
    ensures var all := AddAll(found, path, entries);
            |found| <= |all| && all[..|found|] == found && Distinct(all) &&
            (forall i | |found| <= i < |all| :: all[i].file == path + all[i].base) &&
            (forall name :: name in Bases(all) <==> name in Bases(found) || Lists(entries, name))
  {
    if entries != [] {
      var n := |entries| - 1;
      AddAllAdds(found, path, entries[..n]);
      var before, e := AddAll(found, path, entries[..n]), entries[n];
      var all := Add(before, path, e);
      assert entries == entries[..n] + [e];
      forall name ensures name in Bases(all) <==> name in Bases(found) || Lists(entries, name) {
        ListsSnoc(entries[..n], e, name);
        if all != before { assert Bases(all) == Bases(before) + [e.name]; }
      }
    }
  }

  lemma {:induction false} MergeIsDistinct(dirs: seq<Directory>)
    ensures Distinct(Merge(dirs))
  {
    if dirs != [] {
      var n := |dirs| - 1;
      MergeIsDistinct(dirs[..n]);
      if dirs[n].Listing? { AddAllAdds(Merge(dirs[..n]), dirs[n].path, dirs[n].entries); }
    }
  }

  lemma {:induction false} MergeHas(dirs: seq<Directory>, name: string)
    ensures name in Bases(Merge(dirs)) <==> Origin(dirs, name) < |dirs|
  {
    if dirs != [] {
      var n := |dirs| - 1;
      MergeHas(dirs[..n], name);
      MergeIsDistinct(dirs[..n]);
      if dirs[n].Listing? { AddAllAdds(Merge(dirs[..n]), dirs[n].path, dirs[n].entries); }
    }
  }

  lemma {:induction false} MergeFrom(dirs: seq<Directory>, i: nat)
    requires i < |Merge(dirs)|
    ensures var c := Merge(dirs)[i]; var d := Origin(dirs, c.base);
            d < |dirs| && c.file == dirs[d].path + c.base
  {
    var n := |dirs| - 1;
    var before := Merge(dirs[..n]);
    MergeIsDistinct(dirs[..n]);
    if dirs[n].Listing? { AddAllAdds(before, dirs[n].path, dirs[n].entries); }
    if i < |before| {
      MergeFrom(dirs[..n], i);
      assert Merge(dirs)[i] == before[i];
    } else {
      var name := Merge(dirs)[i].base;
      assert forall k | 0 <= k < |before| :: Merge(dirs)[k] == before[k];
      assert name !in Bases(before);
      MergeHas(dirs[..n], name);
      assert Bases(Merge(dirs))[i] == name;
      MergeHas(dirs, name);
    }
  }

  /** The directory has a regular file of that name, which ends in the extension and is longer. */
  ghost predicate HasConf(d: Directory, name: string) {
    |name| > 4 && name[|name| - 4..] == ".xml" && d.Listing? && DirEntry(name, Regular) in d.entries
  }

  lemma OffersIs(d: Directory, name: string)
    ensures Offers(d, name) <==> HasConf(d, name)
  {
    if d.Listing? {
      assert forall e: DirEntry :: e.status.Regular? <==> e == DirEntry(e.name, Regular);
      if |name| == 4 { assert name[0..] == name; }
    }
  }

  /** The main result: a name is found exactly if some directory has such a file, and once; the file is the
      one of the first directory that does. */
  lemma FirstDirectoryWins(dirs: seq<Directory>, name: string)
    ensures Distinct(Merge(dirs))
    ensures name in Bases(Merge(dirs)) <==> exists d | 0 <= d < |dirs| :: HasConf(dirs[d], name)
    ensures forall i | 0 <= i < |Merge(dirs)| && Merge(dirs)[i].base == name ::
              exists d | 0 <= d < |dirs| :: HasConf(dirs[d], name) && Merge(dirs)[i].file == dirs[d].path + name &&
                                            forall k | 0 <= k < d :: !HasConf(dirs[k], name)
  {
    MergeIsDistinct(dirs);
    MergeHas(dirs, name);
    forall d | 0 <= d < |dirs| ensures Offers(dirs[d], name) <==> HasConf(dirs[d], name) { OffersIs(dirs[d], name); }
    forall i | 0 <= i < |Merge(dirs)| && Merge(dirs)[i].base == name
      ensures Origin(dirs, name) < |dirs| && Merge(dirs)[i].file == dirs[Origin(dirs, name)].path + name
    {
      MergeFrom(dirs, i);
    }
    assert Origin(dirs, name) < |dirs| ==> HasConf(dirs[Origin(dirs, name)], name);
  }

  /** In the order of reading, some first `p` entries of directory `d` hold a file named `a`, and up to there
      no file is named `b`. */
  ghost predicate FoundBefore(dirs: seq<Directory>, d: nat, p: nat, a: string, b: string) {
    && d < |dirs| && dirs[d].Listing? && p <= |dirs[d].entries|
    && HasConf(dirs[d].(entries := dirs[d].entries[..p]), a)
    && !HasConf(dirs[d].(entries := dirs[d].entries[..p]), b)
    && forall k | 0 <= k < d :: !HasConf(dirs[k], b)
  }

  lemma {:induction false} AddAllOrdered(found: seq<Conf>, path: string, entries: seq<DirEntry>, i: nat, j: nat)
    returns (p: nat)
    requires Distinct(found) && |found| <= i < j < |AddAll(found, path, entries)|
    ensures var all := AddAll(found, path, entries);
            p <= |entries| && Lists(entries[..p], all[i].base) && !Lists(entries[..p], all[j].base)
  {
    var n := |entries| - 1;
    var before := AddAll(found, path, entries[..n]);
    AddAllAdds(found, path, entries);
    AddAllAdds(found, path, entries[..n]);
    if j < |before| {
      p := AddAllOrdered(found, path, entries[..n], i, j);
      assert entries[..n][..p] == entries[..p];
    } else {
      p := n;
      assert before[i].base == Bases(before)[i];
      assert forall k | 0 <= k < |found| :: Bases(found)[k] == before[k].base != before[i].base;
    }
  }

  /** The files stand in the order in which they are first read: by directories, and within a directory by
      its entries. */
  lemma {:induction false} MergeOrdered(dirs: seq<Directory>, i: nat, j: nat) returns (d: nat, p: nat)
    requires i < j < |Merge(dirs)|
    ensures FoundBefore(dirs, d, p, Merge(dirs)[i].base, Merge(dirs)[j].base)
  {
    var n := |dirs| - 1;
    var before, all := Merge(dirs[..n]), Merge(dirs);
    MergeIsDistinct(dirs[..n]);
    if dirs[n].Listing? { AddAllAdds(before, dirs[n].path, dirs[n].entries); }
    if j < |before| {
      d, p := MergeOrdered(dirs[..n], i, j);
      assert all[i] == before[i] && all[j] == before[j];
    } else {
      var a, b := all[i].base, all[j].base;
      NotOfferedBefore(dirs, j);
      if i < |before| {
        d := OfferedBefore(dirs, i);
        p := |dirs[d].entries|;
        assert dirs[d].entries[..p] == dirs[d].entries;
      } else {
        d := n;
        p := AddAllOrdered(before, dirs[n].path, dirs[n].entries, i, j);
        OffersIs(dirs[n].(entries := dirs[n].entries[..p]), a);
        OffersIs(dirs[n].(entries := dirs[n].entries[..p]), b);
      }
    }
  }

  lemma NotOfferedBefore(dirs: seq<Directory>, j: nat)
    requires dirs != [] && |Merge(dirs[..|dirs| - 1])| <= j < |Merge(dirs)|
    ensures forall k | 0 <= k < |dirs| - 1 :: !HasConf(dirs[k], Merge(dirs)[j].base)
  {
    var n := |dirs| - 1;
    var before, all := Merge(dirs[..n]), Merge(dirs);
    var b := all[j].base;
    MergeIsDistinct(dirs[..n]);
    if dirs[n].Listing? { AddAllAdds(before, dirs[n].path, dirs[n].entries); }
    assert forall k | 0 <= k < |before| :: before[k] == all[k];
    MergeHas(dirs[..n], b);
    forall k | 0 <= k < n ensures !HasConf(dirs[k], b) {
      OffersIs(dirs[k], b);
      assert dirs[..n][k] == dirs[k];
    }
  }

  lemma OfferedBefore(dirs: seq<Directory>, i: nat) returns (d: nat)
    requires dirs != [] && i < |Merge(dirs[..|dirs| - 1])|
    ensures i < |Merge(dirs)| && d < |dirs| - 1 && HasConf(dirs[d], Merge(dirs)[i].base)
  {
    var n := |dirs| - 1;
    var before := Merge(dirs[..n]);
    MergeIsDistinct(dirs[..n]);
    if dirs[n].Listing? { AddAllAdds(before, dirs[n].path, dirs[n].entries); }
    assert before[i] == Merge(dirs)[i];
    MergeFrom(dirs[..n], i);
    d := Origin(dirs[..n], before[i].base);
    OffersIs(dirs[d], before[i].base);
  }

  /* The two arrays */

  /** A list of strings that ends in a null. */
  ghost predicate HoldsList(list: seq<Option<string>>, strings: seq<string>) {
    |list| == |strings| + 1 && list[|strings|] == None && forall i | 0 <= i < |strings| :: list[i] == Some(strings[i])
  }

  ghost function Files(found: seq<Conf>): (files: seq<string>)
    ensures |files| == |found| && forall i | 0 <= i < |found| :: files[i] == found[i].file
  {
    seq(|found|, i requires 0 <= i < |found| => found[i].file)
  }

  /** Makes a list one longer. */
  method AppendString(list: array<Option<string>>, s: string, ghost strings: seq<string>) returns (longer: array<Option<string>>)
    requires HoldsList(list[..], strings)
    ensures fresh(longer) && HoldsList(longer[..], strings + [s])
  {
    var n := list.Length;
    longer := new Option<string>[n + 1](i requires 0 <= i < n + 1 reads list => if i < n then list[i] else None);
    longer[n - 1] := Some(s);
  }

  /** The search for a base name that is there. */
  method Contains(list: array<Option<string>>, s: string, ghost strings: seq<string>) returns (found: bool)
    requires HoldsList(list[..], strings)
    ensures found <==> s in strings
  {
    var i := 0;
    while list[i] != None
      invariant i <= |strings| && s !in strings[..i]
      decreases |strings| - i
    {
      if list[i].value == s {
        return true;
      }
      i := i + 1;
    }
    return false;
  }

  /** A name as `readdir` hands it out. */
  method NameBuffer(name: string) returns (buf: array<char>)
    requires IsText(name)
    ensures Terminated(buf[..], 0) && Text(buf[..], 0) == name
  {
    buf := new char[|name| + 1](i requires 0 <= i < |name| + 1 => if i < |name| then name[i] else NUL);
    EndIs(buf[..], 0, |name|);
    assert buf[0..|name|] == name;
  }

  method IsEligible(e: DirEntry) returns (eligible: bool)
    requires IsText(e.name)
    ensures eligible <==> Eligible(e)
  {
    if e.status != Regular || e.name == EXTENSION {
      return false;
    }
    var name := NameBuffer(e.name);
    eligible := EndsInExtension(name);
  }

  /** One directory: the loop over its entries. */
  method ReadDirectory(path: string, entries: seq<DirEntry>, bases: array<Option<string>>, files: array<Option<string>>, ghost found: seq<Conf>)
    returns (newBases: array<Option<string>>, newFiles: array<Option<string>>, ghost all: seq<Conf>)
    requires HoldsList(bases[..], Bases(found)) && HoldsList(files[..], Files(found))
    requires forall i | 0 <= i < |entries| :: IsText(entries[i].name)
    ensures all == AddAll(found, path, entries)
    ensures HoldsList(newBases[..], Bases(all)) && HoldsList(newFiles[..], Files(all))
  {
    newBases, newFiles, all := bases, files, found;
    for k := 0 to |entries|
      invariant all == AddAll(found, path, entries[..k])
      invariant HoldsList(newBases[..], Bases(all)) && HoldsList(newFiles[..], Files(all))
    {
      var e := entries[k];
      assert entries[..k + 1][..k] == entries[..k];
      ghost var before := all;
      all := Add(before, path, e);
      var eligible := IsEligible(e);
      if eligible {
        var known := Contains(newBases, e.name, Bases(before));
        if !known {
          newBases := AppendString(newBases, e.name, Bases(before));
          newFiles := AppendString(newFiles, path + e.name, Files(before));
          assert Bases(all) == Bases(before) + [e.name] && Files(all) == Files(before) + [path + e.name];
        }
      }
    }
    assert entries[..|entries|] == entries;
  }

  /** `halevt_find_conf_files`. */
  method FindConfFiles(dirs: seq<Directory>) returns (files: array<Option<string>>)
    requires forall d | 0 <= d < |dirs| && dirs[d].Listing? ::
               forall i | 0 <= i < |dirs[d].entries| :: IsText(dirs[d].entries[i].name)
    ensures HoldsList(files[..], Files(Merge(dirs)))
  {
    var bases := new Option<string>[1](_ => None);
    files := new Option<string>[1](_ => None);
    ghost var found := [];
    for d := 0 to |dirs|
      invariant found == Merge(dirs[..d]) && HoldsList(bases[..], Bases(found)) && HoldsList(files[..], Files(found))
    {
      assert dirs[..d + 1][..d] == dirs[..d];
      match dirs[d] {
        case Missing =>
        case Listing(path, entries) =>
          bases, files, found := ReadDirectory(path, entries, bases, files, found);
      }
    }
    assert dirs[..|dirs|] == dirs;
  }
}
