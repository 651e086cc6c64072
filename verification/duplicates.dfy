/** The duplicate check of duplicate_checker.py: the entries of the output
    folder are scanned in listing order, directory names are collected in a
    list of those seen, and a directory name met a second time is reported.
    The listing is an input; whether an entry is a directory is part of it.
 */
module Duplicates {
  import opened Text

  /** An entry of the output folder. */
  datatype FolderEntry = FolderEntry(name: string, isDir: bool)

  const DuplicatePrefix: string := "Duplicate address: "
  const NoDuplicatesMessage: string := "No duplicate addresses found."

  /** The names of the directory entries, in listing order. */
  function DirNames(entries: seq<FolderEntry>): (ns: seq<string>)
    ensures |ns| <= |entries|
  {
    if |entries| == 0 then []
    else
      var last := entries[|entries| - 1];
      DirNames(entries[..|entries| - 1]) + (if last.isDir then [last.name] else [])
  }

  /** No two entries share a name, as in any real directory listing. */
  predicate UniqueNames(entries: seq<FolderEntry>) {
    forall i, j :: 0 <= i < j < |entries| ==> entries[i].name != entries[j].name
  }

  /** The directory names of a listing without repeated names are distinct,
      and each is the name of some entry. */
  lemma {:induction false} DirNamesOfUnique(entries: seq<FolderEntry>)
    requires UniqueNames(entries)
    ensures Distinct(DirNames(entries))
    ensures forall x :: x in DirNames(entries) ==> exists i :: 0 <= i < |entries| && entries[i].name == x
  {
    if |entries| > 0 {
      var init := entries[..|entries| - 1];
      var last := entries[|entries| - 1];
      DirNamesOfUnique(init);
      var d := DirNames(init);
      if last.isDir {
        assert last.name !in d;
        DistinctSnoc(d, last.name);
      }
    }
  }

  /** Every name once, at its first occurrence. */
  function Dedup(s: seq<string>): (d: seq<string>)
    ensures Distinct(d)
    ensures forall x :: x in d <==> x in s
    ensures |d| <= |s|
  {
    if |s| == 0 then []
    else
      var init := s[..|s| - 1];
      var d := Dedup(init);
      var x := s[|s| - 1];
      assert s == init + [x];
      DistinctSnoc(d, x);
      if x in d then d else d + [x]
  }

  /** Dropping repeats shortens a list exactly when it has a repeat. */
  lemma {:induction false} DedupLength(s: seq<string>)
    ensures |Dedup(s)| == |s| <==> Distinct(s)
  {
    if |s| > 0 {
      var init := s[..|s| - 1];
      var x := s[|s| - 1];
      assert s == init + [x];
      DedupLength(init);
      DistinctSnoc(init, x);
    }
  }

  /** One more entry of the listing. */
  lemma DirNamesSnoc(entries: seq<FolderEntry>, i: nat)
    requires i < |entries|
    ensures DirNames(entries[..i + 1])
            == DirNames(entries[..i]) + (if entries[i].isDir then [entries[i].name] else [])
  {
    assert entries[..i + 1][..i] == entries[..i];
  }

  /** One more name: it is kept when new, and it makes a repeat when it was
      seen before. */
  lemma DedupSnoc(s: seq<string>, x: string)
    ensures Dedup(s + [x]) == if x in Dedup(s) then Dedup(s) else Dedup(s) + [x]
    ensures Distinct(s + [x]) <==> Distinct(s) && x !in Dedup(s)
  {
    assert (s + [x])[..|s|] == s;
    DistinctSnoc(s, x);
  }

  /** The output line for a reported name starts differently from the
      closing message. */
  lemma ReportNotClosing(name: string)
    ensures DuplicatePrefix + name != NoDuplicatesMessage
  {
    assert (DuplicatePrefix + name)[0] == 'D';
  }

  /** What the scan has established after the directory names `names`. */
  predicate Scanned(names: seq<string>, found: bool, seen: seq<string>, lines: seq<string>) {
    && seen == Dedup(names)
    && (found <==> !Distinct(names))
    && |lines| == |names| - |seen|
    && (found <==> |lines| > 0)
    && NoDuplicatesMessage !in lines
  }

  /** A directory name not seen before is added to the seen list. */
  lemma ScanNew(entries: seq<FolderEntry>, i: nat, found: bool, seen: seq<string>, lines: seq<string>)
    requires i < |entries| && entries[i].isDir && entries[i].name !in seen
    requires Scanned(DirNames(entries[..i]), found, seen, lines)
    ensures Scanned(DirNames(entries[..i + 1]), found, seen + [entries[i].name], lines)
  {
    DirNamesSnoc(entries, i);
    DedupSnoc(DirNames(entries[..i]), entries[i].name);
  }

  /** A directory name seen before is reported. */
  lemma ScanRepeat(entries: seq<FolderEntry>, i: nat, found: bool, seen: seq<string>, lines: seq<string>)
    requires i < |entries| && entries[i].isDir && entries[i].name in seen
    requires Scanned(DirNames(entries[..i]), found, seen, lines)
    ensures Scanned(DirNames(entries[..i + 1]), true, seen, lines + [DuplicatePrefix + entries[i].name])
  {
    DirNamesSnoc(entries, i);
    DedupSnoc(DirNames(entries[..i]), entries[i].name);
    ReportNotClosing(entries[i].name);
  }

  /** An entry that is not a directory changes nothing. */
  lemma ScanFile(entries: seq<FolderEntry>, i: nat, found: bool, seen: seq<string>, lines: seq<string>)
    requires i < |entries| && !entries[i].isDir
    requires Scanned(DirNames(entries[..i]), found, seen, lines)
    ensures Scanned(DirNames(entries[..i + 1]), found, seen, lines)
  {
    DirNamesSnoc(entries, i);
    assert DirNames(entries[..i + 1]) == DirNames(entries[..i]);
  }

  /** At the end of the scan a repeat was found exactly when names were
      dropped from the seen list. */
  lemma ScanDone(names: seq<string>, found: bool, seen: seq<string>, lines: seq<string>)
    requires Scanned(names, found, seen, lines)
    ensures found <==> |seen| < |names|
  {
    DedupLength(names);
  }

  /** `check_duplicates`. `seen` is the list `duplicate_addresses`, `found`
      is `duplicate_found` and `lines` what is printed. Entries that are not
      directories are passed over. */
  method CheckDuplicates(entries: seq<FolderEntry>) returns (found: bool, seen: seq<string>, lines: seq<string>)
    ensures seen == Dedup(DirNames(entries))
    ensures found <==> !Distinct(DirNames(entries))
    ensures found <==> |seen| < |DirNames(entries)|
    ensures NoDuplicatesMessage in lines <==> !found
    ensures |lines| == |DirNames(entries)| - |seen| + (if found then 0 else 1)
    ensures UniqueNames(entries) ==> !found && lines == [NoDuplicatesMessage]
  {
    seen := [];
    found := false;
    lines := [];
    var i := 0;
    while i < |entries|
      invariant 0 <= i <= |entries|
      invariant Scanned(DirNames(entries[..i]), found, seen, lines)
    {
      var entry := entries[i];
      if entry.isDir {
        if entry.name in seen {
          ScanRepeat(entries, i, found, seen, lines);
          found := true;
          lines := lines + [DuplicatePrefix + entry.name];
        } else {
          ScanNew(entries, i, found, seen, lines);
          seen := seen + [entry.name];
        }
      } else {
        ScanFile(entries, i, found, seen, lines);
      }
      i := i + 1;
    }
    assert entries[..|entries|] == entries;
    ScanDone(DirNames(entries), found, seen, lines);
    if UniqueNames(entries) {
      DirNamesOfUnique(entries);
    }
    if !found {
      lines := lines + [NoDuplicatesMessage];
    }
  }
}
