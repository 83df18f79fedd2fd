/** The eligibility filter: which top-level entries of the folder are
    exposed. The folder's listing, each entry's metadata and the first read
    used for content sniffing are inputs; Go's http.DetectContentType is
    the parameter `detect`, an arbitrary function of the sniffed bytes. */
module Scanner {
  import opened Common
  import opened Manifest

  /** The size ceiling, 10 MiB; a file of exactly this size is allowed. */
  const MaxFileSize: nat := 10 * 1024 * 1024

  /** The size of the buffer handed to the one read used for sniffing. */
  const SniffLen: nat := 512

  /** What e.Info() reports about a file. */
  datatype FileInfo = FileInfo(size: nat, modTime: Time)

  /** The outcome of one f.Read(buf) into the 512-byte sniff buffer:
      the bytes buf[:n] and whether an error came with them. */
  datatype ReadOutcome = ReadOutcome(data: seq<byte>, failed: bool)

  /** Go's Read never returns more bytes than the buffer holds. */
  type SniffRead = r: ReadOutcome | |r.data| <= SniffLen witness ReadOutcome([], true)

  /** One entry of os.ReadDir: its name, whether it is a directory, the
      metadata e.Info() yields (None when that call fails), and the outcome
      of opening the file and reading it once (None when os.Open fails). */
  datatype DirEntry = DirEntry(name: string, isDir: bool, info: Option<FileInfo>, sniff: Option<SniffRead>)

  /** The first Read on a freshly opened regular file holding `content`:
      as many bytes as fit the buffer, and io.EOF when the file is empty. */
  function FirstRead(content: seq<byte>): (r: SniffRead)
    ensures |r.data| == if |content| < SniffLen then |content| else SniffLen
    ensures r.data == content[..|r.data|]
    ensures r.failed <==> content == []
  {
    if |content| < SniffLen then ReadOutcome(content, content == [])
    else ReadOutcome(content[..SniffLen], false)
  }

  /** detectMIME: fails when the file cannot be opened, or when the read
      returned no bytes together with an error; otherwise the MIME type
      sniffed from the bytes that were read. */
  function DetectMIME(sniff: Option<SniffRead>, detect: seq<byte> -> string): (mime: Option<string>)
    ensures mime.None? <==> sniff.None? || (sniff.value.failed && sniff.value.data == [])
    ensures mime.Some? ==> mime.value == detect(sniff.value.data) && |sniff.value.data| <= SniffLen
  {
    match sniff
    case None => None
    case Some(r) => if r.failed && |r.data| == 0 then None else Some(detect(r.data))
  }

  /** The MIME types outside text/ that are still exposed as text. */
  const TextApplicationTypes: set<string> :=
    {"application/json", "application/xml", "application/javascript", "application/x-yaml"}

  /** isBinary: a MIME type is binary unless it is text/... or on the
      short allow-list of structured-text application types. */
  predicate IsBinary(mime: string)
    ensures !IsBinary(mime) <==> HasPrefix(mime, "text/") || mime in TextApplicationTypes
  {
    !HasPrefix(mime, "text/") &&
    mime != "application/json" &&
    mime != "application/xml" &&
    mime != "application/javascript" &&
    mime != "application/x-yaml"
  }

  /** One pass of the loop body of ScanFolder over a single entry: the
      record it appends, or None when one of the guards skips the entry. */
  function Admit(e: DirEntry, detect: seq<byte> -> string): (r: Option<FileEntry>)
    // soundness: a record describes a non-directory, small enough, text-like entry
    ensures r.Some? ==>
      && !e.isDir
      && e.info.Some?
      && r.value.name == e.name
      && r.value.size == e.info.value.size
      && r.value.size <= MaxFileSize
      && r.value.lastModified == UTC(e.info.value.modTime)
      && DetectMIME(e.sniff, detect) == Some(r.value.mimeType)
      && !IsBinary(r.value.mimeType)
    // completeness: every such file gets a record
    ensures (&& !e.isDir
             && e.info.Some?
             && e.info.value.size <= MaxFileSize
             && DetectMIME(e.sniff, detect).Some?
             && !IsBinary(DetectMIME(e.sniff, detect).value)) ==> r.Some?
  {
    if e.isDir then None
    else match e.info
      case None => None
      case Some(info) =>
        if info.size > MaxFileSize then None
        else match DetectMIME(e.sniff, detect)
          case None => None
          case Some(mime) =>
            if IsBinary(mime) then None
            else Some(FileEntry(e.name, mime, info.size, UTC(info.modTime)))
  }

  /** The specification of a scan: the records of the admitted entries, in
      listing order. */
  function Eligible(entries: seq<DirEntry>, detect: seq<byte> -> string): (files: seq<FileEntry>)
    ensures |files| <= |entries|
  {
    if entries == [] then []
    else
      var last := Admit(entries[|entries| - 1], detect);
      Eligible(entries[..|entries| - 1], detect) + (if last.Some? then [last.value] else [])
  }

  /** The positions, in increasing order, of the entries a scan admits. */
  function Picks(entries: seq<DirEntry>, detect: seq<byte> -> string): (p: seq<nat>)
    ensures forall k :: 0 <= k < |p| ==> p[k] < |entries|
    ensures forall k, l :: 0 <= k < l < |p| ==> p[k] < p[l]
    ensures forall i :: 0 <= i < |entries| ==> (i in p <==> Admit(entries[i], detect).Some?)
  {
    if entries == [] then []
    else
      var n := |entries| - 1;
      var p := Picks(entries[..n], detect);
      assert forall i :: 0 <= i < n ==> entries[..n][i] == entries[i];
      if Admit(entries[n], detect).Some? then p + [n] else p
  }

  /** ScanFolder: a failed listing is returned as the error, with no list;
      otherwise the loop appends, in listing order, one record for each
      entry that passes every guard. Since os.ReadDir lists by name, the
      records come out sorted by name. */
  method ScanFolder(listing: Result<seq<DirEntry>>, detect: seq<byte> -> string)
    returns (result: Result<seq<FileEntry>>)
    ensures listing.Err? ==> result == Err(listing.error)
    ensures listing.Ok? ==> result == Ok(Eligible(listing.value, detect))
    ensures listing.Ok? && SortedByName(listing.value) ==>
      forall k, l :: 0 <= k < l < |result.value| ==> NameLess(result.value[k].name, result.value[l].name)
  {
    if listing.Err? {
      return Err(listing.error);
    }
    var entries := listing.value;
    var files: seq<FileEntry> := [];
    for i := 0 to |entries|
      invariant files == Eligible(entries[..i], detect)
    {
      var e := entries[i];
      assert entries[..i + 1][..i] == entries[..i];
      if e.isDir {
        continue;
      }
      if e.info.None? {
        continue;
      }
      var info := e.info.value;
      if info.size > MaxFileSize {
        continue;
      }
      var mime := DetectMIME(e.sniff, detect);
      if mime.None? {
        continue;
      }
      if IsBinary(mime.value) {
        continue;
      }
      files := files + [FileEntry(e.name, mime.value, info.size, UTC(info.modTime))];
    }
    assert entries[..|entries|] == entries;
    if SortedByName(entries) {
      EligibleSortedByName(entries, detect);
    }
    return Ok(files);
  }

  /** The scan output is exactly the admitted entries' records, taken in
      directory order: record k comes from entry Picks[k], the positions
      increase, and an entry is picked if and only if it is admitted. */
  lemma {:induction false} EligibleIsOrderedSelection(entries: seq<DirEntry>, detect: seq<byte> -> string)
    ensures |Picks(entries, detect)| == |Eligible(entries, detect)|
    ensures forall k :: 0 <= k < |Picks(entries, detect)| ==>
      Admit(entries[Picks(entries, detect)[k]], detect) == Some(Eligible(entries, detect)[k])
  {
    if entries != [] {
      var n := |entries| - 1;
      var front := entries[..n];
      EligibleIsOrderedSelection(front, detect);
      var p, files := Picks(front, detect), Eligible(front, detect);
      var last := Admit(entries[n], detect);
      assert Eligible(entries, detect) == files + (if last.Some? then [last.value] else []);
      assert Picks(entries, detect) == if last.Some? then p + [n] else p;
      forall k | 0 <= k < |p|
        ensures Admit(entries[p[k]], detect) == Some(files[k])
      {
        assert front[p[k]] == entries[p[k]];
      }
    }
  }

  /** Every record comes from a non-directory entry of the folder, carries
      that entry's name, is within the ceiling and is text-like. */
  lemma EligibleRecordsAreSound(entries: seq<DirEntry>, detect: seq<byte> -> string, k: nat)
    requires k < |Eligible(entries, detect)|
    ensures exists i :: 0 <= i < |entries| && !entries[i].isDir && entries[i].name == Eligible(entries, detect)[k].name
    ensures Eligible(entries, detect)[k].size <= MaxFileSize
    ensures !IsBinary(Eligible(entries, detect)[k].mimeType)
  {
    EligibleIsOrderedSelection(entries, detect);
    var i := Picks(entries, detect)[k];
    assert Admit(entries[i], detect) == Some(Eligible(entries, detect)[k]);
  }

  predicate DistinctNames(entries: seq<DirEntry>)
  {
    forall i, j :: 0 <= i < j < |entries| ==> entries[i].name != entries[j].name
  }

  /** Go's a < b on strings: lexicographic order of the bytes. A character
      stands for its code, and comparing code points in order is the same
      as comparing their UTF-8 encodings byte by byte. */
  predicate NameLess(a: string, b: string)
  {
    if a == [] then b != []
    else if b == [] then false
    else if a[0] != b[0] then a[0] < b[0]
    else NameLess(a[1..], b[1..])
  }

  lemma {:induction false} NameLessIrreflexive(a: string)
    ensures !NameLess(a, a)
  {
    if a != [] {
      NameLessIrreflexive(a[1..]);
    }
  }

  /** What os.ReadDir promises of a listing: entries sorted by file name. */
  predicate SortedByName(entries: seq<DirEntry>)
  {
    forall i, j :: 0 <= i < j < |entries| ==> NameLess(entries[i].name, entries[j].name)
  }

  /** A listing sorted by name has no name twice. */
  lemma SortedNamesAreDistinct(entries: seq<DirEntry>)
    requires SortedByName(entries)
    ensures DistinctNames(entries)
  {
    forall i, j | 0 <= i < j < |entries|
      ensures entries[i].name != entries[j].name
    {
      NameLessIrreflexive(entries[i].name);
    }
  }

  /** The records of a listing sorted by name are sorted by name too, so
      the list, and everything built from it, is the same on every run
      over the same folder. */
  lemma EligibleSortedByName(entries: seq<DirEntry>, detect: seq<byte> -> string)
    requires SortedByName(entries)
    ensures forall k, l :: 0 <= k < l < |Eligible(entries, detect)| ==>
      NameLess(Eligible(entries, detect)[k].name, Eligible(entries, detect)[l].name)
  {
    EligibleIsOrderedSelection(entries, detect);
    var p := Picks(entries, detect);
    var files := Eligible(entries, detect);
    forall k, l | 0 <= k < l < |files|
      ensures NameLess(files[k].name, files[l].name)
    {
      assert Admit(entries[p[k]], detect) == Some(files[k]);
      assert Admit(entries[p[l]], detect) == Some(files[l]);
    }
  }

  /** Directory entries have distinct names, and so do the records. */
  lemma EligibleNamesDistinct(entries: seq<DirEntry>, detect: seq<byte> -> string)
    requires DistinctNames(entries)
    ensures forall k, l :: 0 <= k < l < |Eligible(entries, detect)| ==>
      Eligible(entries, detect)[k].name != Eligible(entries, detect)[l].name
  {
    EligibleIsOrderedSelection(entries, detect);
    var p := Picks(entries, detect);
    var files := Eligible(entries, detect);
    forall k, l | 0 <= k < l < |files|
      ensures files[k].name != files[l].name
    {
      assert Admit(entries[p[k]], detect) == Some(files[k]);
      assert Admit(entries[p[l]], detect) == Some(files[l]);
    }
  }

  /** When names are distinct, an eligible entry is listed exactly once,
      with its size, and an ineligible one (a directory among them) not at all. */
  lemma EligibleListsEachFileOnce(entries: seq<DirEntry>, detect: seq<byte> -> string, i: nat)
    requires DistinctNames(entries)
    requires i < |entries|
    ensures Admit(entries[i], detect).Some? ==>
      exists k :: 0 <= k < |Eligible(entries, detect)| && Eligible(entries, detect)[k] == Admit(entries[i], detect).value
    ensures Admit(entries[i], detect).None? ==>
      forall k :: 0 <= k < |Eligible(entries, detect)| ==> Eligible(entries, detect)[k].name != entries[i].name
    ensures forall k, l :: 0 <= k < l < |Eligible(entries, detect)| ==>
      Eligible(entries, detect)[k].name != Eligible(entries, detect)[l].name
  {
    EligibleIsOrderedSelection(entries, detect);
    EligibleNamesDistinct(entries, detect);
    var p := Picks(entries, detect);
    var files := Eligible(entries, detect);
    if Admit(entries[i], detect).Some? {
      var k :| 0 <= k < |p| && p[k] == i;
      assert files[k] == Admit(entries[i], detect).value;
    } else {
      forall k | 0 <= k < |files|
        ensures files[k].name != entries[i].name
      {
        assert Admit(entries[p[k]], detect) == Some(files[k]);
        assert p[k] != i;
      }
    }
  }

  /** The size step: a text-like non-directory entry is admitted if and only if
      its size is at most MaxFileSize = 10485760 bytes. */
  lemma SizeCeilingIsInclusive(e: DirEntry, detect: seq<byte> -> string)
    requires !e.isDir && e.info.Some?
    requires DetectMIME(e.sniff, detect).Some? && !IsBinary(DetectMIME(e.sniff, detect).value)
    ensures MaxFileSize == 10485760
    ensures Admit(e, detect).Some? <==> e.info.value.size <= MaxFileSize
  {
  }

  /** Per-entry failures drop only that entry. */
  lemma EntryFailuresAreSilent(e: DirEntry, detect: seq<byte> -> string)
    ensures e.isDir ==> Admit(e, detect).None?
    ensures e.info.None? ==> Admit(e, detect).None?
    ensures e.sniff.None? ==> Admit(e, detect).None?
  {
  }

  /** An empty file is never exposed: its first read yields no bytes and
      io.EOF, which detectMIME treats as a failure. */
  lemma EmptyFileIsExcluded(e: DirEntry, detect: seq<byte> -> string)
    requires e.sniff == Some(FirstRead([]))
    ensures DetectMIME(e.sniff, detect).None?
    ensures Admit(e, detect).None?
  {
  }

  /** Sniffing looks at no more than the first 512 bytes: two files that
      agree on those bytes get the same MIME type. */
  lemma SniffSeesOnlyPrefix(c1: seq<byte>, c2: seq<byte>, detect: seq<byte> -> string)
    requires |c1| >= SniffLen && |c2| >= SniffLen
    requires c1[..SniffLen] == c2[..SniffLen]
    ensures DetectMIME(Some(FirstRead(c1)), detect) == DetectMIME(Some(FirstRead(c2)), detect)
    ensures DetectMIME(Some(FirstRead(c1)), detect) == Some(detect(c1[..SniffLen]))
  {
  }

  /** A failing read that still returned bytes does not stop the sniff. */
  lemma PartialReadIsSniffed(r: SniffRead, detect: seq<byte> -> string)
    requires r.data != []
    ensures DetectMIME(Some(r), detect) == Some(detect(r.data))
  {
  }
}
