/** The writer, the check and the fingerprints of an asset pack agree with each other. */
module PackAgreement {
  import opened Bytes
  import opened Newlines
  import opened Outcomes
  import opened Sorting
  import opened AssetPack

  /** Reading a written manifest gives it back. */
  ghost predicate ReadsManifests(h: Host) {
    forall m :: h.loads(h.dumps(m)) == Some(m)
  }

  ghost predicate ValidPaths(entries: seq<Entry>) {
    forall e :: e in entries ==> ValidPackPath(e.path)
  }

  ghost predicate DistinctNames(archive: Archive) {
    forall i, j :: 0 <= i < j < |archive| ==> archive[i].name != archive[j].name
  }

  lemma {:induction false} FindsEach(archive: Archive, i: nat)
    requires DistinctNames(archive) && i < |archive|
    ensures Find(archive, archive[i].name) == Some(archive[i])
    decreases |archive|
  {
    if i < |archive| - 1 {
      FindsEach(archive[..|archive| - 1], i);
    }
  }

  lemma {:induction false} FindIsMember(archive: Archive, name: string)
    ensures Find(archive, name).Some? <==> exists i :: 0 <= i < |archive| && archive[i].name == name
    decreases |archive|
  {
    if archive != [] {
      var n := |archive| - 1;
      FindIsMember(archive[..n], name);
      if archive[n].name != name && Find(archive[..n], name).Some? {
        var i :| 0 <= i < n && archive[..n][i].name == name;
        assert archive[i].name == name;
      }
      if archive[n].name != name && exists i :: 0 <= i < |archive| && archive[i].name == name {
        var i :| 0 <= i < |archive| && archive[i].name == name;
        assert archive[..n][i].name == name;
      }
    }
  }

  /** What sorting the entries keeps. */
  lemma SortedEntries(entries: seq<Entry>)
    ensures TotalPreorder(ByPath()) && Sorted(Sort(entries, ByPath()), ByPath())
    ensures forall e :: e in Sort(entries, ByPath()) <==> e in entries
    ensures UniquePaths(entries) ==> UniquePaths(Sort(entries, ByPath()))
  {
    StringLeqIsTotalOrder();
    var leq := ByPath();
    forall e, f, g | leq(e, f) && leq(f, g) ensures leq(e, g) {
      assert StringLeq(e.path, f.path) && StringLeq(f.path, g.path);
    }
    forall e, f ensures leq(e, f) || leq(f, e) {
      assert StringLeq(e.path, f.path) || StringLeq(f.path, e.path);
    }
    SortIsSorted(entries, leq);
    SortKeepsMembers(entries, leq);
    if UniquePaths(entries) {
      SortKeepsPairwise(entries, leq, DifferInPath());
    }
  }

  /** The members of a written archive: the manifest, then each entry in path order, under its own name. */
  lemma WrittenMembers(h: Host, tree: Tree, m: Manifest, entries: seq<Entry>, mode: Compression)
    requires UniquePaths(entries) && ValidPaths(entries)
    ensures var archive, sorted := Written(h, tree, m, entries, mode), Sort(entries, ByPath());
            && |archive| == |sorted| + 1
            && DistinctNames(archive)
            && archive[0] == Member(MANIFEST_PATH, Supported(mode), h.dumps(m), true)
            && forall i :: 0 <= i < |sorted| ==>
                 archive[i + 1] == MemberOf(h, tree, sorted[i])
  {
    SortedEntries(entries);
    var archive, sorted := Written(h, tree, m, entries, mode), Sort(entries, ByPath());
    hide Sort, PackFileBytes, Sorted;
    forall i, j | 0 <= i < j < |archive| ensures archive[i].name != archive[j].name {
      assert sorted[j - 1] in sorted;
      if i == 0 {
        assert ValidPackPath(sorted[j - 1].path);
      } else {
        assert DifferInPath()(sorted[i - 1], sorted[j - 1]);
      }
    }
  }

  lemma WrittenFinds(h: Host, tree: Tree, m: Manifest, entries: seq<Entry>, mode: Compression, i: nat)
    requires UniquePaths(entries) && ValidPaths(entries) && i < |Sort(entries, ByPath())|
    ensures var archive, e := Written(h, tree, m, entries, mode), Sort(entries, ByPath())[i];
            Find(archive, e.path) == Some(MemberOf(h, tree, e))
  {
    hide Written, Sort;
    WrittenMembers(h, tree, m, entries, mode);
    FindsEach(Written(h, tree, m, entries, mode), i + 1);
  }

  lemma WrittenFindsManifest(h: Host, tree: Tree, m: Manifest, entries: seq<Entry>, mode: Compression)
    requires UniquePaths(entries) && ValidPaths(entries)
    ensures Find(Written(h, tree, m, entries, mode), MANIFEST_PATH)
            == Some(Member(MANIFEST_PATH, Supported(mode), h.dumps(m), true))
  {
    hide Written, Sort;
    WrittenMembers(h, tree, m, entries, mode);
    FindsEach(Written(h, tree, m, entries, mode), 0);
  }

  /**
   * A written pack passes its check, sidecar included, exactly if every entry's recorded size and digest are those of
   * the source as it was when the archive was written.
   */
  lemma WrittenPackVerifiesIff(
      h: Host, tree: Tree, before: Tree, header: string, entries: seq<Entry>, mode: Compression)
    requires ReadsManifests(h) && UniquePaths(entries) && ValidPaths(entries)
    ensures var m := ManifestOf(h, before, header, entries);
            Verifies(h, Written(h, tree, m, entries, mode), Some(h.dumps(m)), m) <==> Fresh(h, tree, entries)
  {
    var m, sorted := ManifestOf(h, before, header, entries), Sort(entries, ByPath());
    var archive := Written(h, tree, m, entries, mode);
    assert m.files == Records(sorted);
    hide Written, Sort, PackFileBytes, ManifestOf, Find, UniquePaths, ValidPaths, FileError, Fresh, Declared, Records,
      FreshEntry, Verifies;
    assert forall e :: e in sorted <==> e in entries by { SortedEntries(entries); }
    WrittenFindsManifest(h, tree, m, entries, mode);
    NothingUndeclared(h, tree, m, entries, mode);
    VerifiesWithFiles(h, archive, h.dumps(m), m);
    forall i | 0 <= i < |sorted| ensures FileError(h, archive, m.files[i]).None? <==> FreshEntry(h, tree, sorted[i]) {
      FileErrorIff(h, tree, m, entries, mode, i);
    }
    FreshIff(h, tree, entries, sorted);
  }

  /**
   * From entries to a verified pack. The sources are read once more for the fingerprints and once more for the
   * archive: it succeeds exactly if paths are unique and by then every source is as its entry records it, and what it
   * gives back is the manifest of the entries.
   */
  method BuildPack(
      h: Host, fingerprinted: Tree, written: Tree, header: string, entries: seq<Entry>, mode: Compression)
    returns (r: Result<Manifest, PackError>, archive: Archive, sidecar: Data)
    requires ReadsManifests(h) && ValidPaths(entries)
    ensures r.Success? <==> UniquePaths(entries) && Fresh(h, written, entries)
    ensures r.Success? ==>
              && r.value == ManifestOf(h, fingerprinted, header, entries)
              && archive == Written(h, written, r.value, entries, mode) && sidecar == h.dumps(r.value)
              && Verifies(h, archive, Some(sidecar), r.value)
  {
    hide Written, Verifies, ManifestOf, UniquePaths, Fresh;
    archive, sidecar := [], [];
    var unique := AssertUniqueEntries(entries);
    if unique.Failure? {
      return Failure(unique.error), archive, sidecar;
    }
    var m := BuildManifest(h, fingerprinted, header, entries);
    archive, sidecar := WritePack(h, written, m, entries, mode);
    WrittenPackVerifiesIff(h, written, fingerprinted, header, entries, mode);
    r := VerifyPack(h, archive, Some(sidecar));
    if r.Success? {
      VerifiedIsWritten(h, written, m, r.value, entries, mode);
    }
  }

  /** The manifest read from a written archive is the one it was written with. */
  lemma VerifiedIsWritten(h: Host, tree: Tree, m: Manifest, read: Manifest, entries: seq<Entry>, mode: Compression)
    requires ReadsManifests(h) && UniquePaths(entries) && ValidPaths(entries)
    requires Verifies(h, Written(h, tree, m, entries, mode), Some(h.dumps(m)), read)
    ensures read == m
  {
    hide Written, UniquePaths, Find;
    WrittenFindsManifest(h, tree, m, entries, mode);
  }

  lemma VerifiesWithFiles(h: Host, archive: Archive, sidecar: Data, m: Manifest)
    requires forall i :: 0 <= i < |archive| ==> archive[i].intact && archive[i].name in Declared(m)
    requires Find(archive, MANIFEST_PATH).Some? && h.loads(Find(archive, MANIFEST_PATH).value.data) == Some(m)
    requires h.loads(sidecar) == Some(m)
    ensures Verifies(h, archive, Some(sidecar), m) <==>
            forall i :: 0 <= i < |m.files| ==> FileError(h, archive, m.files[i]).None?
  {
    hide Find, FileError, Declared;
  }

  lemma NothingUndeclared(h: Host, tree: Tree, m: Manifest, entries: seq<Entry>, mode: Compression)
    requires UniquePaths(entries) && ValidPaths(entries) && m.files == Records(Sort(entries, ByPath()))
    ensures var archive := Written(h, tree, m, entries, mode);
            forall i :: 0 <= i < |archive| ==> archive[i].intact && archive[i].name in Declared(m)
  {
    var archive, sorted := Written(h, tree, m, entries, mode), Sort(entries, ByPath());
    WrittenMembers(h, tree, m, entries, mode);
    hide Written, Sort, PackFileBytes, UniquePaths, ValidPaths, DistinctNames;
    forall i | 0 <= i < |archive| ensures archive[i].intact && archive[i].name in Declared(m) {
      if i > 0 {
        var j := i - 1;
        assert archive[j + 1] == MemberOf(h, tree, sorted[j]);
        assert m.files[j] in m.files && m.files[j].path == sorted[j].path;
      }
    }
  }

  lemma FileErrorIff(h: Host, tree: Tree, m: Manifest, entries: seq<Entry>, mode: Compression, i: nat)
    requires UniquePaths(entries) && ValidPaths(entries) && m.files == Records(Sort(entries, ByPath())) && i < |m.files|
    ensures var e := Sort(entries, ByPath())[i];
            FileError(h, Written(h, tree, m, entries, mode), m.files[i]).None? <==> FreshEntry(h, tree, e)
  {
    hide Written, Sort, PackFileBytes, UniquePaths, ValidPaths, Find;
    WrittenFinds(h, tree, m, entries, mode, i);
  }

  predicate FreshEntry(h: Host, tree: Tree, e: Entry) {
    e.bytes == |PackFileBytes(h, tree, e.source)| && e.sha256 == h.sha256(PackFileBytes(h, tree, e.source))
  }

  lemma FreshIff(h: Host, tree: Tree, entries: seq<Entry>, sorted: seq<Entry>)
    requires forall e :: e in sorted <==> e in entries
    ensures Fresh(h, tree, entries) <==> forall i :: 0 <= i < |sorted| ==> FreshEntry(h, tree, sorted[i])
  {
    hide PackFileBytes;
    if forall i :: 0 <= i < |sorted| ==> FreshEntry(h, tree, sorted[i]) {
      forall e | e in entries ensures FreshEntry(h, tree, e) {
        assert e in sorted;
      }
    }
    if Fresh(h, tree, entries) {
      forall i | 0 <= i < |sorted| ensures FreshEntry(h, tree, sorted[i]) {
        assert sorted[i] in sorted;
      }
    }
  }

  // ---------------------------------------------------------------------------------------------
  // Fingerprints
  // ---------------------------------------------------------------------------------------------

  ghost predicate Found(archive: Archive, h: Host, tree: Tree, e: Entry) {
    Find(archive, e.path) == Some(MemberOf(h, tree, e))
  }

  lemma {:induction false} FilesInWritten(archive: Archive, h: Host, tree: Tree, sorted: seq<Entry>)
    requires forall i :: 0 <= i < |sorted| ==> Found(archive, h, tree, sorted[i])
    ensures FilesIn(archive, Records(sorted)) == Success(Contents(h, tree, sorted))
    decreases |sorted|
  {
    if sorted != [] {
      hide Find, PackFileBytes, FilesIn, Records, Contents;
      var n := |sorted| - 1;
      FilesInWritten(archive, h, tree, sorted[..n]);
      assert Found(archive, h, tree, sorted[n]);
      var data := PackFileBytes(h, tree, sorted[n].source);
      Extended(h, tree, sorted, n);
      FilesInStep(archive, Records(sorted), Contents(h, tree, sorted[..n]));
    }
  }

  lemma Extended(h: Host, tree: Tree, sorted: seq<Entry>, n: nat)
    requires |sorted| == n + 1
    ensures Records(sorted)[..n] == Records(sorted[..n]) && Records(sorted)[n].path == sorted[n].path
    ensures Contents(h, tree, sorted)
            == Contents(h, tree, sorted[..n]) + [(sorted[n].path, PackFileBytes(h, tree, sorted[n].source))]
  {
    hide Records, Contents, PackFileBytes;
  }

  lemma FilesInStep(archive: Archive, items: seq<FileRecord>, before: seq<(string, Data)>)
    requires items != [] && FilesIn(archive, items[..|items| - 1]) == Success(before)
    requires Find(archive, items[|items| - 1].path).Some?
    ensures var last := items[|items| - 1];
            FilesIn(archive, items) == Success(before + [(last.path, Find(archive, last.path).value.data)])
  {
    hide Find;
  }

  /** Fingerprints read back from a written pack are those of the entries, whether or not the entries are fresh. */
  lemma FingerprintsAgree(h: Host, tree: Tree, before: Tree, header: string, entries: seq<Entry>, mode: Compression)
    requires ReadsManifests(h) && UniquePaths(entries) && ValidPaths(entries)
    ensures var m := ManifestOf(h, before, header, entries);
            var archive := Written(h, tree, m, entries, mode);
            && Find(archive, MANIFEST_PATH).Some? && h.loads(Find(archive, MANIFEST_PATH).value.data) == Some(m)
            && FilesIn(archive, Sort(m.files, ByRecordPath())) == Success(Contents(h, tree, Sort(entries, ByPath())))
  {
    var m, sorted := ManifestOf(h, before, header, entries), Sort(entries, ByPath());
    var archive := Written(h, tree, m, entries, mode);
    assert m.files == Records(sorted);
    SortedEntries(entries);
    WrittenFindsManifest(h, tree, m, entries, mode);
    forall i | 0 <= i < |sorted| ensures Found(archive, h, tree, sorted[i]) {
      WrittenFinds(h, tree, m, entries, mode, i);
    }
    hide Written, Sort, PackFileBytes, ManifestOf, Find, UniquePaths, ValidPaths, Contents;
    FilesInWritten(archive, h, tree, sorted);
    forall i, j | 0 <= i < j < |sorted| ensures ByRecordPath()(m.files[i], m.files[j]) {
      assert ByPath()(sorted[i], sorted[j]);
    }
    SortOfSorted(m.files, ByRecordPath());
  }

  /** The summary a pack's manifest holds is the summary of the fingerprints read back from the archive. */
  lemma SummaryAgrees(h: Host, tree: Tree, header: string, entries: seq<Entry>, mode: Compression)
    requires ReadsManifests(h) && UniquePaths(entries) && ValidPaths(entries)
    ensures var m := ManifestOf(h, tree, header, entries);
            var files := FilesIn(Written(h, tree, m, entries, mode), Sort(m.files, ByRecordPath()));
            files.Success? && m.fingerprints == SummaryOf(h, FingerprintsOf(h, files.value))
  {
    FingerprintsAgree(h, tree, tree, header, entries, mode);
  }

  // ---------------------------------------------------------------------------------------------
  // The manifest
  // ---------------------------------------------------------------------------------------------

  lemma {:induction false} FingerprintsOfAll(h: Host, files: seq<(string, Data)>)
    ensures var f := FingerprintsOf(h, files);
            && |f.files| + |f.excludedFiles| == |files| == |f.payload|
            && forall i :: 0 <= i < |files| ==> f.payload[i] == PayloadFileRecord(h, files[i].0, files[i].1)
    decreases |files|
  {
    if files != [] {
      FingerprintsOfAll(h, files[..|files| - 1]);
      hide PortableFileRecord, PayloadFileRecord;
    }
  }

  function RecordedBytes(files: seq<FileRecord>): nat {
    if files == [] then 0 else files[0].bytes + RecordedBytes(files[1..])
  }

  lemma {:induction false} SameTotals(payload: seq<Payload>, files: seq<FileRecord>)
    requires |payload| == |files| && forall i :: 0 <= i < |files| ==> payload[i].bytes == files[i].bytes
    ensures TotalBytes(payload) == RecordedBytes(files)
  {
    if files != [] {
      SameTotals(payload[1..], files[1..]);
    }
  }

  lemma {:induction false} RecordsOfSorted(entries: seq<Entry>, sorted: seq<Entry>)
    requires multiset(entries) == multiset(sorted)
    ensures multiset(Records(entries)) == multiset(Records(sorted))
    decreases |entries|
  {
    if entries == [] {
      NoneLeft(sorted);
    } else {
      hide Records, RecordOf;
      var i := Counterpart(entries, sorted);
      var rest := sorted[..i] + sorted[i + 1..];
      RecordsOfSorted(entries[1..], rest);
      RecordsRemoved(sorted, i);
      RecordsFirst(entries);
    }
  }

  lemma NoneLeft<T>(s: seq<T>)
    requires multiset(s) == multiset([])
    ensures s == []
  {
    assert |s| == |multiset(s)|;
  }

  lemma RecordsFirst(s: seq<Entry>)
    requires s != []
    ensures multiset(Records(s)) == multiset{RecordOf(s[0])} + multiset(Records(s[1..]))
  {
    hide Records;
    RecordsRemoved(s, 0);
    assert s[..0] + s[1..] == s[1..];
  }

  lemma Counterpart<T>(s: seq<T>, t: seq<T>) returns (i: nat)
    requires s != [] && multiset(s) == multiset(t)
    ensures i < |t| && t[i] == s[0] && multiset(s[1..]) == multiset(t[..i] + t[i + 1..])
  {
    assert s[0] in multiset(t);
    i :| 0 <= i < |t| && t[i] == s[0];
    Removed(t, i);
    assert s == [s[0]] + s[1..];
    var m, rest := multiset(s[1..]), multiset(t[..i] + t[i + 1..]);
    assert multiset{s[0]} + m == multiset{s[0]} + rest;
    assert m == (multiset{s[0]} + m) - multiset{s[0]};
    assert rest == (multiset{s[0]} + rest) - multiset{s[0]};
  }

  lemma Removed<T>(s: seq<T>, i: nat)
    requires i < |s|
    ensures multiset(s) == multiset{s[i]} + multiset(s[..i] + s[i + 1..])
  {
    assert s == s[..i] + [s[i]] + s[i + 1..];
  }

  lemma RecordsRemoved(s: seq<Entry>, i: nat)
    requires i < |s|
    ensures multiset(Records(s)) == multiset{RecordOf(s[i])} + multiset(Records(s[..i] + s[i + 1..]))
  {
    hide Records;
    var records := Records(s);
    Removed(records, i);
    assert records[..i] + records[i + 1..] == Records(s[..i] + s[i + 1..]);
  }

  function RecordOf(e: Entry): FileRecord {
    FileRecord(e.path, e.bytes, e.sha256, e.compression)
  }

  /**
   * The manifest lists every entry once, by path; it counts them, and each is fingerprinted or excluded. While the
   * sources are as the entries record them, the fingerprinted payload is as large as the listed files together.
   */
  lemma ManifestDescribesEntries(h: Host, tree: Tree, header: string, entries: seq<Entry>)
    ensures var m := ManifestOf(h, tree, header, entries);
            && multiset(m.files) == multiset(Records(entries)) && Sorted(m.files, ByRecordPath())
            && m.fileCount == |m.files| == m.fingerprints.files + m.fingerprints.excluded
            && (Fresh(h, tree, entries) ==> m.fingerprints.payloadBytes == RecordedBytes(m.files))
  {
    var m, sorted := ManifestOf(h, tree, header, entries), Sort(entries, ByPath());
    var contents := Contents(h, tree, sorted);
    SortedEntries(entries);
    SortIsPermutation(entries, ByPath());
    RecordsOfSorted(entries, sorted);
    FingerprintsOfAll(h, contents);
    hide Sort, Contents, PackFileBytes, FingerprintsOf, Records, TotalPreorder, UniquePaths, PayloadFileRecord;
    forall i, j | 0 <= i < j < |m.files| ensures ByRecordPath()(m.files[i], m.files[j]) {
      assert ByPath()(sorted[i], sorted[j]);
    }
    if Fresh(h, tree, entries) {
      PayloadIsRecorded(h, tree, entries, sorted, contents);
    }
  }

  lemma PayloadIsRecorded(h: Host, tree: Tree, entries: seq<Entry>, sorted: seq<Entry>, contents: seq<(string, Data)>)
    requires Fresh(h, tree, entries) && contents == Contents(h, tree, sorted)
             && forall e :: e in sorted <==> e in entries
    ensures TotalBytes(FingerprintsOf(h, contents).payload) == RecordedBytes(Records(sorted))
  {
    FingerprintsOfAll(h, contents);
    hide Contents, PackFileBytes, FingerprintsOf, Records;
    var records := Records(sorted);
    forall i | 0 <= i < |sorted| ensures records[i].bytes == |contents[i].1| {
      assert sorted[i] in sorted;
    }
    SameTotals(FingerprintsOf(h, contents).payload, records);
  }

  // ---------------------------------------------------------------------------------------------
  // Tampering, and line endings
  // ---------------------------------------------------------------------------------------------

  /** Two archives that pass under one manifest hold the same names, and the same contents up to digest collisions. */
  lemma OneManifestOneContent(h: Host, first: Archive, second: Archive, m: Manifest, name: string)
    requires Verifies(h, first, None, m) && Verifies(h, second, None, m)
    ensures Find(first, name).Some? <==> Find(second, name).Some?
    ensures Find(first, name).Some? && name in (set item | item in m.files :: item.path) ==>
              var a, b := Find(first, name).value, Find(second, name).value;
              a.mode == b.mode && |a.data| == |b.data| && h.sha256(a.data) == h.sha256(b.data)
  {
    hide Find;
    VerifiedHasDeclared(h, first, m, name);
    VerifiedHasDeclared(h, second, m, name);
    if name in (set item | item in m.files :: item.path) {
      var i :| 0 <= i < |m.files| && m.files[i].path == name;
      assert FileError(h, first, m.files[i]).None? && FileError(h, second, m.files[i]).None?;
    }
  }

  lemma VerifiedHasDeclared(h: Host, archive: Archive, m: Manifest, name: string)
    requires Verifies(h, archive, None, m)
    ensures Find(archive, name).Some? <==> name in Declared(m)
  {
    FindIsMember(archive, name);
    hide Find;
    if name in Declared(m) && name != MANIFEST_PATH {
      var i :| 0 <= i < |m.files| && m.files[i].path == name;
      assert FileError(h, archive, m.files[i]).None?;
    }
  }

  /** The trees hold the same files, but for how the lines of their text files end. */
  ghost predicate SameUpToLineEndings(h: Host, first: Tree, second: Tree) {
    forall source ::
      first(source) == second(source) || (h.suffix(source) in TEXT_SUFFIXES && SameLines(first(source), second(source)))
  }

  ghost predicate SameLines(first: Data, second: Data) {
    exists a: seq<Line>, b: seq<Line>, last ::
      && first == Text(a, last) && second == Text(b, last) && ToUnix(a) == ToUnix(b)
      && PlainLines(a) && PlainLines(b) && Plain(last) && Unambiguous(a) && Unambiguous(b)
  }

  /** Such trees give the same entries, the same archive and the same manifest. */
  lemma LineEndingsDoNotMatter(
      h: Host, first: Tree, second: Tree, prefix: string, root: string, rel: string, entries: seq<Entry>,
      header: string, mode: Compression)
    requires SameUpToLineEndings(h, first, second)
    ensures EntryOf(h, first, prefix, root, rel) == EntryOf(h, second, prefix, root, rel)
    ensures ManifestOf(h, first, header, entries) == ManifestOf(h, second, header, entries)
    ensures var m := ManifestOf(h, first, header, entries);
            Written(h, first, m, entries, mode)
            == Written(h, second, m, entries, mode)
  {
    forall source ensures PackFileBytes(h, first, source) == PackFileBytes(h, second, source) {
      SamePayload(h, first, second, source);
    }
    var sorted := Sort(entries, ByPath());
    hide Sort, PackFileBytes;
    assert Contents(h, first, sorted) == Contents(h, second, sorted);
    assert MembersOf(h, first, sorted) == MembersOf(h, second, sorted);
  }

  lemma SamePayload(h: Host, first: Tree, second: Tree, source: string)
    requires SameUpToLineEndings(h, first, second)
    ensures PackFileBytes(h, first, source) == PackFileBytes(h, second, source)
  {
    if first(source) != second(source) {
      var a: seq<Line>, b: seq<Line>, last :|
        && first(source) == Text(a, last) && second(source) == Text(b, last) && ToUnix(a) == ToUnix(b)
        && PlainLines(a) && PlainLines(b) && Plain(last) && Unambiguous(a) && Unambiguous(b);
      LineEndingsNormaliseIff(a, last);
      LineEndingsNormaliseIff(b, last);
    }
  }
}
