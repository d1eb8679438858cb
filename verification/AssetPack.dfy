/**
 * Asset packs: entries read from a source tree, the manifest that describes them, the archive that holds both, the
 * check of such an archive, and the fingerprints of its files. The digest and the JSON forms are functions.
 */
module AssetPack {
  import opened Bytes
  import opened Newlines
  import opened Outcomes
  import opened Sorting

  type Data = seq<Byte>
  type Tree = string -> Data

  datatype Compression = Store | Deflate
  datatype ZipMode = Supported(compression: Compression) | Other(code: nat)

  datatype Entry = Entry(path: string, source: string, bytes: nat, sha256: string, compression: Compression)
  datatype FileRecord = FileRecord(path: string, bytes: nat, sha256: string, compression: Compression)

  datatype Portable =
    | Hashed(path: string, kind: string, bytes: nat, sha256: string)
    | Excluded(path: string, suffix: string)
  datatype Payload = PayloadRecord(path: string, bytes: nat, sha256: string)
  datatype Fingerprints = Fingerprints(files: seq<Portable>, excludedFiles: seq<Portable>, payload: seq<Payload>)

  datatype Summary = Summary(
    files: nat, excluded: nat, portableSha256: string, payloadBytes: nat, payloadSha256: string)
  datatype Manifest = Manifest(header: string, fingerprints: Summary, fileCount: nat, files: seq<FileRecord>)

  /** An archive member: its content as read, and whether its checksum holds. */
  datatype Member = Member(name: string, mode: ZipMode, data: Data, intact: bool)
  type Archive = seq<Member>

  /** The digest, the lower-case suffix of a path, and the JSON forms: canonical, of a manifest, and of fingerprints. */
  datatype Host = Host(
    sha256: Data -> string, suffix: string -> string, canonicalJson: Data -> Option<Data>,
    dumps: Manifest -> Data, loads: Data -> Option<Manifest>,
    portableSha256: (seq<Portable>, seq<Portable>) -> string, payloadSha256: seq<Payload> -> string)

  datatype PackError =
    | InvalidPath(path: string) | DuplicatePath(path: string)
    | BadCrc | NoManifest | BadManifest | Missing(name: string) | SizeMismatch(name: string)
    | UnsupportedCompression(name: string) | CompressionMismatch(name: string) | DigestMismatch(name: string)
    | Undeclared | BadSidecar | SidecarMismatch

  const MANIFEST_PATH := "mclone-pack.json"
  const TEXT_SUFFIXES := {".json", ".mcmeta", ".txt", ".lang", ".fsh", ".vsh"}

  // ---------------------------------------------------------------------------------------------
  // Entries
  // ---------------------------------------------------------------------------------------------

  function PackFileBytes(h: Host, tree: Tree, source: string): Data {
    if h.suffix(source) in TEXT_SUFFIXES then NormalizedTextBytes(tree(source)) else tree(source)
  }

  function CompressionMode(h: Host, path: string): Compression {
    if h.suffix(path) == ".png" then Store else Deflate
  }

  function PathParts(path: string): (parts: seq<string>)
    ensures parts != []
  {
    if path == [] then [[]]
    else
      var rest := PathParts(path[1..]);
      if path[0] == '/' then [[]] + rest else [[path[0]] + rest[0]] + rest[1..]
  }

  predicate ValidPackPath(path: string) {
    path != "" && path != MANIFEST_PATH && '\\' !in path && "" !in PathParts(path) && ".." !in PathParts(path)
  }

  function PackPath(prefix: string, rel: string): string {
    if prefix == "" then rel else prefix + "/" + rel
  }

  function EntryOf(h: Host, tree: Tree, prefix: string, root: string, rel: string): Entry {
    var source := root + "/" + rel;
    var data := PackFileBytes(h, tree, source);
    Entry(PackPath(prefix, rel), source, |data|, h.sha256(data), CompressionMode(h, source))
  }

  method BuildEntries(
      h: Host, tree: Tree, root: string, files: seq<string>, prefix: string)
    returns (r: Result<seq<Entry>, PackError>)
    ensures r.Success? <==> forall i :: 0 <= i < |files| ==> ValidPackPath(PackPath(prefix, files[i]))
    ensures r.Success? ==>
              && |r.value| == |files|
              && (forall i :: 0 <= i < |files| ==> r.value[i] == EntryOf(h, tree, prefix, root, files[i]))
              && Fresh(h, tree, r.value) && forall e :: e in r.value ==> ValidPackPath(e.path)
    ensures r.Success? ==>
              forall i :: 0 <= i < |files| ==>
                && r.value[i].source == root + "/" + files[i]
                && r.value[i].path == (if prefix == "" then files[i] else prefix + "/" + files[i])
                && (r.value[i].compression == Store <==> h.suffix(root + "/" + files[i]) == ".png")
  {
    hide ValidPackPath, PackFileBytes;
    var entries: seq<Entry> := [];
    for i := 0 to |files|
      invariant |entries| == i
      invariant forall k :: 0 <= k < i ==>
                ValidPackPath(PackPath(prefix, files[k])) && entries[k] == EntryOf(h, tree, prefix, root, files[k])
    {
      var packPath := PackPath(prefix, files[i]);
      if !ValidPackPath(packPath) {
        return Failure(InvalidPath(packPath));
      }
      var source := root + "/" + files[i];
      var data := PackFileBytes(h, tree, source);
      entries := entries + [Entry(packPath, source, |data|, h.sha256(data), CompressionMode(h, source))];
    }
    r := Success(entries);
  }

  /** The sources still hold what the entries record. */
  ghost predicate Fresh(h: Host, tree: Tree, entries: seq<Entry>) {
    forall e :: e in entries ==>
      e.bytes == |PackFileBytes(h, tree, e.source)| && e.sha256 == h.sha256(PackFileBytes(h, tree, e.source))
  }

  function ByPath(): (Entry, Entry) -> bool {
    (e: Entry, f: Entry) => StringLeq(e.path, f.path)
  }

  function ByRecordPath(): (FileRecord, FileRecord) -> bool {
    (e: FileRecord, f: FileRecord) => StringLeq(e.path, f.path)
  }

  function DifferInPath(): (Entry, Entry) -> bool {
    (e: Entry, f: Entry) => e.path != f.path
  }

  ghost predicate UniquePaths(entries: seq<Entry>) {
    Pairwise(entries, DifferInPath())
  }

  method AssertUniqueEntries(entries: seq<Entry>) returns (r: Result<(), PackError>)
    ensures r.Success? <==> UniquePaths(entries)
  {
    var sorted := Sort(entries, ByPath());
    SortKeepsPairwiseIff(entries, ByPath(), DifferInPath());
    hide Sort;
    var seen: set<string> := {};
    for i := 0 to |sorted|
      invariant seen == set k | 0 <= k < i :: sorted[k].path
      invariant forall j, k :: 0 <= j < i && 0 <= k < i && j != k ==> DifferInPath()(sorted[j], sorted[k])
    {
      if sorted[i].path in seen {
        var k :| 0 <= k < i && sorted[k].path == sorted[i].path;
        assert !DifferInPath()(sorted[k], sorted[i]);
        return Failure(DuplicatePath(sorted[i].path));
      }
      seen := seen + {sorted[i].path};
    }
    r := Success(());
  }

  // ---------------------------------------------------------------------------------------------
  // Fingerprints
  // ---------------------------------------------------------------------------------------------

  function PortableFileRecord(h: Host, path: string, data: Data): Portable {
    if h.suffix(path) == ".json" && h.canonicalJson(data).Some? then
      var canonical := h.canonicalJson(data).value;
      Hashed(path, "json", |canonical|, h.sha256(canonical))
    else if h.suffix(path) in TEXT_SUFFIXES then
      var normalized := NormalizedTextBytes(data);
      Hashed(path, "text", |normalized|, h.sha256(normalized))
    else Excluded(path, h.suffix(path))
  }

  function PayloadFileRecord(h: Host, path: string, data: Data): Payload {
    PayloadRecord(path, |data|, h.sha256(data))
  }

  const NO_FINGERPRINTS := Fingerprints([], [], [])

  function WithFile(h: Host, f: Fingerprints, path: string, data: Data): Fingerprints {
    var portable := PortableFileRecord(h, path, data);
    var hashed := portable.Hashed?;
    Fingerprints(if hashed then f.files + [portable] else f.files,
                 if hashed then f.excludedFiles else f.excludedFiles + [portable],
                 f.payload + [PayloadFileRecord(h, path, data)])
  }

  /** The fingerprints of named contents, in order. */
  function FingerprintsOf(h: Host, files: seq<(string, Data)>): Fingerprints {
    if files == [] then NO_FINGERPRINTS
    else
      var n := |files| - 1;
      WithFile(h, FingerprintsOf(h, files[..n]), files[n].0, files[n].1)
  }

  function Contents(h: Host, tree: Tree, entries: seq<Entry>): (files: seq<(string, Data)>)
    ensures |files| == |entries|
    ensures forall i :: 0 <= i < |entries| ==> files[i] == (entries[i].path, PackFileBytes(h, tree, entries[i].source))
  {
    if entries == [] then []
    else [(entries[0].path, PackFileBytes(h, tree, entries[0].source))] + Contents(h, tree, entries[1..])
  }

  method FingerprintRecords(h: Host, tree: Tree, entries: seq<Entry>) returns (f: Fingerprints)
    ensures f == FingerprintsOf(h, Contents(h, tree, Sort(entries, ByPath())))
  {
    var sorted := Sort(entries, ByPath());
    ghost var files := Contents(h, tree, sorted);
    hide Contents, Sort, WithFile;
    f := NO_FINGERPRINTS;
    for i := 0 to |sorted|
      invariant f == FingerprintsOf(h, files[..i])
    {
      assert files[..i + 1][..i] == files[..i];
      f := WithFile(h, f, sorted[i].path, PackFileBytes(h, tree, sorted[i].source));
    }
    assert files[..|sorted|] == files;
  }

  function TotalBytes(payload: seq<Payload>): nat {
    if payload == [] then 0 else payload[0].bytes + TotalBytes(payload[1..])
  }

  function SummaryOf(h: Host, f: Fingerprints): Summary {
    Summary(|f.files|, |f.excludedFiles|, h.portableSha256(f.files, f.excludedFiles), TotalBytes(f.payload),
        h.payloadSha256(f.payload))
  }

  // ---------------------------------------------------------------------------------------------
  // Writing
  // ---------------------------------------------------------------------------------------------

  function Records(entries: seq<Entry>): (records: seq<FileRecord>)
    ensures |records| == |entries|
    ensures forall i :: 0 <= i < |entries| ==>
              records[i] == FileRecord(entries[i].path, entries[i].bytes, entries[i].sha256, entries[i].compression)
  {
    if entries == [] then []
    else
      [FileRecord(entries[0].path, entries[0].bytes, entries[0].sha256, entries[0].compression)]
      + Records(entries[1..])
  }

  function ManifestOf(h: Host, tree: Tree, header: string, entries: seq<Entry>): Manifest {
    var sorted := Sort(entries, ByPath());
    Manifest(header, SummaryOf(h, FingerprintsOf(h, Contents(h, tree, sorted))), |entries|, Records(sorted))
  }

  method BuildManifest(h: Host, tree: Tree, header: string, entries: seq<Entry>) returns (m: Manifest)
    ensures m == ManifestOf(h, tree, header, entries)
  {
    var f := FingerprintRecords(h, tree, entries);
    m := Manifest(header, SummaryOf(h, f), |entries|, Records(Sort(entries, ByPath())));
  }

  function MemberOf(h: Host, tree: Tree, e: Entry): Member {
    Member(e.path, Supported(e.compression), PackFileBytes(h, tree, e.source), true)
  }

  function MembersOf(h: Host, tree: Tree, entries: seq<Entry>): (members: seq<Member>)
    ensures |members| == |entries|
    ensures forall i :: 0 <= i < |entries| ==> members[i] == MemberOf(h, tree, entries[i])
  {
    if entries == [] then []
    else [MemberOf(h, tree, entries[0])] + MembersOf(h, tree, entries[1..])
  }

  /** The archive, the manifest in front, and the sidecar: the manifest again. */
  function Written(h: Host, tree: Tree, m: Manifest, entries: seq<Entry>, mode: Compression): Archive {
    [Member(MANIFEST_PATH, Supported(mode), h.dumps(m), true)] + MembersOf(h, tree, Sort(entries, ByPath()))
  }

  lemma MembersNext(h: Host, tree: Tree, entries: seq<Entry>, first: Archive, i: nat)
    requires i < |entries|
    ensures var members := MembersOf(h, tree, entries);
            first + members[..i] + [MemberOf(h, tree, entries[i])] == first + members[..i + 1]
  {
    hide PackFileBytes;
    var members := MembersOf(h, tree, entries);
    assert members[..i + 1] == members[..i] + [members[i]];
  }

  method WritePack(
      h: Host, tree: Tree, m: Manifest, entries: seq<Entry>, mode: Compression)
    returns (archive: Archive, sidecar: Data)
    ensures archive == Written(h, tree, m, entries, mode) && sidecar == h.dumps(m)
  {
    hide MembersOf, MemberOf, PackFileBytes, Sort;
    sidecar := h.dumps(m);
    archive := [Member(MANIFEST_PATH, Supported(mode), sidecar, true)];
    var sorted := Sort(entries, ByPath());
    ghost var first, members := archive, MembersOf(h, tree, sorted);
    assert first + members == Written(h, tree, m, entries, mode);
    hide Written;
    for i := 0 to |sorted|
      invariant archive == first + members[..i]
    {
      MembersNext(h, tree, sorted, first, i);
      archive := archive + [MemberOf(h, tree, sorted[i])];
    }
    assert members[..|sorted|] == members;
  }

  // ---------------------------------------------------------------------------------------------
  // Reading
  // ---------------------------------------------------------------------------------------------

  /** The member of a name: the last one, where an archive repeats names. */
  function Find(archive: Archive, name: string): Option<Member> {
    if archive == [] then None
    else
      var last := archive[|archive| - 1];
      if last.name == name then Some(last) else Find(archive[..|archive| - 1], name)
  }

  function FileError(h: Host, archive: Archive, item: FileRecord): Option<PackError> {
    var found := Find(archive, item.path);
    if found.None? then Some(Missing(item.path))
    else if |found.value.data| != item.bytes then Some(SizeMismatch(item.path))
    else if found.value.mode.Other? then Some(UnsupportedCompression(item.path))
    else if found.value.mode.compression != item.compression then Some(CompressionMismatch(item.path))
    else if h.sha256(found.value.data) != item.sha256 then Some(DigestMismatch(item.path))
    else None
  }

  /** The archive is sound, holds the manifest, and beside it just the files the manifest declares, as declared. */
  ghost predicate Verifies(h: Host, archive: Archive, sidecar: Option<Data>, m: Manifest) {
    && (forall i :: 0 <= i < |archive| ==> archive[i].intact)
    && Find(archive, MANIFEST_PATH).Some? && h.loads(Find(archive, MANIFEST_PATH).value.data) == Some(m)
    && (forall i :: 0 <= i < |m.files| ==> FileError(h, archive, m.files[i]).None?)
    && (forall i :: 0 <= i < |archive| ==> archive[i].name in Declared(m))
    && (sidecar.Some? ==> h.loads(sidecar.value) == Some(m))
  }

  function Declared(m: Manifest): set<string> {
    {MANIFEST_PATH} + set item | item in m.files :: item.path
  }

  method VerifyPack(h: Host, archive: Archive, sidecar: Option<Data>) returns (r: Result<Manifest, PackError>)
    ensures r.Success? ==> Verifies(h, archive, sidecar, r.value)
    ensures (exists m :: Verifies(h, archive, sidecar, m)) ==> r.Success?
  {
    hide Find, FileError;
    if exists i :: 0 <= i < |archive| && !archive[i].intact {
      return Failure(BadCrc);
    }
    var found := Find(archive, MANIFEST_PATH);
    if found.None? {
      return Failure(NoManifest);
    }
    var loaded := h.loads(found.value.data);
    if loaded.None? {
      return Failure(BadManifest);
    }
    var m := loaded.value;
    var declared := {MANIFEST_PATH};
    for i := 0 to |m.files|
      invariant declared == {MANIFEST_PATH} + set k | 0 <= k < i :: m.files[k].path
      invariant forall k :: 0 <= k < i ==> FileError(h, archive, m.files[k]).None?
    {
      declared := declared + {m.files[i].path};
      var error := FileError(h, archive, m.files[i]);
      if error.Some? {
        assert !Verifies(h, archive, sidecar, m);
        return Failure(error.value);
      }
    }
    assert declared == Declared(m);
    if exists i :: 0 <= i < |archive| && archive[i].name !in declared {
      return Failure(Undeclared);
    }
    if sidecar.Some? {
      var sidecarManifest := h.loads(sidecar.value);
      if sidecarManifest.None? {
        return Failure(BadSidecar);
      }
      if sidecarManifest.value != m {
        return Failure(SidecarMismatch);
      }
    }
    r := Success(m);
  }

  /** The named contents of a manifest's files, if the archive has them all. */
  function FilesIn(archive: Archive, items: seq<FileRecord>): Result<seq<(string, Data)>, PackError> {
    if items == [] then Success([])
    else
      var n := |items| - 1;
      var before :- FilesIn(archive, items[..n]);
      if Find(archive, items[n].path).None? then Failure(Missing(items[n].path))
      else Success(before + [(items[n].path, Find(archive, items[n].path).value.data)])
  }

  method PackFingerprintManifests(h: Host, archive: Archive) returns (r: Result<Fingerprints, PackError>)
    ensures var found := Find(archive, MANIFEST_PATH);
            if found.None? then r == Failure(NoManifest)
            else if h.loads(found.value.data).None? then r == Failure(BadManifest)
            else
              var files := FilesIn(archive, Sort(h.loads(found.value.data).value.files, ByRecordPath()));
              r == if files.Success? then Success(FingerprintsOf(h, files.value)) else Failure(files.error)
  {
    hide Sort, WithFile, Find;
    var found := Find(archive, MANIFEST_PATH);
    if found.None? {
      return Failure(NoManifest);
    }
    var loaded := h.loads(found.value.data);
    if loaded.None? {
      return Failure(BadManifest);
    }
    var items := Sort(loaded.value.files, ByRecordPath());
    var f := NO_FINGERPRINTS;
    for i := 0 to |items|
      invariant FilesIn(archive, items[..i]).Success? && f == FingerprintsOf(h, FilesIn(archive, items[..i]).value)
    {
      assert items[..i + 1][..i] == items[..i];
      var member := Find(archive, items[i].path);
      if member.None? {
        MissingStaysMissing(archive, items, i + 1);
        return Failure(Missing(items[i].path));
      }
      ghost var before := FilesIn(archive, items[..i]).value;
      assert (before + [(items[i].path, member.value.data)])[..|before|] == before;
      f := WithFile(h, f, items[i].path, member.value.data);
    }
    assert items[..|items|] == items;
    r := Success(f);
  }

  lemma {:induction false} MissingStaysMissing(archive: Archive, items: seq<FileRecord>, n: nat)
    requires n <= |items| && FilesIn(archive, items[..n]).Failure?
    ensures FilesIn(archive, items) == FilesIn(archive, items[..n])
    decreases |items|
  {
    if n < |items| {
      assert items[..|items| - 1][..n] == items[..n];
      MissingStaysMissing(archive, items[..|items| - 1], n);
    } else {
      assert items[..n] == items;
    }
  }
}
