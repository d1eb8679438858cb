/** What the parts of an asset pack say in plain terms: paths, bytes, fingerprint records and the check of a file. */
module PackMeaning {
  import opened Bytes
  import opened Newlines
  import opened Outcomes
  import opened AssetPack

  // ---------------------------------------------------------------------------------------------
  // Paths
  // ---------------------------------------------------------------------------------------------

  /** A stretch of the path without slashes, from the start or a slash up to a slash or the end. */
  ghost predicate IsPart(path: string, from: int, upto: int) {
    && 0 <= from <= upto <= |path| && '/' !in path[from..upto]
    && (from == 0 || path[from - 1] == '/') && (upto == |path| || path[upto] == '/')
  }

  ghost predicate HasPart(path: string, part: string) {
    exists from, upto :: IsPart(path, from, upto) && path[from..upto] == part
  }

  /** The first part of a path, up to its first slash. */
  ghost predicate BeginsWith(path: string, part: string) {
    '/' !in part && |part| <= |path| && path[..|part|] == part && (|part| == |path| || path[|part|] == '/')
  }

  lemma {:induction false} FirstPart(path: string)
    ensures BeginsWith(path, PathParts(path)[0])
  {
    if path != [] {
      FirstPart(path[1..]);
      var part, first := PathParts(path)[0], PathParts(path[1..])[0];
      if path[0] != '/' {
        assert part == [path[0]] + first && path == [path[0]] + path[1..];
      }
    }
  }

  lemma NoSlashIn(path: string, part: string)
    requires BeginsWith(path, part)
    ensures forall k :: 0 <= k < |part| ==> path[k] != '/'
  {
    forall k | 0 <= k < |part| ensures path[k] != '/' {
      assert path[k] == part[k] && part[k] in part;
    }
  }

  lemma BeginsWithFirst(path: string, part: string)
    ensures BeginsWith(path, part) <==> part == PathParts(path)[0]
  {
    FirstPart(path);
    var first := PathParts(path)[0];
    if BeginsWith(path, part) {
      NoSlashIn(path, first);
      NoSlashIn(path, part);
    }
  }

  /** A part behind the first slash. */
  ghost predicate HasLater(path: string, part: string) {
    exists from, upto :: from > 0 && IsPart(path, from, upto) && path[from..upto] == part
  }

  lemma LaterStep(path: string, part: string)
    requires path != []
    ensures HasLater(path, part) <==> HasLater(path[1..], part) || (path[0] == '/' && BeginsWith(path[1..], part))
  {
    var rest := path[1..];
    if HasLater(path, part) {
      var from, upto :| from > 0 && IsPart(path, from, upto) && path[from..upto] == part;
      assert rest[from - 1..upto - 1] == part;
      if from > 1 {
        assert IsPart(rest, from - 1, upto - 1);
      }
    }
    if HasLater(rest, part) {
      var from, upto :| from > 0 && IsPart(rest, from, upto) && rest[from..upto] == part;
      assert path[from + 1..upto + 1] == part;
      assert IsPart(path, from + 1, upto + 1);
    }
    if path[0] == '/' && BeginsWith(rest, part) {
      assert path[1..1 + |part|] == part;
      assert IsPart(path, 1, 1 + |part|);
    }
  }

  lemma {:induction false} LaterParts(path: string, part: string)
    ensures part in PathParts(path)[1..] <==> HasLater(path, part)
  {
    if path != [] {
      LaterParts(path[1..], part);
      LaterStep(path, part);
      BeginsWithFirst(path[1..], part);
      hide HasLater, BeginsWith;
      var rest := PathParts(path[1..]);
      assert rest == [rest[0]] + rest[1..];
      assert path[0] == '/' ==> PathParts(path)[1..] == rest;
      assert path[0] != '/' ==> PathParts(path)[1..] == rest[1..];
    }
  }

  /** The parts of a path are its stretches between slashes. */
  lemma PartsAre(path: string, part: string)
    ensures part in PathParts(path) <==> HasPart(path, part)
  {
    LaterParts(path, part);
    BeginsWithFirst(path, part);
    var parts := PathParts(path);
    assert parts == [parts[0]] + parts[1..];
    hide PathParts;
    if BeginsWith(path, part) {
      assert IsPart(path, 0, |part|);
    }
    if HasPart(path, part) {
      var from, upto :| IsPart(path, from, upto) && path[from..upto] == part;
      assert from > 0 ==> HasLater(path, part);
      assert from == 0 ==> BeginsWith(path, part);
    }
  }

  /**
   * A valid path is not the manifest's, has no backslash, and none of its parts is empty or two dots: so it is not
   * empty, does not begin or end with a slash, and has no two slashes in a row.
   */
  lemma PathIsValidIff(path: string)
    ensures ValidPackPath(path) <==>
              path != "mclone-pack.json" && '\\' !in path && !HasPart(path, "") && !HasPart(path, "..")
  {
    PartsAre(path, "");
    PartsAre(path, "..");
    if path == [] {
      assert IsPart(path, 0, 0);
    }
  }

  // ---------------------------------------------------------------------------------------------
  // Bytes and fingerprints
  // ---------------------------------------------------------------------------------------------

  /** A file is packed as it is, unless its suffix is one of text: then its line endings are normalised. */
  lemma PackedBytes(h: Host, tree: Tree, source: string)
    ensures var text := h.suffix(source) in [".json", ".mcmeta", ".txt", ".lang", ".fsh", ".vsh"];
            var packed := PackFileBytes(h, tree, source);
            && (text ==> packed == NormalizedTextBytes(tree(source)) && CR !in packed)
            && (!text || CR !in tree(source) ==> packed == tree(source))
  {
    NormalizingIsIdempotent(tree(source));
    hide NormalizedTextBytes;
  }

  /** JSON that parses is hashed in canonical form, other text with its lines normalised, and the rest is excluded. */
  lemma PortableRecordIs(h: Host, path: string, data: Data)
    ensures var record, canonical, suffix := PortableFileRecord(h, path, data), h.canonicalJson(data), h.suffix(path);
            && record.path == path
            && (suffix == ".json" && canonical.Some? <==> record.Hashed? && record.kind == "json")
            && (record.Hashed? && record.kind == "json" ==>
                  record.bytes == |canonical.value| && record.sha256 == h.sha256(canonical.value))
            && (suffix in [".json", ".mcmeta", ".txt", ".lang", ".fsh", ".vsh"] <==> record.Hashed?)
            && (record.Hashed? && record.kind != "json" ==>
                  && record.kind == "text" && record.bytes == |NormalizedTextBytes(data)|
                  && record.sha256 == h.sha256(NormalizedTextBytes(data)))
            && (record.Excluded? ==> record.suffix == suffix)
  {
    hide NormalizedTextBytes;
  }

  /** How many of the first files are hashed. */
  function HashedBefore(h: Host, files: seq<(string, Data)>, n: nat): (k: nat)
    requires n <= |files|
    ensures k <= n
  {
    if n == 0 then 0
    else HashedBefore(h, files, n - 1) + if PortableFileRecord(h, files[n - 1].0, files[n - 1].1).Hashed? then 1 else 0
  }

  /** The record of a file stands in its list behind those of the files before it. */
  ghost predicate FingerprintedInOrder(h: Host, files: seq<(string, Data)>, f: Fingerprints, i: int)
    requires 0 <= i < |files|
  {
    var record, hashed := PortableFileRecord(h, files[i].0, files[i].1), HashedBefore(h, files, i);
    && (if record.Hashed? then hashed < |f.files| && f.files[hashed] == record
        else i - hashed < |f.excludedFiles| && f.excludedFiles[i - hashed] == record)
    && i < |f.payload| && f.payload[i] == PayloadRecord(files[i].0, |files[i].1|, h.sha256(files[i].1))
  }

  lemma {:induction false} HashedOfPrefix(h: Host, files: seq<(string, Data)>, k: nat, n: nat)
    requires n <= k <= |files|
    ensures HashedBefore(h, files[..k], n) == HashedBefore(h, files, n)
  {
    if n > 0 {
      hide PortableFileRecord;
      HashedOfPrefix(h, files, k, n - 1);
    }
  }

  /** Each file is fingerprinted once, in order, and nothing else is. */
  lemma {:induction false} FingerprintsInOrder(h: Host, files: seq<(string, Data)>)
    ensures var f := FingerprintsOf(h, files);
            && |f.payload| == |files| && |f.files| == HashedBefore(h, files, |files|)
            && |f.excludedFiles| == |files| - HashedBefore(h, files, |files|)
            && forall i :: 0 <= i < |files| ==> FingerprintedInOrder(h, files, f, i)
    decreases |files|
  {
    if files != [] {
      hide PortableFileRecord;
      var n, f := |files| - 1, FingerprintsOf(h, files);
      var before := FingerprintsOf(h, files[..n]);
      FingerprintsInOrder(h, files[..n]);
      HashedOfPrefix(h, files, n, n);
      forall i | 0 <= i < |files| ensures FingerprintedInOrder(h, files, f, i) {
        if i < n {
          HashedOfPrefix(h, files, n, i);
          assert FingerprintedInOrder(h, files[..n], before, i);
        }
      }
    }
  }

  // ---------------------------------------------------------------------------------------------
  // Reading
  // ---------------------------------------------------------------------------------------------

  ghost predicate IsLastOf(archive: Archive, i: int, name: string) {
    0 <= i < |archive| && archive[i].name == name && forall j :: i < j < |archive| ==> archive[j].name != name
  }

  /** Of several members of one name the last counts. */
  lemma {:induction false} FindsTheLast(archive: Archive, name: string, i: int)
    requires IsLastOf(archive, i, name)
    ensures Find(archive, name) == Some(archive[i])
    decreases |archive|
  {
    if i < |archive| - 1 {
      FindsTheLast(archive[..|archive| - 1], name, i);
    }
  }

  /** A file passes exactly if the archive has it, in the declared size, compression and digest. */
  lemma FileIsAsDeclaredIff(h: Host, archive: Archive, item: FileRecord)
    ensures FileError(h, archive, item).None? <==>
              && Find(archive, item.path).Some?
              && |Find(archive, item.path).value.data| == item.bytes
              && Find(archive, item.path).value.mode == Supported(item.compression)
              && h.sha256(Find(archive, item.path).value.data) == item.sha256
  {
    hide Find;
  }
}
