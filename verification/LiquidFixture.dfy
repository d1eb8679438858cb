/** Liquid region fixtures: building one from decoded chunks, decoding its blocks, and comparing two of them. */
module LiquidFixture {
  import opened Outcomes
  import opened Sorting
  import opened Decimals
  import opened LiquidWorld
  import LiquidTicks

  type Locale = (string, string) -> bool
  type Tick = LiquidTicks.Tick
  type Diff = LiquidTicks.Diff

  /** The bounds and margin of a scenario; its other fields are carried over as they are. */
  datatype Scenario = Scenario(bounds: Bounds, tickMargin: int, title: string)

  datatype Fixture = Fixture(
    title: string, dataVersion: int, bounds: Bounds, palette: seq<State>, blocks: seq<int>, liquidTicks: seq<Tick>)

  // ---------------------------------------------------------------------------------------------
  // What a fixture stands for
  // ---------------------------------------------------------------------------------------------

  /** The key of the world's block at an index of the bounds. */
  function KeyAt(locale: Locale, chunks: seq<Chunk>, b: Bounds, index: nat): Result<string, FixtureError>
    requires b.sizeX > 0 && b.sizeZ > 0
  {
    var p := PositionForIndex(b, index);
    var state := StateAt(locale, chunks, p.x, p.y, p.z);
    if state.Failure? then Failure(state.error) else Success(BlockStateKey(locale, state.value))
  }

  ghost predicate HasKey(locale: Locale, chunks: seq<Chunk>, b: Bounds, index: nat, key: string) {
    b.sizeX > 0 && b.sizeZ > 0 && KeyAt(locale, chunks, b, index) == Success(key)
  }

  ghost predicate Fails(locale: Locale, chunks: seq<Chunk>, b: Bounds, index: nat, error: FixtureError) {
    b.sizeX > 0 && b.sizeZ > 0 && KeyAt(locale, chunks, b, index) == Failure(error)
  }

  /** The keys of the world's blocks, for each index in order. */
  ghost predicate WorldKeys(locale: Locale, chunks: seq<Chunk>, b: Bounds, keys: seq<string>) {
    forall i :: 0 <= i < |keys| ==> HasKey(locale, chunks, b, i, keys[i])
  }

  /** The first block, in index order, that the chunks do not give. */
  ghost predicate FirstMissing(locale: Locale, chunks: seq<Chunk>, b: Bounds, error: FixtureError) {
    exists keys: seq<string> :: |keys| < Volume(b) && WorldKeys(locale, chunks, b, keys)
      && Fails(locale, chunks, b, |keys|, error)
  }

  /** Each key once, in order of first occurrence. */
  function Firsts(keys: seq<string>): seq<string> {
    if keys == [] then []
    else
      var before := Firsts(keys[..|keys| - 1]);
      if keys[|keys| - 1] in before then before else before + [keys[|keys| - 1]]
  }

  lemma {:induction false} FirstsAreTheKeys(keys: seq<string>)
    ensures NoDuplicates(Firsts(keys)) && forall key :: key in Firsts(keys) <==> key in keys
  {
    if keys != [] {
      FirstsAreTheKeys(keys[..|keys| - 1]);
      assert keys == keys[..|keys| - 1] + [keys[|keys| - 1]];
    }
  }

  /** Where a key enters the order of first occurrences: once all keys before it are there. */
  lemma {:induction false} FirstsOfPrefix(keys: seq<string>, n: nat)
    requires n <= |keys|
    ensures |Firsts(keys[..n])| <= |Firsts(keys)| && Firsts(keys)[..|Firsts(keys[..n])|] == Firsts(keys[..n])
    decreases |keys|
  {
    if n < |keys| {
      FirstsOfPrefix(keys[..|keys| - 1], n);
      assert keys[..|keys| - 1][..n] == keys[..n];
    } else {
      assert keys[..n] == keys;
    }
  }

  /** Indices into a palette whose keys are the first occurrences of the block keys. */
  ghost predicate Interned(locale: Locale, keys: seq<string>, palette: seq<State>, blocks: seq<int>) {
    && |palette| == |Firsts(keys)|
    && (forall k :: 0 <= k < |palette| ==> BlockStateKey(locale, palette[k]) == Firsts(keys)[k])
    && |blocks| == |keys|
    && (forall i :: 0 <= i < |blocks| ==> 0 <= blocks[i] < |palette| && Firsts(keys)[blocks[i]] == keys[i])
  }

  ghost predicate Indexed(index: map<string, nat>, firsts: seq<string>) {
    && (forall k :: 0 <= k < |firsts| ==> firsts[k] in index && index[firsts[k]] == k)
    && (forall key :: key in index ==> index[key] < |firsts| && firsts[index[key]] == key)
  }

  lemma InternOld(
      locale: Locale, keys: seq<string>, palette: seq<State>, blocks: seq<int>, index: map<string, nat>, key: string)
    requires Interned(locale, keys, palette, blocks) && Indexed(index, Firsts(keys)) && key in index
    ensures Interned(locale, keys + [key], palette, blocks + [index[key]]) && Indexed(index, Firsts(keys + [key]))
  {
    hide BlockStateKey;
    assert key in Firsts(keys) by { assert Firsts(keys)[index[key]] == key; }
    assert (keys + [key])[..|keys|] == keys;
    assert Firsts(keys + [key]) == Firsts(keys);
    hide Firsts;
    var firsts, next := Firsts(keys), blocks + [index[key]];
    forall i | 0 <= i <= |blocks| ensures 0 <= next[i] < |palette| && firsts[next[i]] == (keys + [key])[i] {
      assert i < |blocks| ==> next[i] == blocks[i] && (keys + [key])[i] == keys[i];
    }
  }

  lemma InternNew(
      locale: Locale, keys: seq<string>, palette: seq<State>, blocks: seq<int>, index: map<string, nat>, state: State)
    requires Interned(locale, keys, palette, blocks) && Indexed(index, Firsts(keys))
             && BlockStateKey(locale, state) !in index
    ensures var key := BlockStateKey(locale, state);
            && Interned(locale, keys + [key], palette + [state], blocks + [|palette|])
            && Indexed(index[key := |palette|], Firsts(keys + [key]))
  {
    hide BlockStateKey;
    var key := BlockStateKey(locale, state);
    assert (keys + [key])[..|keys|] == keys;
    assert Firsts(keys + [key]) == Firsts(keys) + [key];
    hide Firsts;
    var firsts, next := Firsts(keys), Firsts(keys + [key]);
    forall k | 0 <= k <= |palette| ensures BlockStateKey(locale, (palette + [state])[k]) == next[k] {
      assert k < |palette| ==> next[k] == firsts[k];
    }
    forall i | 0 <= i <= |blocks|
      ensures 0 <= (blocks + [|palette|])[i] <= |palette| && next[(blocks + [|palette|])[i]] == (keys + [key])[i]
    {
      assert i < |blocks| ==> next[blocks[i]] == firsts[blocks[i]];
    }
    IndexedNext(index, firsts, key);
  }

  lemma IndexedNext(index: map<string, nat>, firsts: seq<string>, key: string)
    requires Indexed(index, firsts) && key !in index
    ensures Indexed(index[key := |firsts|], firsts + [key])
  {
  }

  // ---------------------------------------------------------------------------------------------
  // Building
  // ---------------------------------------------------------------------------------------------

  function HeaderError(chunks: seq<Chunk>, dataVersion: int): Option<FixtureError> {
    if chunks == [] then None
    else if chunks[0].dataVersion != dataVersion then Some(MixedDataVersions(chunks[0].x, chunks[0].z))
    else if chunks[0].status != "full" then Some(NotFull(chunks[0].x, chunks[0].z))
    else HeaderError(chunks[1..], dataVersion)
  }

  /** Headers pass exactly if all chunks are full and of one version; otherwise the first that is not is reported. */
  lemma {:induction false} HeaderErrorIff(chunks: seq<Chunk>, dataVersion: int)
    ensures HeaderError(chunks, dataVersion).None? <==>
              forall i :: 0 <= i < |chunks| ==> chunks[i].dataVersion == dataVersion && chunks[i].status == "full"
    ensures HeaderError(chunks, dataVersion).Some? ==> exists i :: FailsFirst(chunks, dataVersion, i)
  {
    if chunks != [] {
      HeaderErrorIff(chunks[1..], dataVersion);
      if chunks[0].dataVersion != dataVersion || chunks[0].status != "full" {
        assert FailsFirst(chunks, dataVersion, 0);
      } else {
        assert forall i :: 1 <= i < |chunks| ==> chunks[i] == chunks[1..][i - 1];
        if HeaderError(chunks, dataVersion).Some? {
          var i :| FailsFirst(chunks[1..], dataVersion, i);
          assert FailsFirst(chunks, dataVersion, i + 1);
        }
      }
    }
  }

  ghost predicate FailsFirst(chunks: seq<Chunk>, dataVersion: int, i: int) {
    && 0 <= i < |chunks|
    && (forall j :: 0 <= j < i ==> chunks[j].dataVersion == dataVersion && chunks[j].status == "full")
    && (if chunks[i].dataVersion != dataVersion
        then HeaderError(chunks, dataVersion) == Some(MixedDataVersions(chunks[i].x, chunks[i].z))
        else chunks[i].status != "full" && HeaderError(chunks, dataVersion) == Some(NotFull(chunks[i].x, chunks[i].z)))
  }

  method CheckHeaders(chunks: seq<Chunk>, dataVersion: int) returns (error: Option<FixtureError>)
    ensures error == HeaderError(chunks, dataVersion)
  {
    for i := 0 to |chunks|
      invariant HeaderError(chunks, dataVersion) == HeaderError(chunks[i..], dataVersion)
    {
      var chunk := chunks[i];
      if chunk.dataVersion != dataVersion {
        return Some(MixedDataVersions(chunk.x, chunk.z));
      }
      if chunk.status != "full" {
        return Some(NotFull(chunk.x, chunk.z));
      }
    }
    error := None;
  }

  ghost predicate Filed(byKey: map<string, Chunk>, chunks: seq<Chunk>) {
    forall x, z :: Lookup(byKey, x, z) == ChunkAt(chunks, x, z)
  }

  function Lookup(byKey: map<string, Chunk>, x: int, z: int): Option<Chunk> {
    if PairKey(x, z) in byKey then Some(byKey[PairKey(x, z)]) else None
  }

  lemma FiledNext(byKey: map<string, Chunk>, chunks: seq<Chunk>, chunk: Chunk)
    requires Filed(byKey, chunks)
    ensures Filed(byKey[PairKey(chunk.x, chunk.z) := chunk], chunks + [chunk])
  {
    var next := byKey[PairKey(chunk.x, chunk.z) := chunk];
    assert (chunks + [chunk])[..|chunks|] == chunks;
    forall x, z ensures Lookup(next, x, z) == ChunkAt(chunks + [chunk], x, z) {
      PairKeyIsInjective(x, z, chunk.x, chunk.z);
      hide PairKey;
      assert Lookup(byKey, x, z) == ChunkAt(chunks, x, z);
    }
  }

  lemma NothingFiled()
    ensures Filed(map[], [])
  {
  }

  method FileChunks(chunks: seq<Chunk>) returns (byKey: map<string, Chunk>)
    ensures Filed(byKey, chunks)
  {
    hide PairKey, ChunkAt, Filed;
    NothingFiled();
    byKey := map[];
    for i := 0 to |chunks|
      invariant Filed(byKey, chunks[..i])
    {
      FiledNext(byKey, chunks[..i], chunks[i]);
      assert chunks[..i + 1] == chunks[..i] + [chunks[i]];
      byKey := byKey[PairKey(chunks[i].x, chunks[i].z) := chunks[i]];
    }
    assert chunks[..|chunks|] == chunks;
  }

  predicate IsTickInBounds(t: Tick, b: Bounds, margin: int) {
    && b.minX - margin <= t.x <= b.minX + b.sizeX - 1 + margin
    && b.minY - margin <= t.y <= b.minY + b.sizeY - 1 + margin
    && b.minZ - margin <= t.z <= b.minZ + b.sizeZ - 1 + margin
  }

  function TicksIn(s: Scenario): Tick -> bool {
    (t: Tick) => IsTickInBounds(t, s.bounds, s.tickMargin)
  }

  function Flat<T>(lists: seq<seq<T>>): seq<T> {
    if lists == [] then [] else lists[0] + Flat(lists[1..])
  }

  function FixtureTicks(locale: Locale, s: Scenario, chunkTicks: seq<seq<Tick>>): seq<Tick> {
    LiquidTicks.NormalizeLiquidTicks(locale, Filter(Flat(chunkTicks), TicksIn(s)))
  }

  /** At most the margin away from some position of the bounds, in each direction. */
  ghost predicate Near(t: Tick, s: Scenario) {
    exists p :: InBounds(s.bounds, p) && Within(t, p, s.tickMargin)
  }

  predicate Within(t: Tick, p: Position, margin: int) {
    -margin <= t.x - p.x <= margin && -margin <= t.y - p.y <= margin && -margin <= t.z - p.z <= margin
  }

  lemma NearIff(t: Tick, s: Scenario)
    requires s.tickMargin >= 0 && s.bounds.sizeX > 0 && s.bounds.sizeY > 0 && s.bounds.sizeZ > 0
    ensures IsTickInBounds(t, s.bounds, s.tickMargin) <==> Near(t, s)
  {
    var b := s.bounds;
    if IsTickInBounds(t, b, s.tickMargin) {
      var p := Position(Nearest(t.x, b.minX, b.sizeX), Nearest(t.y, b.minY, b.sizeY), Nearest(t.z, b.minZ, b.sizeZ));
      assert InBounds(b, p) && Within(t, p, s.tickMargin);
    }
  }

  function Nearest(x: int, min: int, size: nat): int {
    if x < min then min else if x >= min + size then min + size - 1 else x
  }

  lemma {:induction false} FilterCounts(ticks: seq<Tick>, keep: Tick -> bool, t: Tick)
    ensures multiset(Filter(ticks, keep))[t] == if keep(t) then multiset(ticks)[t] else 0
  {
    if ticks != [] {
      FilterCounts(ticks[1..], keep, t);
      assert ticks == [ticks[0]] + ticks[1..];
    }
  }

  lemma {:induction false} FlatHolds(lists: seq<seq<Tick>>, t: Tick)
    ensures t in Flat(lists) <==> exists list :: list in lists && t in list
  {
    if lists != [] {
      FlatHolds(lists[1..], t);
      assert lists == [lists[0]] + lists[1..];
    }
  }

  /** A fixture's ticks are those of the chunks that lie in or near its bounds, each as often as the chunks have it. */
  lemma TicksAreNear(locale: Locale, s: Scenario, chunkTicks: seq<seq<Tick>>, t: Tick)
    requires s.tickMargin >= 0 && s.bounds.sizeX > 0 && s.bounds.sizeY > 0 && s.bounds.sizeZ > 0
    ensures t in FixtureTicks(locale, s, chunkTicks) <==> Near(t, s) && exists list :: list in chunkTicks && t in list
    ensures multiset(FixtureTicks(locale, s, chunkTicks))[t] == if Near(t, s) then multiset(Flat(chunkTicks))[t] else 0
  {
    var kept := Filter(Flat(chunkTicks), TicksIn(s));
    NearIff(t, s);
    FlatHolds(chunkTicks, t);
    FilterCounts(Flat(chunkTicks), TicksIn(s), t);
    SortIsPermutation(kept, LiquidTicks.TickLeq(locale));
    hide Sort, Flat, Filter, Near;
    assert t in FixtureTicks(locale, s, chunkTicks) <==> t in multiset(FixtureTicks(locale, s, chunkTicks));
    assert t in Flat(chunkTicks) <==> t in multiset(Flat(chunkTicks));
  }

  /** The fixture of a world: its block keys interned in index order, and the ticks in and near the bounds. */
  ghost predicate Represents(
      locale: Locale, s: Scenario, chunks: seq<Chunk>, chunkTicks: seq<seq<Tick>>, f: Fixture, keys: seq<string>)
  {
    && chunks != [] && f.dataVersion == chunks[0].dataVersion && HeaderError(chunks, f.dataVersion).None?
    && f.title == s.title && f.bounds == s.bounds
    && |keys| == Volume(s.bounds) && WorldKeys(locale, chunks, s.bounds, keys)
    && Interned(locale, keys, f.palette, f.blocks)
    && f.liquidTicks == FixtureTicks(locale, s, chunkTicks)
  }

  /** The running state of the three loops: the blocks before an index are interned. */
  ghost predicate Built(
      locale: Locale, s: Scenario, chunks: seq<Chunk>, keys: seq<string>, palette: seq<State>,
      index: map<string, nat>, blocks: seq<int>, next: int)
  {
    && |keys| == next && WorldKeys(locale, chunks, s.bounds, keys)
    && Interned(locale, keys, palette, blocks) && Indexed(index, Firsts(keys))
  }

  lemma WorldKeysNext(locale: Locale, chunks: seq<Chunk>, b: Bounds, keys: seq<string>, key: string)
    requires WorldKeys(locale, chunks, b, keys) && HasKey(locale, chunks, b, |keys|, key)
    ensures WorldKeys(locale, chunks, b, keys + [key])
  {
    hide HasKey;
  }

  /** What the innermost step finds at its place: the world's block at the next index. */
  lemma NextBlock(locale: Locale, chunks: seq<Chunk>, byKey: map<string, Chunk>, b: Bounds, x: nat, y: nat, z: nat)
    requires Filed(byKey, chunks) && x < b.sizeX && y < b.sizeY && z < b.sizeZ
    ensures 0 <= IndexOf(b, x, y, z) < Volume(b)
    ensures var state :=
              GetBlockState(
                locale, Lookup(byKey, (b.minX + x) / 16, (b.minZ + z) / 16), b.minX + x, b.minY + y, b.minZ + z);
            && (state.Success? ==> HasKey(locale, chunks, b, IndexOf(b, x, y, z), BlockStateKey(locale, state.value)))
            && (state.Failure? ==> Fails(locale, chunks, b, IndexOf(b, x, y, z), state.error))
  {
    hide IndexOf, Volume, PositionForIndex, BlockStateKey, GetBlockState, Lookup, StateAt, Filed;
    PositionOfIndex(b, x, y, z);
    FoundAt(locale, chunks, byKey, b.minX + x, b.minY + y, b.minZ + z);
  }

  lemma FoundAt(locale: Locale, chunks: seq<Chunk>, byKey: map<string, Chunk>, x: int, y: int, z: int)
    requires Filed(byKey, chunks)
    ensures GetBlockState(locale, Lookup(byKey, x / 16, z / 16), x, y, z) == StateAt(locale, chunks, x, y, z)
  {
    hide GetBlockState, Lookup, ChunkAt;
    assert Lookup(byKey, x / 16, z / 16) == ChunkAt(chunks, x / 16, z / 16);
  }

  lemma NextRow(b: Bounds, y: int, z: int)
    ensures IndexOf(b, 0, 0, 0) == 0
    ensures IndexOf(b, b.sizeX, y, z) == IndexOf(b, 0, y, z + 1) && IndexOf(b, 0, y, b.sizeZ) == IndexOf(b, 0, y + 1, 0)
    ensures IndexOf(b, 0, b.sizeY, 0) == Volume(b)
  {
    Distributes(y * b.sizeZ + z, b.sizeX);
    Distributes(y, b.sizeZ);
    Reordered(b.sizeX, b.sizeY, b.sizeZ);
  }

  lemma Distributes(q: int, m: int)
    ensures q * m + m == (q + 1) * m
  {
  }

  lemma NextColumn(b: Bounds, x: int, y: int, z: int)
    ensures IndexOf(b, x + 1, y, z) == IndexOf(b, x, y, z) + 1
  {
  }

  method BuildLiquidRegionFixture(
      locale: Locale, s: Scenario, chunks: seq<Chunk>, chunkTicks: seq<seq<Tick>>)
    returns (r: Result<Fixture, FixtureError>)
    ensures r.Success? ==> exists keys :: Represents(locale, s, chunks, chunkTicks, r.value, keys)
    ensures r.Failure? ==>
              if chunks == [] then r.error == NoChunks
              else if HeaderError(chunks, chunks[0].dataVersion).Some?
                then Some(r.error) == HeaderError(chunks, chunks[0].dataVersion)
              else FirstMissing(locale, chunks, s.bounds, r.error)
  {
    hide *;
    if chunks == [] {
      return Failure(NoChunks);
    }
    var headerError := CheckHeaders(chunks, chunks[0].dataVersion);
    if headerError.Some? {
      return Failure(headerError.value);
    }
    var byKey := FileChunks(chunks);
    var b := s.bounds;
    var palette: seq<State>, index: map<string, nat>, blocks: seq<int> := [], map[], [];
    ghost var keys: seq<string> := [];
    NothingBuilt(locale, s, chunks);
    NextRow(b, 0, 0);
    for y := 0 to b.sizeY
      invariant Built(locale, s, chunks, keys, palette, index, blocks, IndexOf(b, 0, y, 0))
    {
      for z := 0 to b.sizeZ
        invariant Built(locale, s, chunks, keys, palette, index, blocks, IndexOf(b, 0, y, z))
      {
        for x := 0 to b.sizeX
          invariant Built(locale, s, chunks, keys, palette, index, blocks, IndexOf(b, x, y, z))
        {
          var state := GetBlockState(
            locale, Lookup(byKey, (b.minX + x) / 16, (b.minZ + z) / 16), b.minX + x, b.minY + y, b.minZ + z);
          NextBlock(locale, chunks, byKey, b, x, y, z);
          if state.Failure? {
            MissingHere(locale, s, chunks, keys, palette, index, blocks, IndexOf(b, x, y, z), state.error);
            return Failure(state.error);
          }
          var key := BlockStateKey(locale, state.value);
          NextColumn(b, x, y, z);
          BuiltNext(locale, s, chunks, keys, palette, index, blocks, IndexOf(b, x, y, z), state.value);
          if key !in index {
            index := index[key := |palette|];
            palette := palette + [state.value];
          }
          blocks := blocks + [index[key]];
          keys := keys + [key];
        }
        NextRow(b, y, z);
      }
      NextRow(b, y, 0);
    }
    r := Success(Fixture(s.title, chunks[0].dataVersion, b, palette, blocks, FixtureTicks(locale, s, chunkTicks)));
    Finished(locale, s, chunks, chunkTicks, keys, palette, index, blocks);
  }

  lemma NothingBuilt(locale: Locale, s: Scenario, chunks: seq<Chunk>)
    ensures Built(locale, s, chunks, [], [], map[], [], IndexOf(s.bounds, 0, 0, 0))
  {
    NextRow(s.bounds, 0, 0);
  }

  lemma MissingHere(
      locale: Locale, s: Scenario, chunks: seq<Chunk>, keys: seq<string>, palette: seq<State>, index: map<string, nat>,
      blocks: seq<int>,
      next: int, error: FixtureError)
    requires 0 <= next < Volume(s.bounds)
    requires Built(locale, s, chunks, keys, palette, index, blocks, next)
             && Fails(locale, chunks, s.bounds, next, error)
    ensures FirstMissing(locale, chunks, s.bounds, error)
  {
    hide Volume, WorldKeys, Fails;
  }

  lemma BuiltNext(
      locale: Locale, s: Scenario, chunks: seq<Chunk>, keys: seq<string>, palette: seq<State>, index: map<string, nat>,
      blocks: seq<int>,
      next: int, state: State)
    requires Built(locale, s, chunks, keys, palette, index, blocks, next) && next >= 0
    requires HasKey(locale, chunks, s.bounds, next, BlockStateKey(locale, state))
    ensures var key := BlockStateKey(locale, state);
            if key in index then Built(locale, s, chunks, keys + [key], palette, index, blocks + [index[key]], next + 1)
            else Built(locale, s, chunks, keys + [key], palette + [state], index[key := |palette|],
                blocks + [|palette|], next + 1)
  {
    hide WorldKeys, Interned, Indexed, Firsts, BlockStateKey, HasKey;
    var key := BlockStateKey(locale, state);
    WorldKeysNext(locale, chunks, s.bounds, keys, key);
    if key in index {
      InternOld(locale, keys, palette, blocks, index, key);
    } else {
      InternNew(locale, keys, palette, blocks, index, state);
    }
  }

  lemma Finished(
      locale: Locale, s: Scenario, chunks: seq<Chunk>, chunkTicks: seq<seq<Tick>>, keys: seq<string>,
      palette: seq<State>, index: map<string, nat>,
      blocks: seq<int>)
    requires chunks != [] && HeaderError(chunks, chunks[0].dataVersion).None?
    requires Built(locale, s, chunks, keys, palette, index, blocks, IndexOf(s.bounds, 0, s.bounds.sizeY, 0))
    ensures var f := Fixture(s.title, chunks[0].dataVersion, s.bounds, palette, blocks,
              FixtureTicks(locale, s, chunkTicks));
            Represents(locale, s, chunks, chunkTicks, f, keys)
  {
    NextRow(s.bounds, 0, 0);
    hide IndexOf, Volume, WorldKeys, Interned, HeaderError, FixtureTicks;
  }

  // ---------------------------------------------------------------------------------------------
  // Decoding and comparing
  // ---------------------------------------------------------------------------------------------

  function DecodeFrom(locale: Locale, palette: seq<State>, blocks: seq<int>, at: nat): Result<seq<string>, FixtureError>
    requires at <= |blocks|
    decreases |blocks| - at
  {
    if at == |blocks| then Success([])
    else if !(0 <= blocks[at] < |palette|) then Failure(PaletteOutOfRange(at))
    else
      var rest :- DecodeFrom(locale, palette, blocks, at + 1);
      Success([BlockStateKey(locale, palette[blocks[at]])] + rest)
  }

  function DecodeFixtureBlocks(locale: Locale, f: Fixture): Result<seq<string>, FixtureError> {
    if |f.blocks| != Volume(f.bounds) then Failure(WrongBlockCount) else DecodeFrom(locale, f.palette, f.blocks, 0)
  }

  lemma {:induction false} DecodeFromInterned(
      locale: Locale, palette: seq<State>, blocks: seq<int>, keys: seq<string>, at: nat)
    requires Interned(locale, keys, palette, blocks) && at <= |blocks|
    ensures DecodeFrom(locale, palette, blocks, at) == Success(keys[at..])
    decreases |blocks| - at
  {
    hide Interned, BlockStateKey, DecodeFrom;
    InternedAt(locale, keys, palette, blocks, at);
    if at == |blocks| {
      assert keys[at..] == [];
    } else {
      DecodeFromInterned(locale, palette, blocks, keys, at + 1);
      DecodeStep(locale, palette, blocks, at, keys[at + 1..]);
      assert keys[at..] == [keys[at]] + keys[at + 1..];
    }
  }

  lemma InternedAt(locale: Locale, keys: seq<string>, palette: seq<State>, blocks: seq<int>, at: nat)
    requires Interned(locale, keys, palette, blocks) && at <= |blocks|
    ensures |keys| == |blocks|
    ensures at < |blocks| ==> 0 <= blocks[at] < |palette| && BlockStateKey(locale, palette[blocks[at]]) == keys[at]
    ensures at == |blocks| ==> DecodeFrom(locale, palette, blocks, at) == Success([])
  {
    hide BlockStateKey;
  }

  lemma DecodeStep(locale: Locale, palette: seq<State>, blocks: seq<int>, at: nat, rest: seq<string>)
    requires at < |blocks| && 0 <= blocks[at] < |palette|
    requires DecodeFrom(locale, palette, blocks, at + 1) == Success(rest)
    ensures DecodeFrom(locale, palette, blocks, at) == Success([BlockStateKey(locale, palette[blocks[at]])] + rest)
  {
    hide BlockStateKey;
  }

  lemma {:induction false} DecodedLength(locale: Locale, palette: seq<State>, blocks: seq<int>, at: nat)
    requires at <= |blocks|
    ensures DecodeFrom(locale, palette, blocks, at).Success? ==>
            |DecodeFrom(locale, palette, blocks, at).value| == |blocks| - at
    decreases |blocks| - at
  {
    if at < |blocks| {
      DecodedLength(locale, palette, blocks, at + 1);
    }
  }

  /**
   * A built fixture decodes to the keys of the world's blocks; its palette keys are distinct, every entry is used, and
   * entries come in the order their keys first occur.
   */
  lemma FixtureRepresentsTheWorld(
      locale: Locale, s: Scenario, chunks: seq<Chunk>, chunkTicks: seq<seq<Tick>>, f: Fixture, keys: seq<string>)
    requires Represents(locale, s, chunks, chunkTicks, f, keys)
    ensures DecodeFixtureBlocks(locale, f) == Success(keys)
    ensures forall i :: 0 <= i < |keys| ==> HasKey(locale, chunks, f.bounds, i, keys[i])
    ensures forall j, k :: 0 <= j < k < |f.palette| ==>
            BlockStateKey(locale, f.palette[j]) != BlockStateKey(locale, f.palette[k])
    ensures forall k :: 0 <= k < |f.palette| ==> Used(f.blocks, k)
    ensures forall i :: 0 <= i < |f.blocks| ==> NewestOrSeen(f.blocks, i)
  {
    hide HasKey, HeaderError, FixtureTicks, BlockStateKey, Volume;
    DecodeFromInterned(locale, f.palette, f.blocks, keys, 0);
    FirstsAreTheKeys(keys);
    forall k | 0 <= k < |f.palette| ensures Used(f.blocks, k) {
      assert Firsts(keys)[k] in keys;
      var i :| 0 <= i < |keys| && keys[i] == Firsts(keys)[k];
      assert f.blocks[i] == k;
    }
    forall i | 0 <= i < |f.blocks| ensures NewestOrSeen(f.blocks, i) {
      InFirstOccurrenceOrder(locale, keys, f.palette, f.blocks, i);
    }
  }

  ghost predicate Used(blocks: seq<int>, entry: int) {
    exists i :: 0 <= i < |blocks| && blocks[i] == entry
  }

  /** Every entry before the one at `i` occurs before `i`. */
  ghost predicate NewestOrSeen(blocks: seq<int>, i: nat)
    requires i < |blocks|
  {
    forall entry :: 0 <= entry < blocks[i] ==> Used(blocks[..i], entry)
  }

  lemma InFirstOccurrenceOrder(locale: Locale, keys: seq<string>, palette: seq<State>, blocks: seq<int>, i: nat)
    requires Interned(locale, keys, palette, blocks) && i < |blocks|
    ensures NewestOrSeen(blocks, i)
  {
    hide BlockStateKey;
    FirstsAreTheKeys(keys);
    FirstsAreTheKeys(keys[..i]);
    FirstsOfPrefix(keys, i);
    FirstsOfPrefix(keys, i + 1);
    var before := Firsts(keys[..i]);
    assert keys[..i + 1][..i] == keys[..i];
    assert Firsts(keys[..i + 1]) == if keys[i] in before then before else before + [keys[i]];
    forall entry | 0 <= entry < blocks[i] ensures Used(blocks[..i], entry) {
      if keys[i] in before {
        var k :| 0 <= k < |before| && before[k] == keys[i];
        assert Firsts(keys)[k] == keys[i];
        assert k == blocks[i];
      } else {
        assert Firsts(keys)[..|before| + 1][|before|] == keys[i];
        assert blocks[i] == |before|;
      }
      assert entry < |before| && Firsts(keys)[entry] == before[entry];
      assert before[entry] in keys[..i];
      var j :| 0 <= j < i && keys[..i][j] == before[entry];
      assert blocks[j] == entry;
      assert blocks[..i][j] == entry;
    }
  }

  /** A block difference is the first one, reported at its position. */
  ghost predicate BlockDiffs(diffs: seq<Diff>, b: Bounds, expected: seq<string>, actual: seq<string>)
    requires |expected| == |actual|
  {
    if diffs == [] then expected == actual
    else |diffs| == 1 && exists i :: 0 <= i < |expected| && BlockDiffAt(diffs[0], b, expected, actual, i)
  }

  ghost predicate BlockDiffAt(diff: Diff, b: Bounds, expected: seq<string>, actual: seq<string>, i: nat)
    requires |expected| == |actual| && i < |expected|
  {
    && b.sizeX > 0 && b.sizeZ > 0
    && expected[..i] == actual[..i] && expected[i] != actual[i]
    && var p := PositionForIndex(b, i);
       diff == LiquidTicks.BlockMismatch(p.x, p.y, p.z, expected[i], actual[i])
  }

  method CompareBlocks(b: Bounds, expected: seq<string>, actual: seq<string>) returns (diffs: seq<Diff>)
    requires |expected| == |actual| == Volume(b)
    ensures BlockDiffs(diffs, b, expected, actual)
  {
    for i := 0 to |expected|
      invariant expected[..i] == actual[..i]
    {
      if expected[i] != actual[i] {
        IndexOfPosition(b, i);
        hide PositionForIndex, Volume;
        var p := PositionForIndex(b, i);
        diffs := [LiquidTicks.BlockMismatch(p.x, p.y, p.z, expected[i], actual[i])];
        assert BlockDiffAt(diffs[0], b, expected, actual, i);
        return;
      }
    }
    assert expected[..|expected|] == expected && actual[..|actual|] == actual;
    diffs := [];
  }

  method CompareLiquidRegion(
      locale: Locale, expected: Fixture, actual: Fixture)
    returns (r: Result<seq<Diff>, FixtureError>)
    ensures expected.bounds != actual.bounds ==> r == Success([LiquidTicks.BoundsMismatch])
    ensures expected.bounds == actual.bounds ==>
              var e, a := DecodeFixtureBlocks(locale, expected), DecodeFixtureBlocks(locale, actual);
              if e.Failure? then r == Failure(e.error)
              else if a.Failure? then r == Failure(a.error)
              else r.Success? && Compared(locale, expected, actual, e.value, a.value, r.value)
  {
    hide Volume, DecodeFixtureBlocks, BlockDiffs, Compared, LiquidTicks.Keys, LiquidTicks.NormalizeLiquidTicks,
      LiquidTicks.Reports;
    if expected.bounds != actual.bounds {
      return Success([LiquidTicks.BoundsMismatch]);
    }
    var expectedBlocks :- DecodeFixtureBlocks(locale, expected);
    var actualBlocks :- DecodeFixtureBlocks(locale, actual);
    DecodedVolume(locale, expected);
    DecodedVolume(locale, actual);
    if |expectedBlocks| != |actualBlocks| {
      return Success([LiquidTicks.PaletteMismatch]);
    }
    var blockDiffs := CompareBlocks(expected.bounds, expectedBlocks, actualBlocks);
    var tickDiffs := LiquidTicks.CompareLiquidTicks(locale, expected.liquidTicks, actual.liquidTicks);
    ComparedBoth(locale, expected, actual, expectedBlocks, actualBlocks, blockDiffs, tickDiffs);
    r := Success(blockDiffs + tickDiffs);
  }

  /** The block difference, if any, then the tick difference, if any. */
  ghost predicate Compared(
      locale: Locale, expected: Fixture, actual: Fixture, e: seq<string>, a: seq<string>, diffs: seq<Diff>)
  {
    |e| == |a| && exists blocks, ticks ::
      diffs == blocks + ticks && BlockDiffs(blocks, expected.bounds, e, a) && TickDiffs(locale, ticks, expected, actual)
  }

  ghost predicate TickDiffs(locale: Locale, diffs: seq<Diff>, expected: Fixture, actual: Fixture) {
    LiquidTicks.Reports(diffs,
                        LiquidTicks.Keys(LiquidTicks.NormalizeLiquidTicks(locale, expected.liquidTicks)),
                        LiquidTicks.Keys(LiquidTicks.NormalizeLiquidTicks(locale, actual.liquidTicks)))
  }

  lemma ComparedBoth(
      locale: Locale, expected: Fixture, actual: Fixture, e: seq<string>, a: seq<string>, blocks: seq<Diff>,
      ticks: seq<Diff>)
    requires |e| == |a| && BlockDiffs(blocks, expected.bounds, e, a)
    requires LiquidTicks.Reports(ticks,
                                 LiquidTicks.Keys(LiquidTicks.NormalizeLiquidTicks(locale, expected.liquidTicks)),
                                 LiquidTicks.Keys(LiquidTicks.NormalizeLiquidTicks(locale, actual.liquidTicks)))
    ensures Compared(locale, expected, actual, e, a, blocks + ticks)
  {
    hide BlockDiffs;
    assert TickDiffs(locale, ticks, expected, actual);
  }

  lemma DecodedVolume(locale: Locale, f: Fixture)
    ensures DecodeFixtureBlocks(locale, f).Success? ==> |DecodeFixtureBlocks(locale, f).value| == Volume(f.bounds)
  {
    DecodedLength(locale, f.palette, f.blocks, 0);
  }

  /** No two different ticks of the list tie, so that sorting it forgets its order. */
  ghost predicate TicksDoNotTie(locale: Locale, ticks: seq<Tick>) {
    NoTies(ticks, LiquidTicks.TickLeq(locale))
  }

  /** The lists hold the same ticks, those that tie in the same order. */
  ghost predicate SameTicks(locale: Locale, expected: seq<Tick>, actual: seq<Tick>) {
    SameTies(expected, actual, LiquidTicks.TickLeq(locale))
  }

  /**
   * Fixtures that decode show no difference exactly if they agree in their decoded blocks, whatever the palettes, and
   * in their ticks, whatever the order but for that of ties. Unless ticks tie, that is to hold the same ticks.
   */
  lemma NoDifferenceIff(
      locale: Locale, expected: Fixture, actual: Fixture, e: seq<string>, a: seq<string>, diffs: seq<Diff>)
    requires TotalPreorder(locale)
    requires expected.bounds == actual.bounds && Compared(locale, expected, actual, e, a, diffs)
    ensures diffs == [] <==> e == a && SameTicks(locale, expected.liquidTicks, actual.liquidTicks)
    ensures diffs == [] ==> e == a && multiset(expected.liquidTicks) == multiset(actual.liquidTicks)
    ensures TicksDoNotTie(locale, expected.liquidTicks) ==>
              (diffs == [] <==> e == a && multiset(expected.liquidTicks) == multiset(actual.liquidTicks))
  {
    LiquidTicks.TicksCompareByContentIff(locale, expected.liquidTicks);
    LiquidTicks.TicksCompareIff(locale, expected.liquidTicks, actual.liquidTicks);
    var blocks, ticks :| && diffs == blocks + ticks
                         && BlockDiffs(blocks, expected.bounds, e, a) && TickDiffs(locale, ticks, expected, actual);
    if ticks == [] {
      LiquidTicks.NoDiffMeansSameTicks(locale, expected.liquidTicks, actual.liquidTicks);
    }
    hide LiquidTicks.NormalizeLiquidTicks, LiquidTicks.Keys, NoTies, SameTies;
    assert blocks == [] <==> e == a;
    assert ticks == [] <==> LiquidTicks.NoTickDiff(locale, expected.liquidTicks, actual.liquidTicks);
  }

  /**
   * Two worlds, from any chunks: their fixtures over the same scenario show no difference exactly if each block in the
   * bounds has the same key in both and the same ticks are in or near the bounds, listed in the same order if they tie.
   */
  lemma FixturesCompareWorlds(
      locale: Locale, s: Scenario, chunks: seq<Chunk>, ticks: seq<seq<Tick>>, f: Fixture, keys: seq<string>,
      others: seq<Chunk>, otherTicks: seq<seq<Tick>>, g: Fixture, otherKeys: seq<string>, diffs: seq<Diff>)
    requires TotalPreorder(locale)
    requires Represents(locale, s, chunks, ticks, f, keys) && Represents(locale, s, others, otherTicks, g, otherKeys)
    requires Compared(locale, f, g, keys, otherKeys, diffs)
    ensures diffs == [] <==>
              && SameBlocks(locale, s, chunks, others)
              && SameTicks(locale, Filter(Flat(ticks), TicksIn(s)), Filter(Flat(otherTicks), TicksIn(s)))
    ensures diffs == [] ==> SameWorld(locale, s, chunks, ticks, others, otherTicks)
    ensures TicksDoNotTie(locale, f.liquidTicks) ==>
              (diffs == [] <==> SameWorld(locale, s, chunks, ticks, others, otherTicks))
  {
    NoDifferenceIff(locale, f, g, keys, otherKeys, diffs);
    LiquidTicks.TickLeqIsTotalPreorder(locale);
    SortKeepsTies(Filter(Flat(ticks), TicksIn(s)), Filter(Flat(otherTicks), TicksIn(s)), LiquidTicks.TickLeq(locale));
    hide Compared, SameTies, WorldKeys, Interned, NoTies;
    SortIsPermutation(Filter(Flat(ticks), TicksIn(s)), LiquidTicks.TickLeq(locale));
    SortIsPermutation(Filter(Flat(otherTicks), TicksIn(s)), LiquidTicks.TickLeq(locale));
    SameKeys(locale, s.bounds, chunks, keys, others, otherKeys);
  }

  ghost predicate SameWorld(
      locale: Locale, s: Scenario, chunks: seq<Chunk>, ticks: seq<seq<Tick>>, others: seq<Chunk>,
      otherTicks: seq<seq<Tick>>)
  {
    && SameBlocks(locale, s, chunks, others)
    && multiset(Filter(Flat(ticks), TicksIn(s))) == multiset(Filter(Flat(otherTicks), TicksIn(s)))
  }

  ghost predicate SameBlocks(locale: Locale, s: Scenario, chunks: seq<Chunk>, others: seq<Chunk>) {
    forall i :: 0 <= i < Volume(s.bounds) ==> SameBlock(locale, chunks, others, s.bounds, i)
  }

  ghost predicate SameBlock(locale: Locale, chunks: seq<Chunk>, others: seq<Chunk>, b: Bounds, i: nat) {
    exists key :: HasKey(locale, chunks, b, i, key) && HasKey(locale, others, b, i, key)
  }

  lemma SameKeys(
      locale: Locale, b: Bounds, chunks: seq<Chunk>, keys: seq<string>, others: seq<Chunk>, otherKeys: seq<string>)
    requires |keys| == |otherKeys| == Volume(b)
    requires WorldKeys(locale, chunks, b, keys) && WorldKeys(locale, others, b, otherKeys)
    ensures keys == otherKeys <==> forall i :: 0 <= i < Volume(b) ==> SameBlock(locale, chunks, others, b, i)
  {
    hide Volume;
    forall i | 0 <= i < |keys| ensures SameBlock(locale, chunks, others, b, i) <==> keys[i] == otherKeys[i] {
      hide KeyAt;
      assert HasKey(locale, chunks, b, i, keys[i]) && HasKey(locale, others, b, i, otherKeys[i]);
    }
  }
}
