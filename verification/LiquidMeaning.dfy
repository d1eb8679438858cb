/** What fixtures and their comparison say of block states, for states whose names and properties are plain. */
module LiquidMeaning {
  import opened Outcomes
  import opened Sorting
  import opened LiquidWorld
  import opened StateKeys
  import opened LiquidFixture
  import LiquidTicks

  // ---------------------------------------------------------------------------------------------
  // Fixtures
  // ---------------------------------------------------------------------------------------------

  ghost function PaletteStates(f: Fixture): iset<State> {
    iset s | s in f.palette
  }

  /** The state of the fixture at an index. */
  ghost predicate HoldsState(f: Fixture, i: nat, s: State) {
    i < |f.blocks| && 0 <= f.blocks[i] < |f.palette| && s == f.palette[f.blocks[i]]
  }

  lemma {:induction false} DecodedKeys(
      locale: Locale, palette: seq<State>, blocks: seq<int>, at: nat, keys: seq<string>)
    requires at <= |blocks| && DecodeFrom(locale, palette, blocks, at) == Success(keys)
    ensures |keys| == |blocks| - at
    ensures forall i :: at <= i < |blocks| ==>
              0 <= blocks[i] < |palette| && keys[i - at] == BlockStateKey(locale, palette[blocks[i]])
    decreases |blocks| - at
  {
    hide BlockStateKey;
    if at < |blocks| {
      DecodedKeys(locale, palette, blocks, at + 1, keys[1..]);
    }
  }

  lemma DecodedStates(locale: Locale, f: Fixture, keys: seq<string>)
    requires DecodeFixtureBlocks(locale, f) == Success(keys)
    ensures |keys| == |f.blocks| == Volume(f.bounds)
    ensures forall i :: 0 <= i < |keys| ==>
              0 <= f.blocks[i] < |f.palette| && keys[i] == BlockStateKey(locale, f.palette[f.blocks[i]])
  {
    DecodedKeys(locale, f.palette, f.blocks, 0, keys);
  }

  /** Both fixtures hold the same state at each index. */
  ghost predicate SameStates(f: Fixture, g: Fixture) {
    && |f.blocks| == |g.blocks|
    && forall i, s, t :: HoldsState(f, i, s) && HoldsState(g, i, t) ==> SameState(s, t)
  }

  /** Fixtures that decode show no difference exactly if they hold the same states and the same ticks. */
  lemma NoDifferenceByState(
      locale: Locale, expected: Fixture, actual: Fixture, e: seq<string>, a: seq<string>, diffs: seq<Diff>)
    requires TotalPreorder(locale) && expected.bounds == actual.bounds
    requires DecodeFixtureBlocks(locale, expected) == Success(e) && DecodeFixtureBlocks(locale, actual) == Success(a)
    requires Compared(locale, expected, actual, e, a, diffs)
    requires PlainStates(locale, PaletteStates(expected) + PaletteStates(actual))
    ensures diffs == [] <==> SameStates(expected, actual) && SameTicks(locale, expected.liquidTicks, actual.liquidTicks)
  {
    NoDifferenceIff(locale, expected, actual, e, a, diffs);
    DecodedStates(locale, expected, e);
    DecodedStates(locale, actual, a);
    hide Compared, DecodeFixtureBlocks, SameTicks, BlockStateKey, SameState, PlainState, NamesApart;
    forall i | 0 <= i < |e|
      ensures e[i] == a[i] <==> SameState(expected.palette[expected.blocks[i]], actual.palette[actual.blocks[i]])
    {
      var s, t := expected.palette[expected.blocks[i]], actual.palette[actual.blocks[i]];
      assert s in PaletteStates(expected) && t in PaletteStates(actual);
      KeyIff(locale, s, t);
    }
    if SameStates(expected, actual) {
      forall i | 0 <= i < |e| ensures e[i] == a[i] {
        assert HoldsState(expected, i, expected.palette[expected.blocks[i]]);
        assert HoldsState(actual, i, actual.palette[actual.blocks[i]]);
      }
    }
  }

  // ---------------------------------------------------------------------------------------------
  // Worlds
  // ---------------------------------------------------------------------------------------------

  /** Every state some section lists, and air. */
  ghost function WorldStates(chunks: seq<Chunk>): iset<State> {
    iset s | Listed(chunks, s)
  }

  ghost predicate Listed(chunks: seq<Chunk>, s: State) {
    s == AIR || exists c :: c in chunks && Lists(c, s)
  }

  ghost predicate Lists(chunk: Chunk, s: State) {
    exists k :: k in chunk.sections && s in k.palette
  }

  lemma {:induction false} ChunkIsListed(chunks: seq<Chunk>, x: int, z: int)
    ensures ChunkAt(chunks, x, z).Some? ==> ChunkAt(chunks, x, z).value in chunks
    decreases |chunks|
  {
    if chunks != [] {
      ChunkIsListed(chunks[..|chunks| - 1], x, z);
    }
  }

  lemma {:induction false} SectionIsListed(sections: seq<Section>, y: int)
    ensures SectionAt(sections, y).Some? ==> SectionAt(sections, y).value in sections
  {
    if sections != [] {
      SectionIsListed(sections[1..], y);
    }
  }

  /** A block is a copy of a state listed in the world. */
  lemma BlockIsListed(locale: Locale, chunks: seq<Chunk>, x: int, y: int, z: int) returns (s: State)
    requires StateAt(locale, chunks, x, y, z).Success?
    ensures s in WorldStates(chunks) && StateAt(locale, chunks, x, y, z).value == CloneBlockStateEntry(locale, s)
  {
    ChunkIsListed(chunks, x / 16, z / 16);
    var chunk := ChunkAt(chunks, x / 16, z / 16).value;
    SectionIsListed(chunk.sections, y / 16);
    var section := SectionAt(chunk.sections, y / 16);
    if section.None? {
      s := AIR;
    } else {
      s := section.value.palette[section.value.blocks[(y % 16) * 256 + (z % 16) * 16 + x % 16]];
      assert section.value in chunk.sections && s in section.value.palette;
      assert chunk in chunks && Lists(chunk, s);
    }
  }

  /** The two worlds have the same state at a position. */
  ghost predicate AgreeAt(locale: Locale, chunks: seq<Chunk>, others: seq<Chunk>, x: int, y: int, z: int) {
    var s, t := StateAt(locale, chunks, x, y, z), StateAt(locale, others, x, y, z);
    s.Success? && t.Success? && SameState(s.value, t.value)
  }

  ghost predicate WorldsAgree(locale: Locale, b: Bounds, chunks: seq<Chunk>, others: seq<Chunk>) {
    forall x, y, z :: InBounds(b, Position(x, y, z)) ==> AgreeAt(locale, chunks, others, x, y, z)
  }

  lemma CopiesAgree(locale: Locale, s: State, t: State)
    requires TotalPreorder(locale) && PlainState(s) && PlainState(t) && NamesApart(locale, s, t)
    ensures var a, b := CloneBlockStateEntry(locale, s), CloneBlockStateEntry(locale, t);
            BlockStateKey(locale, a) == BlockStateKey(locale, b) <==> SameState(a, b)
  {
    CopiesKeyIff(locale, s, t);
    CloneIsSame(locale, s);
    CloneIsSame(locale, t);
    hide BlockStateKey, CloneBlockStateEntry, PlainState, NamesApart, HasProperty;
  }

  lemma KeysAgreeIff(
      locale: Locale, b: Bounds, chunks: seq<Chunk>, others: seq<Chunk>, i: nat, key: string, other: string)
    requires TotalPreorder(locale) && PlainStates(locale, WorldStates(chunks) + WorldStates(others))
    requires HasKey(locale, chunks, b, i, key) && HasKey(locale, others, b, i, other)
    ensures var p := PositionForIndex(b, i); key == other <==> AgreeAt(locale, chunks, others, p.x, p.y, p.z)
  {
    var p := PositionForIndex(b, i);
    var s := BlockIsListed(locale, chunks, p.x, p.y, p.z);
    var t := BlockIsListed(locale, others, p.x, p.y, p.z);
    hide StateAt, WorldStates, BlockStateKey, CloneBlockStateEntry, PlainState, NamesApart, SameState, PositionForIndex;
    CopiesAgree(locale, s, t);
  }

  /**
   * Fixtures of two worlds over one scenario show no difference exactly if the worlds have the same state, name and
   * properties, at each position of the bounds, and the same ticks in and near them.
   */
  lemma WorldsCompareByState(
      locale: Locale, s: Scenario, chunks: seq<Chunk>, ticks: seq<seq<Tick>>, f: Fixture, keys: seq<string>,
      others: seq<Chunk>, otherTicks: seq<seq<Tick>>, g: Fixture, otherKeys: seq<string>, diffs: seq<Diff>)
    requires TotalPreorder(locale) && PlainStates(locale, WorldStates(chunks) + WorldStates(others))
    requires Represents(locale, s, chunks, ticks, f, keys) && Represents(locale, s, others, otherTicks, g, otherKeys)
    requires Compared(locale, f, g, keys, otherKeys, diffs)
    ensures diffs == [] <==>
              && WorldsAgree(locale, s.bounds, chunks, others)
              && SameTicks(locale, Filter(Flat(ticks), TicksIn(s)), Filter(Flat(otherTicks), TicksIn(s)))
  {
    FixturesCompareWorlds(locale, s, chunks, ticks, f, keys, others, otherTicks, g, otherKeys, diffs);
    SameKeys(locale, s.bounds, chunks, keys, others, otherKeys);
    assert |keys| == |otherKeys| == Volume(s.bounds);
    assert WorldKeys(locale, chunks, s.bounds, keys) && WorldKeys(locale, others, s.bounds, otherKeys);
    hide Represents, Compared, PlainStates, SameTicks, Volume;
    WorldsAgreeIff(locale, s.bounds, chunks, keys, others, otherKeys);
  }

  lemma WorldsAgreeIff(
      locale: Locale, b: Bounds, chunks: seq<Chunk>, keys: seq<string>, others: seq<Chunk>, otherKeys: seq<string>)
    requires TotalPreorder(locale) && PlainStates(locale, WorldStates(chunks) + WorldStates(others))
    requires |keys| == |otherKeys| == Volume(b)
    requires WorldKeys(locale, chunks, b, keys) && WorldKeys(locale, others, b, otherKeys)
    ensures WorldsAgree(locale, b, chunks, others) <==> keys == otherKeys
  {
    hide PlainStates, AgreeAt, HasKey, Volume, IndexOf, InBounds, PositionForIndex;
    forall i | 0 <= i < |keys|
      ensures b.sizeX > 0 && b.sizeZ > 0 && 0 <= i
      ensures b.sizeX > 0 && b.sizeZ > 0 ==>
              var p := PositionForIndex(b, i);
              InBounds(b, p) && (keys[i] == otherKeys[i] <==> AgreeAt(locale, chunks, others, p.x, p.y, p.z))
    {
      IndexOfPosition(b, i);
      assert HasKey(locale, chunks, b, i, keys[i]) && HasKey(locale, others, b, i, otherKeys[i]);
      KeysAgreeIff(locale, b, chunks, others, i, keys[i], otherKeys[i]);
    }
    if WorldsAgree(locale, b, chunks, others) {
      forall i | 0 <= i < |keys| ensures keys[i] == otherKeys[i] {
        IndexOfPosition(b, i);
        var p := PositionForIndex(b, i);
        assert p == Position(p.x, p.y, p.z);
      }
    }
    if keys == otherKeys {
      forall x, y, z | InBounds(b, Position(x, y, z)) ensures AgreeAt(locale, chunks, others, x, y, z) {
        var i := IndexIn(b, Position(x, y, z));
        assert keys[i] == otherKeys[i];
      }
    }
  }

  lemma IndexIn(b: Bounds, p: Position) returns (i: nat)
    requires InBounds(b, p)
    ensures b.sizeX > 0 && b.sizeZ > 0 && i < Volume(b) && PositionForIndex(b, i) == p
  {
    PositionOfIndex(b, p.x - b.minX, p.y - b.minY, p.z - b.minZ);
    i := IndexOf(b, p.x - b.minX, p.y - b.minY, p.z - b.minZ);
  }

  /** A fixture holds the state of the world at each position, and each state of its palette once. */
  lemma FixtureHoldsStates(
      locale: Locale, s: Scenario, chunks: seq<Chunk>, ticks: seq<seq<Tick>>, f: Fixture, keys: seq<string>)
    requires TotalPreorder(locale) && Represents(locale, s, chunks, ticks, f, keys)
    requires PlainStates(locale, WorldStates(chunks) + PaletteStates(f))
    ensures forall j, k :: 0 <= j < k < |f.palette| ==> !SameState(f.palette[j], f.palette[k])
    ensures forall i :: 0 <= i < |f.blocks| ==> StateHeld(locale, chunks, f, i)
  {
    FixtureRepresentsTheWorld(locale, s, chunks, ticks, f, keys);
    DecodedStates(locale, f, keys);
    hide Represents, DecodeFixtureBlocks, BlockStateKey, SameState, PlainState, NamesApart, Used, NewestOrSeen;
    forall j, k | 0 <= j < k < |f.palette| ensures !SameState(f.palette[j], f.palette[k]) {
      assert f.palette[j] in PaletteStates(f) && f.palette[k] in PaletteStates(f);
      KeyIff(locale, f.palette[j], f.palette[k]);
    }
    forall i | 0 <= i < |f.blocks| ensures StateHeld(locale, chunks, f, i) {
      HeldIsTheWorlds(locale, chunks, f, i, keys[i]);
    }
  }

  /** The fixture's state at an index is the world's at its position. */
  ghost predicate StateHeld(locale: Locale, chunks: seq<Chunk>, f: Fixture, i: nat) {
    && f.bounds.sizeX > 0 && f.bounds.sizeZ > 0 && i < |f.blocks| && 0 <= f.blocks[i] < |f.palette|
    && var p := PositionForIndex(f.bounds, i);
       var found := StateAt(locale, chunks, p.x, p.y, p.z);
       found.Success? && SameState(f.palette[f.blocks[i]], found.value)
  }

  lemma HeldIsTheWorlds(locale: Locale, chunks: seq<Chunk>, f: Fixture, i: nat, key: string)
    requires TotalPreorder(locale) && PlainStates(locale, WorldStates(chunks) + PaletteStates(f))
    requires HasKey(locale, chunks, f.bounds, i, key) && i < |f.blocks| && 0 <= f.blocks[i] < |f.palette|
    requires key == BlockStateKey(locale, f.palette[f.blocks[i]])
    ensures StateHeld(locale, chunks, f, i)
  {
    var p, held := PositionForIndex(f.bounds, i), f.palette[f.blocks[i]];
    var s := BlockIsListed(locale, chunks, p.x, p.y, p.z);
    assert held in PaletteStates(f);
    hide StateAt, WorldStates, BlockStateKey, CloneBlockStateEntry, PlainState, NamesApart, HasProperty,
      PositionForIndex;
    CloneKeepsKey(locale, s);
    KeyIff(locale, held, s);
    CloneIsSame(locale, s);
  }
}
