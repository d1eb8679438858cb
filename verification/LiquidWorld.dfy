/** Blocks of decoded chunks by world position, and the keys that tell block states apart. */
module LiquidWorld {
  import opened Numbers
  import opened Outcomes
  import opened Sorting
  import opened Decimals
  import Words

  type Property = (string, string)

  datatype State = State(name: string, properties: Option<seq<Property>>)

  const AIR := State("minecraft:air", None)

  datatype Section = Section(y: int, palette: seq<State>, blocks: seq<int>)
  datatype Chunk = Chunk(dataVersion: int, x: int, z: int, status: string, sections: seq<Section>)

  datatype FixtureError =
    | NoChunks
    | MixedDataVersions(chunkX: int, chunkZ: int)
    | NotFull(chunkX: int, chunkZ: int)
    | MissingChunk(chunkX: int, chunkZ: int, x: int, y: int, z: int)
    | WrongSectionSize(chunkX: int, chunkZ: int, sectionY: int)
    | SectionPaletteOutOfRange(chunkX: int, chunkZ: int, sectionY: int)
    | WrongBlockCount
    | PaletteOutOfRange(block: nat)

  // ---------------------------------------------------------------------------------------------
  // Block state keys
  // ---------------------------------------------------------------------------------------------

  function ByName(locale: (string, string) -> bool): (Property, Property) -> bool {
    (p: Property, q: Property) => locale(p.0, q.0)
  }

  function Entries(state: State): seq<Property> {
    if state.properties.Some? then state.properties.value else []
  }

  function Joined(properties: seq<Property>): string {
    if properties == [] then []
    else
      var first := properties[0].0 + "=" + properties[0].1;
      if |properties| == 1 then first else first + "," + Joined(properties[1..])
  }

  function BlockStateKey(locale: (string, string) -> bool, state: State): string {
    var properties := Sort(Entries(state), ByName(locale));
    if properties == [] then state.name else state.name + "[" + Joined(properties) + "]"
  }

  /** A copy, with its properties in the collation order of their names. */
  function CloneBlockStateEntry(locale: (string, string) -> bool, state: State): State {
    if state.properties.None? then State(state.name, None)
    else State(state.name, Some(Sort(state.properties.value, ByName(locale))))
  }

  lemma ByNameIsTotalPreorder(locale: (string, string) -> bool)
    requires TotalPreorder(locale)
    ensures TotalPreorder(ByName(locale))
  {
    var leq := ByName(locale);
    forall p, q, r | leq(p, q) && leq(q, r) ensures leq(p, r) {
      assert locale(p.0, q.0) && locale(q.0, r.0);
    }
    forall p, q ensures leq(p, q) || leq(q, p) {
      assert locale(p.0, q.0) || locale(q.0, p.0);
    }
  }

  /** Copying a state keeps its key. */
  lemma CloneKeepsKey(locale: (string, string) -> bool, state: State)
    requires TotalPreorder(locale)
    ensures BlockStateKey(locale, CloneBlockStateEntry(locale, state)) == BlockStateKey(locale, state)
  {
    ByNameIsTotalPreorder(locale);
    SortIsSorted(Entries(state), ByName(locale));
    SortOfSorted(Sort(Entries(state), ByName(locale)), ByName(locale));
  }

  // ---------------------------------------------------------------------------------------------
  // Block states by position
  // ---------------------------------------------------------------------------------------------

  /** The chunk last listed at a place. */
  function ChunkAt(chunks: seq<Chunk>, x: int, z: int): Option<Chunk> {
    if chunks == [] then None
    else
      var last := chunks[|chunks| - 1];
      if last.x == x && last.z == z then Some(last) else ChunkAt(chunks[..|chunks| - 1], x, z)
  }

  /** The section first listed at a height. */
  function SectionAt(sections: seq<Section>, y: int): Option<Section> {
    if sections == [] then None
    else if sections[0].y == y then Some(sections[0])
    else SectionAt(sections[1..], y)
  }

  ghost predicate LastListed(chunks: seq<Chunk>, i: int, x: int, z: int) {
    && 0 <= i < |chunks| && chunks[i].x == x && chunks[i].z == z
    && forall j :: i < j < |chunks| ==> chunks[j].x != x || chunks[j].z != z
  }

  ghost predicate FirstListed(sections: seq<Section>, i: int, y: int) {
    0 <= i < |sections| && sections[i].y == y && forall j :: 0 <= j < i ==> sections[j].y != y
  }

  /** Of several chunks at one place the last listed counts, and none is found if none is at the place. */
  lemma {:induction false} ChunkAtIsLast(chunks: seq<Chunk>, x: int, z: int)
    ensures ChunkAt(chunks, x, z).Some? <==> exists c :: c in chunks && c.x == x && c.z == z
    ensures forall i :: LastListed(chunks, i, x, z) ==> ChunkAt(chunks, x, z) == Some(chunks[i])
    decreases |chunks|
  {
    if chunks != [] {
      var n := |chunks| - 1;
      ChunkAtIsLast(chunks[..n], x, z);
      assert chunks == chunks[..n] + [chunks[n]];
      forall i | LastListed(chunks, i, x, z) ensures ChunkAt(chunks, x, z) == Some(chunks[i]) {
        assert i < n ==> LastListed(chunks[..n], i, x, z);
      }
    }
  }

  /** Of several sections at one height the first listed counts. */
  lemma {:induction false} SectionAtIsFirst(sections: seq<Section>, y: int)
    ensures SectionAt(sections, y).Some? <==> exists k :: k in sections && k.y == y
    ensures forall i :: FirstListed(sections, i, y) ==> SectionAt(sections, y) == Some(sections[i])
  {
    if sections != [] {
      SectionAtIsFirst(sections[1..], y);
      assert sections == [sections[0]] + sections[1..];
      forall i | FirstListed(sections, i, y) ensures SectionAt(sections, y) == Some(sections[i]) {
        assert i > 0 ==> FirstListed(sections[1..], i - 1, y);
      }
    }
  }

  const BLOCKS_PER_SECTION: nat := 4096

  function BlockIn(
      locale: (string, string) -> bool, chunk: Chunk, x: int, y: int, z: int): Result<State, FixtureError>
  {
    var section := SectionAt(chunk.sections, y / 16);
    if section.None? then Success(AIR)
    else if |section.value.blocks| != BLOCKS_PER_SECTION then Failure(WrongSectionSize(chunk.x, chunk.z, y / 16))
    else
      var index := (y % 16) * 256 + (z % 16) * 16 + x % 16;
      var paletteIndex := section.value.blocks[index];
      if !(0 <= paletteIndex < |section.value.palette|) then Failure(SectionPaletteOutOfRange(chunk.x, chunk.z, y / 16))
      else Success(CloneBlockStateEntry(locale, section.value.palette[paletteIndex]))
  }

  function GetBlockState(
      locale: (string, string) -> bool, chunk: Option<Chunk>, x: int, y: int, z: int): Result<State, FixtureError>
  {
    if chunk.None? then Failure(MissingChunk(x / 16, z / 16, x, y, z)) else BlockIn(locale, chunk.value, x, y, z)
  }

  function StateAt(
      locale: (string, string) -> bool, chunks: seq<Chunk>, x: int, y: int, z: int): Result<State, FixtureError>
  {
    GetBlockState(locale, ChunkAt(chunks, x / 16, z / 16), x, y, z)
  }

  /**
   * Chunks tile the world, on both sides of zero: the block at a local position of a section of a chunk is the one
   * found at sixteen times the chunk's and the section's coordinates plus the local ones.
   */
  lemma SectionsTileTheWorld(
      locale: (string, string) -> bool, chunks: seq<Chunk>, chunkX: int, chunkZ: int, sectionY: int, x: nat, y: nat,
      z: nat)
    requires x < 16 && y < 16 && z < 16
    requires ChunkAt(chunks, chunkX, chunkZ).Some?
    ensures var section := SectionAt(ChunkAt(chunks, chunkX, chunkZ).value.sections, sectionY);
            var found := StateAt(locale, chunks, 16 * chunkX + x, 16 * sectionY + y, 16 * chunkZ + z);
            && (section.None? ==> found == Success(State("minecraft:air", None)))
            && (section.Some? && |section.value.blocks| == 4096 ==>
                  var entry := section.value.blocks[(y * 16 + z) * 16 + x];
                  if 0 <= entry < |section.value.palette|
                  then found == Success(CloneBlockStateEntry(locale, section.value.palette[entry]))
                  else found.Failure?)
  {
    assert (16 * chunkX + x) / 16 == chunkX && (16 * sectionY + y) / 16 == sectionY && (16 * chunkZ + z) / 16 == chunkZ;
    assert (16 * chunkX + x) % 16 == x && (16 * sectionY + y) % 16 == y && (16 * chunkZ + z) % 16 == z;
  }

  // ---------------------------------------------------------------------------------------------
  // Bounds
  // ---------------------------------------------------------------------------------------------

  datatype Bounds = Bounds(minX: int, minY: int, minZ: int, sizeX: nat, sizeY: nat, sizeZ: nat)
  datatype Position = Position(x: int, y: int, z: int)

  function Volume(b: Bounds): nat {
    Product(Product(b.sizeX, b.sizeY), b.sizeZ)
  }

  function PositionForIndex(b: Bounds, index: nat): Position
    requires b.sizeX > 0 && b.sizeZ > 0
  {
    PositiveProduct(b.sizeX, b.sizeZ);
    Position(b.minX + index % b.sizeX, b.minY + index / (b.sizeX * b.sizeZ), b.minZ + index / b.sizeX % b.sizeZ)
  }

  /** By layer, then row, then column. */
  function IndexOf(b: Bounds, x: int, y: int, z: int): int {
    (y * b.sizeZ + z) * b.sizeX + x
  }

  predicate InBounds(b: Bounds, p: Position) {
    && b.minX <= p.x < b.minX + b.sizeX
    && b.minY <= p.y < b.minY + b.sizeY
    && b.minZ <= p.z < b.minZ + b.sizeZ
  }

  lemma PositiveProduct(m: nat, n: nat)
    ensures m > 0 && n > 0 ==> m * n > 0
  {
  }

  lemma Below(q: nat, n: nat, m: nat, r: nat)
    requires q < n && r < m
    ensures 0 <= q * m + r < n * m
  {
    assert n * m == q * m + (n - q) * m;
    assert (n - q) * m >= m by { Grows(n - q, m); }
  }

  lemma Grows(k: nat, m: nat)
    requires k >= 1
    ensures k * m >= m
  {
    assert k * m == (k - 1) * m + m;
    assert (k - 1) * m >= 0;
  }

  /** The index of each place in the bounds leads back to it. */
  lemma PositionOfIndex(b: Bounds, x: nat, y: nat, z: nat)
    requires x < b.sizeX && y < b.sizeY && z < b.sizeZ
    ensures 0 <= IndexOf(b, x, y, z) < Volume(b)
    ensures PositionForIndex(b, IndexOf(b, x, y, z)) == Position(b.minX + x, b.minY + y, b.minZ + z)
  {
    var row, index := y * b.sizeZ + z, IndexOf(b, x, y, z);
    Below(y, b.sizeY, b.sizeZ, z);
    Below(row, b.sizeY * b.sizeZ, b.sizeX, x);
    assert Volume(b) == b.sizeY * b.sizeZ * b.sizeX by { Reordered(b.sizeX, b.sizeY, b.sizeZ); }
    Words.DivideUnique(index, row, b.sizeX, x);
    Words.DivideUnique(row, y, b.sizeZ, z);
    Below(z, b.sizeZ, b.sizeX, x);
    Regrouped(b, x, y, z);
    PositiveProduct(b.sizeX, b.sizeZ);
    Words.DivideUnique(index, y, b.sizeX * b.sizeZ, z * b.sizeX + x);
  }

  lemma Reordered(l: nat, m: nat, n: nat)
    ensures Product(Product(l, m), n) == m * n * l
  {
    assert l * m * n == l * (m * n);
  }

  lemma Regrouped(b: Bounds, x: nat, y: nat, z: nat)
    ensures IndexOf(b, x, y, z) == y * (b.sizeX * b.sizeZ) + (z * b.sizeX + x)
    ensures z * b.sizeX + x < b.sizeZ * b.sizeX ==> z * b.sizeX + x < b.sizeX * b.sizeZ
  {
    assert (y * b.sizeZ + z) * b.sizeX == y * b.sizeZ * b.sizeX + z * b.sizeX;
    assert y * b.sizeZ * b.sizeX == y * (b.sizeX * b.sizeZ);
  }

  /** Indices go by layer, then by z, then by x. */
  lemma IndicesGoByLayer(b: Bounds, p: Position, q: Position)
    requires InBounds(b, p) && InBounds(b, q)
    ensures IndexOf(b, p.x - b.minX, p.y - b.minY, p.z - b.minZ) < IndexOf(b, q.x - b.minX, q.y - b.minY, q.z - b.minZ)
            <==> p.y < q.y || (p.y == q.y && (p.z < q.z || (p.z == q.z && p.x < q.x)))
  {
    var x, y, z, u, v, w := p.x - b.minX, p.y - b.minY, p.z - b.minZ, q.x - b.minX, q.y - b.minY, q.z - b.minZ;
    DigitsInOrder(y, z, v, w, b.sizeZ);
    DigitsInOrder(y * b.sizeZ + z, x, v * b.sizeZ + w, u, b.sizeX);
  }

  lemma DigitsInOrder(a: int, b: nat, c: int, d: nat, m: nat)
    requires b < m && d < m
    ensures a * m + b < c * m + d <==> a < c || (a == c && b < d)
    ensures a * m + b == c * m + d <==> a == c && b == d
  {
    if a < c {
      assert c * m == a * m + (c - a) * m;
      Grows(c - a, m);
    } else if c < a {
      assert a * m == c * m + (a - c) * m;
      Grows(a - c, m);
    }
  }

  /** Every index below the volume names a place in the bounds, and the index of that place is the one given. */
  lemma IndexOfPosition(b: Bounds, index: nat)
    requires index < Volume(b)
    ensures b.sizeX > 0 && b.sizeZ > 0
    ensures var p := PositionForIndex(b, index);
            InBounds(b, p)
            && IndexOf(b, p.x - b.minX, p.y - b.minY, p.z - b.minZ) == index
  {
    var x, y, z := Coordinates(b, index);
    PositionOfIndex(b, x, y, z);
    hide IndexOf, Volume, PositionForIndex;
  }

  lemma Coordinates(b: Bounds, index: nat) returns (x: nat, y: nat, z: nat)
    requires index < Volume(b)
    ensures x < b.sizeX && y < b.sizeY && z < b.sizeZ && IndexOf(b, x, y, z) == index
  {
    ZeroSides(b);
    Reordered(b.sizeX, b.sizeY, b.sizeZ);
    var row := Quotient(index, b.sizeX);
    x := index - row * b.sizeX;
    NotBeyond(row, b.sizeY * b.sizeZ, b.sizeX, x, index);
    y := Quotient(row, b.sizeZ);
    z := row - y * b.sizeZ;
    NotBeyond(y, b.sizeY, b.sizeZ, z, row);
  }

  lemma Quotient(n: nat, m: nat) returns (q: nat)
    requires m > 0
    ensures q * m <= n < q * m + m
  {
    q := n / m;
    assert n == q * m + n % m;
  }

  lemma ZeroSides(b: Bounds)
    ensures Volume(b) > 0 ==> b.sizeX > 0 && b.sizeY > 0 && b.sizeZ > 0
  {
  }

  lemma Beyond(q: nat, n: nat, m: nat)
    requires q >= n
    ensures q * m >= n * m
  {
    assert q * m == n * m + (q - n) * m;
  }

  lemma NotBeyond(q: nat, n: nat, m: nat, r: nat, total: nat)
    requires total == q * m + r
    ensures total < n * m ==> q < n
  {
    if q >= n {
      Beyond(q, n, m);
    }
  }
}
