/**
 * Scripts of the structure builder: a script is what one build callback does; `Attempt` is a callback that catches what
 * its calls throw. A script writes boxes of blocks, markers and sockets under the components around each call.
 */
module StructureScripts {
  import opened Outcomes
  import opened Sorting
  import opened StructureModel

  datatype Call =
    | SetBlock(pos: Int3, palette: string)
    | FillBox(min: Int3, maxExclusive: Int3, palette: string)
    | LineX(minX: int, maxXExclusive: int, y: int, z: int, palette: string)
    | LineY(x: int, minY: int, maxYExclusive: int, z: int, palette: string)
    | LineZ(x: int, y: int, minZ: int, maxZExclusive: int, palette: string)
    | PlaceMarker(kind: string, pos: Int3)
    | PlaceSocket(id: string, kind: string, pos: Int3, facing: string)
    | Component(id: string, body: seq<Call>)
    | Attempt(body: seq<Call>)

  // ---------------------------------------------------------------------------------------------
  // What a script means: the boxes it writes, with the components that enclose each call
  // ---------------------------------------------------------------------------------------------

  /** A box of one palette key, under the components around the call in sorted order. */
  datatype Write = Write(min: Int3, maxExclusive: Int3, palette: string, components: seq<string>)

  datatype Trace = Trace(writes: seq<Write>, markers: seq<Marker>, sockets: seq<Socket>, error: Option<StructureError>)

  const NOTHING := Trace([], [], [], None)

  function Thrown(error: StructureError): Trace {
    Trace([], [], [], Some(error))
  }

  function SocketIds(sockets: seq<Socket>): set<string> {
    set k | k in sockets :: k.id
  }

  function Then(first: Trace, second: Trace): Trace {
    Trace(first.writes + second.writes, first.markers + second.markers, first.sockets + second.sockets, second.error)
  }

  function Corner(maxExclusive: Int3): Int3 {
    Int3(maxExclusive.x - 1, maxExclusive.y - 1, maxExclusive.z - 1)
  }

  function BoxError(s: Spec, min: Int3, maxExclusive: Int3, palette: string): Option<StructureError> {
    if !SafePosition(min) || !SafePosition(maxExclusive) then Some(UnsafeInteger)
    else if min.x >= maxExclusive.x || min.y >= maxExclusive.y || min.z >= maxExclusive.z then Some(EmptyBox)
    else if PositionError(min, s.size).Some? then PositionError(min, s.size)
    else if PositionError(Corner(maxExclusive), s.size).Some? then PositionError(Corner(maxExclusive), s.size)
    else if palette !in PaletteKeys(s.palette) then Some(UnknownPalette)
    else None
  }

  function BoxTrace(s: Spec, active: seq<string>, min: Int3, maxExclusive: Int3, palette: string): (t: Trace)
    ensures t.markers == [] && t.sockets == []
  {
    var error := BoxError(s, min, maxExclusive, palette);
    if error.Some? then Thrown(error.value)
    else NOTHING.(writes := [Write(min, maxExclusive, palette, Sort(active, StringLeq))])
  }

  function After(p: Int3): Int3 {
    Int3(p.x + 1, p.y + 1, p.z + 1)
  }

  function TraceOf(s: Spec, call: Call, active: seq<string>, ids: set<string>): Trace
    decreases call
  {
    match call
    case SetBlock(pos, palette) =>
      if PositionError(pos, s.size).Some? then Thrown(PositionError(pos, s.size).value)
      else if palette !in PaletteKeys(s.palette) then Thrown(UnknownPalette)
      else NOTHING.(writes := [Write(pos, After(pos), palette, Sort(active, StringLeq))])
    case FillBox(min, maxExclusive, palette) => BoxTrace(s, active, min, maxExclusive, palette)
    case LineX(minX, maxX, y, z, palette) => BoxTrace(s, active, Int3(minX, y, z), Int3(maxX, y + 1, z + 1), palette)
    case LineY(x, minY, maxY, z, palette) => BoxTrace(s, active, Int3(x, minY, z), Int3(x + 1, maxY, z + 1), palette)
    case LineZ(x, y, minZ, maxZ, palette) => BoxTrace(s, active, Int3(x, y, minZ), Int3(x + 1, y + 1, maxZ), palette)
    case PlaceMarker(kind, pos) =>
      if !MarkerKind(kind) then Thrown(InvalidKind)
      else if PositionError(pos, s.size).Some? then Thrown(PositionError(pos, s.size).value)
      else NOTHING.(markers := [Marker(kind, pos)])
    case PlaceSocket(id, kind, pos, facing) =>
      if !SafeId(id) then Thrown(InvalidId)
      else if !MarkerKind(kind) then Thrown(InvalidKind)
      else if PositionError(pos, s.size).Some? then Thrown(PositionError(pos, s.size).value)
      else if id in ids then Thrown(DuplicateSocket)
      else NOTHING.(sockets := [Socket(id, kind, pos, facing)])
    case Component(id, body) =>
      if id !in ComponentIds(s.components) then Thrown(UndeclaredComponent)
      else if id in active then Thrown(NestedComponent)
      else TraceAll(s, body, active + [id], ids)
    case Attempt(body) => TraceAll(s, body, active, ids).(error := None)
  }

  /** Calls in order, up to and including the first that throws. */
  function TraceAll(s: Spec, calls: seq<Call>, active: seq<string>, ids: set<string>): Trace
    decreases calls
  {
    if calls == [] then NOTHING
    else
      var first := TraceOf(s, calls[0], active, ids);
      if first.error.Some? then first
      else Then(first, TraceAll(s, calls[1..], active, ids + SocketIds(first.sockets)))
  }

  predicate Covers(w: Write, p: Int3) {
    w.min.x <= p.x < w.maxExclusive.x && w.min.y <= p.y < w.maxExclusive.y && w.min.z <= p.z < w.maxExclusive.z
  }

  /** The last write that covers a position. */
  function LastWrite(writes: seq<Write>, p: Int3): Option<Write> {
    if writes == [] then None
    else if Covers(writes[|writes| - 1], p) then Some(writes[|writes| - 1])
    else LastWrite(writes[..|writes| - 1], p)
  }

  // ---------------------------------------------------------------------------------------------
  // What the writes leave
  // ---------------------------------------------------------------------------------------------

  function PaletteIndex(palette: seq<PaletteEntry>): map<string, nat> {
    if palette == [] then map[]
    else PaletteIndex(palette[..|palette| - 1])[palette[|palette| - 1].key := |palette| - 1]
  }

  function Index(index: map<string, nat>, key: string): nat {
    if key in index then index[key] else 0
  }

  function BlockAt(index: map<string, nat>, w: Write, p: Int3): Block {
    Block(p, Index(index, w.palette), w.components)
  }

  function Positions(w: Write): set<Int3> {
    set x, y, z |
      w.min.x <= x < w.maxExclusive.x && w.min.y <= y < w.maxExclusive.y
        && w.min.z <= z < w.maxExclusive.z :: Int3(x, y, z)
  }

  lemma PositionsAreCovered(w: Write, p: Int3)
    ensures p in Positions(w) <==> Covers(w, p)
  {
    if Covers(w, p) {
      assert p == Int3(p.x, p.y, p.z);
    }
  }

  /** In the order the box is filled: by layer, then row, then column. */
  predicate Before(p: Int3, x: int, y: int, z: int) {
    p.y < y || (p.y == y && (p.z < z || (p.z == z && p.x < x)))
  }

  /** The blocks once the part of a write before a place in the filling order is done. */
  ghost predicate PaintedTo(
      was: map<Int3, Block>, now: map<Int3, Block>, index: map<string, nat>, w: Write, x: int, y: int, z: int)
  {
    forall p :: (p in now <==> p in was || (Covers(w, p) && Before(p, x, y, z)))
             && (p in now ==> now[p] == if Covers(w, p) && Before(p, x, y, z) then BlockAt(index, w, p) else was[p])
  }

  function Painted(blocks: map<Int3, Block>, index: map<string, nat>, w: Write): map<Int3, Block> {
    blocks + map p | p in Positions(w) :: BlockAt(index, w, p)
  }

  function Overwritten(blocks: map<Int3, Block>, index: map<string, nat>, writes: seq<Write>): map<Int3, Block> {
    if writes == [] then blocks
    else Painted(Overwritten(blocks, index, writes[..|writes| - 1]), index, writes[|writes| - 1])
  }

  lemma {:induction false} OverwrittenTwice(
      blocks: map<Int3, Block>, index: map<string, nat>, a: seq<Write>, b: seq<Write>)
    ensures Overwritten(Overwritten(blocks, index, a), index, b) == Overwritten(blocks, index, a + b)
    decreases |b|
  {
    if b == [] {
      assert a + b == a;
    } else {
      OverwrittenTwice(blocks, index, a, b[..|b| - 1]);
      assert (a + b)[..|a + b| - 1] == a + b[..|b| - 1];
    }
  }

  lemma PaintedAll(was: map<Int3, Block>, now: map<Int3, Block>, index: map<string, nat>, w: Write)
    requires PaintedTo(was, now, index, w, w.min.x, w.maxExclusive.y, w.min.z)
    ensures now == Painted(was, index, w)
  {
    forall p ensures p in now <==> p in Painted(was, index, w) {
      PositionsAreCovered(w, p);
    }
    forall p | p in now ensures now[p] == Painted(was, index, w)[p] {
      PositionsAreCovered(w, p);
    }
  }

  lemma NoWrites(blocks: map<Int3, Block>, index: map<string, nat>)
    ensures Overwritten(blocks, index, []) == blocks
  {
  }

  lemma SingleWrite(blocks: map<Int3, Block>, index: map<string, nat>, w: Write)
    ensures Overwritten(blocks, index, [w]) == Painted(blocks, index, w)
  {
    assert [w][..0] == [];
    assert Overwritten(blocks, index, []) == blocks;
  }

  lemma SingleCell(blocks: map<Int3, Block>, index: map<string, nat>, w: Write)
    requires w.maxExclusive == After(w.min)
    ensures Overwritten(blocks, index, [w]) == blocks[w.min := BlockAt(index, w, w.min)]
  {
    SingleWrite(blocks, index, w);
    forall p ensures p in Positions(w) <==> p == w.min {
      PositionsAreCovered(w, p);
    }
  }

  lemma SetInBox(
      s: Spec, active: seq<string>, ids: set<string>, min: Int3, maxExclusive: Int3, palette: string, p: Int3)
    requires PositionError(min, s.size).None? && PositionError(Corner(maxExclusive), s.size).None?
    requires Covers(Write(min, maxExclusive, palette, []), p)
    ensures TraceOf(s, SetBlock(p, palette), active, ids).error
         == if palette in PaletteKeys(s.palette) then None else Some(UnknownPalette)
  {
  }

  lemma PaintedNext(
      start: map<Int3, Block>, was: map<Int3, Block>, now: map<Int3, Block>, index: map<string, nat>, w: Write, x: int,
      y: int, z: int)
    requires PaintedTo(start, was, index, w, x, y, z)
    requires Covers(w, Int3(x, y, z)) && now == was[Int3(x, y, z) := BlockAt(index, w, Int3(x, y, z))]
    ensures PaintedTo(start, now, index, w, x + 1, y, z)
  {
  }

  lemma PaintedRow(start: map<Int3, Block>, now: map<Int3, Block>, index: map<string, nat>, w: Write, y: int, z: int)
    requires PaintedTo(start, now, index, w, w.maxExclusive.x, y, z)
    ensures PaintedTo(start, now, index, w, w.min.x, y, z + 1)
  {
  }

  lemma PaintedLayer(start: map<Int3, Block>, now: map<Int3, Block>, index: map<string, nat>, w: Write, y: int)
    requires PaintedTo(start, now, index, w, w.min.x, y, w.maxExclusive.z)
    ensures PaintedTo(start, now, index, w, w.min.x, y + 1, w.min.z)
  {
  }
}
