/** The structure builder: its calls write blocks, markers and sockets under a stack of active components. */
module StructureBuilders {
  import opened Outcomes
  import opened Sorting
  import opened StructureModel
  import opened StructureScripts
  import opened ScriptMeaning

  class StructureBuilder {
    const spec: Spec
    const paletteIndex: map<string, nat>
    var blocks: map<Int3, Block>
    var markers: seq<Marker>
    var sockets: seq<Socket>
    var socketIds: set<string>
    var activeComponents: seq<string>

    constructor (spec: Spec, palette: seq<PaletteEntry>)
      ensures this.spec == spec && paletteIndex == PaletteIndex(palette)
      ensures blocks == map[] && markers == [] && sockets == [] && socketIds == {} && activeComponents == []
    {
      this.spec := spec;
      paletteIndex := PaletteIndex(palette);
      blocks, markers, sockets, socketIds, activeComponents := map[], [], [], {}, [];
    }

    ghost predicate Valid()
      reads this
    {
      paletteIndex.Keys == PaletteKeys(spec.palette) && socketIds == SocketIds(sockets)
    }

    method Set(pos: Int3, palette: string) returns (error: Option<StructureError>)
      requires Valid()
      modifies this`blocks
      ensures var call := TraceOf(spec, SetBlock(pos, palette), activeComponents, socketIds);
              && error == call.error
              && blocks == if error.Some? then old(blocks)
                           else
                             old(blocks)[pos := Block(pos, Index(paletteIndex, palette),
                                                      Sort(activeComponents, StringLeq))]
    {
      if PositionError(pos, spec.size).Some? {
        return PositionError(pos, spec.size);
      }
      if palette !in paletteIndex {
        return Some(UnknownPalette);
      }
      blocks := blocks[pos := Block(pos, paletteIndex[palette], Sort(activeComponents, StringLeq))];
      error := None;
    }

    /** Fills the whole box, or throws and writes nothing. */
    method Fill(min: Int3, maxExclusive: Int3, palette: string) returns (error: Option<StructureError>)
      requires Valid()
      modifies this`blocks
      ensures error == BoxError(spec, min, maxExclusive, palette)
      ensures var w := Write(min, maxExclusive, palette, Sort(activeComponents, StringLeq));
              blocks == if error.Some? then old(blocks) else Painted(old(blocks), paletteIndex, w)
    {
      hide Sort, Painted;
      if !SafePosition(min) || !SafePosition(maxExclusive) {
        return Some(UnsafeInteger);
      }
      if min.x >= maxExclusive.x || min.y >= maxExclusive.y || min.z >= maxExclusive.z {
        return Some(EmptyBox);
      }
      if PositionError(min, spec.size).Some? {
        return PositionError(min, spec.size);
      }
      if PositionError(Corner(maxExclusive), spec.size).Some? {
        return PositionError(Corner(maxExclusive), spec.size);
      }
      ghost var w := Write(min, maxExclusive, palette, Sort(activeComponents, StringLeq));
      assert PaintedTo(blocks, blocks, paletteIndex, w, min.x, min.y, min.z);
      assert BoxError(spec, min, maxExclusive, palette)
             == if palette in paletteIndex then None else Some(UnknownPalette);
      hide PaintedTo, BoxError, PositionError, TraceOf;
      for y := min.y to maxExclusive.y
        invariant PaintedTo(old(blocks), blocks, paletteIndex, w, min.x, y, min.z)
        invariant palette in paletteIndex || (y == min.y && blocks == old(blocks))
      {
        for z := min.z to maxExclusive.z
          invariant PaintedTo(old(blocks), blocks, paletteIndex, w, min.x, y, z)
          invariant palette in paletteIndex || (y == min.y && z == min.z && blocks == old(blocks))
        {
          for x := min.x to maxExclusive.x
            invariant PaintedTo(old(blocks), blocks, paletteIndex, w, x, y, z)
            invariant palette in paletteIndex || (y == min.y && z == min.z && x == min.x && blocks == old(blocks))
          {
            ghost var was := blocks;
            SetInBox(spec, activeComponents, socketIds, min, maxExclusive, palette, Int3(x, y, z));
            error := Set(Int3(x, y, z), palette);
            if error.Some? {
              return;
            }
            PaintedNext(old(blocks), was, blocks, paletteIndex, w, x, y, z);
          }
          PaintedRow(old(blocks), blocks, paletteIndex, w, y, z);
        }
        PaintedLayer(old(blocks), blocks, paletteIndex, w, y);
      }
      PaintedAll(old(blocks), blocks, paletteIndex, w);
      error := None;
    }

    method Perform(call: Call) returns (error: Option<StructureError>)
      requires Valid()
      modifies this
      ensures Valid() && activeComponents == old(activeComponents)
      ensures var t := TraceOf(spec, call, old(activeComponents), old(socketIds));
              && error == t.error
              && blocks == Overwritten(old(blocks), paletteIndex, t.writes)
              && markers == old(markers) + t.markers && sockets == old(sockets) + t.sockets
      ensures var (steps, thrown) := PlayedOf(spec, call, old(activeComponents), old(socketIds));
              && error == thrown && LaidDown(old(blocks), blocks, paletteIndex, steps)
              && markers == old(markers) + MarkersOf(steps) && sockets == old(sockets) + SocketsOf(steps)
      decreases call
    {
      CallLaysDown(spec, call, activeComponents, socketIds, blocks, paletteIndex);
      hide LaidDown, Played, PlayedOf, MarkersOf, SocketsOf;
      hide Sort, Overwritten, Painted, BoxTrace, PositionError, MarkerKind, SafeId;
      NoWrites(blocks, paletteIndex);
      assert markers == markers + [] && sockets == sockets + [];
      match call
      case SetBlock(pos, palette) =>
        SingleCell(blocks, paletteIndex, Write(pos, After(pos), palette, Sort(activeComponents, StringLeq)));
        error := Set(pos, palette);
      case FillBox(min, maxExclusive, palette) =>
        error := FillTraced(min, maxExclusive, palette);
      case LineX(minX, maxX, y, z, palette) =>
        error := FillTraced(Int3(minX, y, z), Int3(maxX, y + 1, z + 1), palette);
      case LineY(x, minY, maxY, z, palette) =>
        error := FillTraced(Int3(x, minY, z), Int3(x + 1, maxY, z + 1), palette);
      case LineZ(x, y, minZ, maxZ, palette) =>
        error := FillTraced(Int3(x, y, minZ), Int3(x + 1, y + 1, maxZ), palette);
      case PlaceMarker(kind, pos) =>
        error := AddMarker(kind, pos);
      case PlaceSocket(id, kind, pos, facing) =>
        error := AddSocket(id, kind, pos, facing);
      case Component(id, body) =>
        if id !in ComponentIds(spec.components) {
          return Some(UndeclaredComponent);
        }
        if id in activeComponents {
          return Some(NestedComponent);
        }
        activeComponents := activeComponents + [id];
        error := Run(body);
        activeComponents := activeComponents[..|activeComponents| - 1];
      case Attempt(body) =>
        var _ := Run(body);
        error := None;
    }

    method AddMarker(kind: string, pos: Int3) returns (error: Option<StructureError>)
      modifies this`markers
      ensures var t := TraceOf(spec, PlaceMarker(kind, pos), activeComponents, socketIds);
              error == t.error && markers == old(markers) + t.markers
    {
      if !MarkerKind(kind) {
        return Some(InvalidKind);
      }
      if PositionError(pos, spec.size).Some? {
        return PositionError(pos, spec.size);
      }
      markers := markers + [Marker(kind, pos)];
      error := None;
    }

    method AddSocket(id: string, kind: string, pos: Int3, facing: string) returns (error: Option<StructureError>)
      requires Valid()
      modifies this`sockets, this`socketIds
      ensures Valid()
      ensures var t := TraceOf(spec, PlaceSocket(id, kind, pos, facing), activeComponents, old(socketIds));
              error == t.error && sockets == old(sockets) + t.sockets
    {
      if !SafeId(id) {
        return Some(InvalidId);
      }
      if !MarkerKind(kind) {
        return Some(InvalidKind);
      }
      if PositionError(pos, spec.size).Some? {
        return PositionError(pos, spec.size);
      }
      if id in socketIds {
        return Some(DuplicateSocket);
      }
      socketIds := socketIds + {id};
      sockets := sockets + [Socket(id, kind, pos, facing)];
      error := None;
    }

    method FillTraced(min: Int3, maxExclusive: Int3, palette: string) returns (error: Option<StructureError>)
      requires Valid()
      modifies this`blocks
      ensures var t := BoxTrace(spec, activeComponents, min, maxExclusive, palette);
              error == t.error && blocks == Overwritten(old(blocks), paletteIndex, t.writes)
    {
      SingleWrite(blocks, paletteIndex, Write(min, maxExclusive, palette, Sort(activeComponents, StringLeq)));
      error := Fill(min, maxExclusive, palette);
    }

    /** Runs the calls of a callback in order. Whether or not one throws, the component stack is what it was. */
    method Run(calls: seq<Call>) returns (error: Option<StructureError>)
      requires Valid()
      modifies this
      ensures Valid() && activeComponents == old(activeComponents)
      ensures var t := TraceAll(spec, calls, old(activeComponents), old(socketIds));
              && error == t.error
              && blocks == Overwritten(old(blocks), paletteIndex, t.writes)
              && markers == old(markers) + t.markers && sockets == old(sockets) + t.sockets
      ensures var (steps, thrown) := Played(spec, calls, old(activeComponents), old(socketIds));
              && error == thrown && LaidDown(old(blocks), blocks, paletteIndex, steps)
              && markers == old(markers) + MarkersOf(steps) && sockets == old(sockets) + SocketsOf(steps)
      decreases calls
    {
      ScriptLaysDown(spec, calls, activeComponents, socketIds, blocks, paletteIndex);
      hide LaidDown, Played, PlayedOf, MarkersOf, SocketsOf;
      if calls == [] {
        return None;
      }
      ghost var first := TraceOf(spec, calls[0], activeComponents, socketIds);
      ghost var ids := socketIds + SocketIds(first.sockets);
      ghost var rest := TraceAll(spec, calls[1..], activeComponents, ids);
      error := Perform(calls[0]);
      if error.Some? {
        return;
      }
      assert socketIds == ids;
      error := Run(calls[1..]);
      OverwrittenTwice(old(blocks), paletteIndex, first.writes, rest.writes);
    }
  }
}
