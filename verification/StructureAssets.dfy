/** Finished structures: canonical, always valid, and determined by the last write at each position. */
module StructureAssets {
  import opened Outcomes
  import opened Sorting
  import opened StructureModel
  import opened StructureScripts
  import opened ScriptMeaning
  import opened StructureBuilders

  // ---------------------------------------------------------------------------------------------
  // Last write wins
  // ---------------------------------------------------------------------------------------------

  lemma {:induction false} OverwrittenIsLastWrite(index: map<string, nat>, writes: seq<Write>, p: Int3)
    ensures p in Overwritten(map[], index, writes) <==> LastWrite(writes, p).Some?
    ensures LastWrite(writes, p).Some? ==>
            Overwritten(map[], index, writes)[p] == BlockAt(index, LastWrite(writes, p).value, p)
    decreases |writes|
  {
    if writes != [] {
      OverwrittenIsLastWrite(index, writes[..|writes| - 1], p);
      PositionsAreCovered(writes[|writes| - 1], p);
    }
  }

  lemma {:induction false} LastWriteIsAWrite(writes: seq<Write>, p: Int3)
    ensures LastWrite(writes, p).Some? ==> LastWrite(writes, p).value in writes && Covers(LastWrite(writes, p).value, p)
    decreases |writes|
  {
    if writes != [] && !Covers(writes[|writes| - 1], p) {
      LastWriteIsAWrite(writes[..|writes| - 1], p);
    }
  }

  lemma {:induction false} LastWriteOfBoth(a: seq<Write>, b: seq<Write>, p: Int3)
    ensures LastWrite(a + b, p) == if LastWrite(b, p).Some? then LastWrite(b, p) else LastWrite(a, p)
    decreases |b|
  {
    if b == [] {
      assert a + b == a;
    } else {
      assert (a + b)[..|a + b| - 1] == a + b[..|b| - 1];
      LastWriteOfBoth(a, b[..|b| - 1], p);
    }
  }

  lemma {:induction false} PaletteIndexResolves(palette: seq<PaletteEntry>)
    ensures PaletteIndex(palette).Keys == PaletteKeys(palette)
    ensures forall key :: key in PaletteIndex(palette) ==>
              PaletteIndex(palette)[key] < |palette| && palette[PaletteIndex(palette)[key]].key == key
    decreases |palette|
  {
    if palette != [] {
      var n := |palette| - 1;
      PaletteIndexResolves(palette[..n]);
      assert palette == palette[..n] + [palette[n]];
    }
  }

  // ---------------------------------------------------------------------------------------------
  // What a script writes is legal
  // ---------------------------------------------------------------------------------------------

  ghost predicate LegalWrite(s: Spec, w: Write) {
    && (forall p :: Covers(w, p) ==> SafePosition(p) && Inside(p, s.size))
    && w.palette in PaletteKeys(s.palette)
    && Distinct(w.components, Itself) && Sorted(w.components, StringLeq)
    && forall id :: id in w.components ==> id in ComponentIds(s.components)
  }

  ghost predicate Legal(s: Spec, t: Trace, ids: set<string>) {
    && (forall w :: w in t.writes ==> LegalWrite(s, w))
    && (forall m :: m in t.markers ==> ValidMarker(s, m))
    && (forall k :: k in t.sockets ==> ValidSocket(s, k) && k.id !in ids)
    && Distinct(t.sockets, SocketId)
  }

  ghost predicate Active(s: Spec, active: seq<string>) {
    Distinct(active, Itself) && forall id :: id in active ==> id in ComponentIds(s.components)
  }

  lemma ActiveComponentsAreSorted(s: Spec, active: seq<string>)
    requires Active(s, active)
    ensures var components := Sort(active, StringLeq);
            && Distinct(components, Itself) && Sorted(components, StringLeq)
            && forall id :: id in components ==> id in ComponentIds(s.components)
  {
    StringLeqIsTotalOrder();
    SortIsSorted(active, StringLeq);
    SortKeepsDistinct(active, StringLeq, Itself);
    SortKeepsMembers(active, StringLeq);
  }

  lemma BoxIsLegal(s: Spec, active: seq<string>, min: Int3, maxExclusive: Int3, palette: string, ids: set<string>)
    requires Active(s, active)
    ensures Legal(s, BoxTrace(s, active, min, maxExclusive, palette), ids)
  {
    hide Sort, Sorted, Distinct, Active;
    ActiveComponentsAreSorted(s, active);
    var t := BoxTrace(s, active, min, maxExclusive, palette);
    assert Distinct(t.sockets, SocketId) by { NoneAreDistinct(); }
    if t.error.None? {
      assert LegalWrite(s, t.writes[0]);
    }
  }

  lemma NoneAreDistinct()
    ensures Distinct([], SocketId)
  {
  }

  lemma {:induction false} CallIsLegal(s: Spec, call: Call, active: seq<string>, ids: set<string>)
    requires Active(s, active)
    ensures Legal(s, TraceOf(s, call, active, ids), ids)
    decreases call
  {
    hide Sort, Sorted, BoxTrace, PositionError, SafeId, MarkerKind, LegalWrite, Inside, SafePosition;
    match call
    case SetBlock(pos, palette) => SetIsLegal(s, active, pos, palette, ids);
    case FillBox(min, maxExclusive, palette) => BoxIsLegal(s, active, min, maxExclusive, palette, ids);
    case LineX(minX, maxX, y, z, palette) =>
      BoxIsLegal(s, active, Int3(minX, y, z), Int3(maxX, y + 1, z + 1), palette, ids);
    case LineY(x, minY, maxY, z, palette) =>
      BoxIsLegal(s, active, Int3(x, minY, z), Int3(x + 1, maxY, z + 1), palette, ids);
    case LineZ(x, y, minZ, maxZ, palette) =>
      BoxIsLegal(s, active, Int3(x, y, minZ), Int3(x + 1, y + 1, maxZ), palette, ids);
    case PlaceMarker(kind, pos) =>
    case PlaceSocket(id, kind, pos, facing) =>
    case Component(id, body) =>
      if id in ComponentIds(s.components) && id !in active {
        assert Active(s, active + [id]);
        ScriptIsLegal(s, body, active + [id], ids);
      }
    case Attempt(body) => ScriptIsLegal(s, body, active, ids);
  }

  lemma SetIsLegal(s: Spec, active: seq<string>, pos: Int3, palette: string, ids: set<string>)
    requires Active(s, active)
    ensures Legal(s, TraceOf(s, SetBlock(pos, palette), active, ids), ids)
  {
    hide Sort, Sorted, Distinct, Active;
    ActiveComponentsAreSorted(s, active);
    NoneAreDistinct();
    var w := Write(pos, After(pos), palette, Sort(active, StringLeq));
    if PositionError(pos, s.size).None? && palette in PaletteKeys(s.palette) {
      forall p | Covers(w, p) ensures p == pos {
      }
      assert LegalWrite(s, w);
    }
  }

  lemma {:induction false} ScriptIsLegal(s: Spec, calls: seq<Call>, active: seq<string>, ids: set<string>)
    requires Active(s, active)
    ensures Legal(s, TraceAll(s, calls, active, ids), ids)
    decreases calls
  {
    if calls == [] {
      NoneAreDistinct();
    } else {
      hide Active, LegalWrite, ValidMarker, ValidSocket, TraceOf;
      CallIsLegal(s, calls[0], active, ids);
      var first := TraceOf(s, calls[0], active, ids);
      if first.error.None? {
        var after := ids + SocketIds(first.sockets);
        ScriptIsLegal(s, calls[1..], active, after);
        LegalThen(s, first, TraceAll(s, calls[1..], active, after), ids);
      }
    }
  }

  lemma LegalThen(s: Spec, first: Trace, second: Trace, ids: set<string>)
    requires Legal(s, first, ids) && Legal(s, second, ids + SocketIds(first.sockets))
    ensures Legal(s, Then(first, second), ids)
  {
    hide LegalWrite, ValidMarker, ValidSocket;
    var both := first.sockets + second.sockets;
    forall i, j | 0 <= i < j < |both| ensures SocketId(both[i]) != SocketId(both[j]) {
      if i < |first.sockets| <= j {
        assert both[i] in first.sockets && both[j] in second.sockets;
      }
    }
  }

  // ---------------------------------------------------------------------------------------------
  // Canonical blocks
  // ---------------------------------------------------------------------------------------------

  ghost predicate Increasing(blocks: seq<Block>) {
    forall i, j :: 0 <= i < j < |blocks| ==> BlockLeq(blocks[i], blocks[j]) && blocks[i].pos != blocks[j].pos
  }

  /** In strictly increasing order of x, then y, then z. */
  lemma IncreasingIff(blocks: seq<Block>)
    ensures Increasing(blocks) <==>
              forall i, j :: 0 <= i < j < |blocks| ==>
                var p, q := blocks[i].pos, blocks[j].pos;
                p.x < q.x || (p.x == q.x && (p.y < q.y || (p.y == q.y && p.z < q.z)))
  {
    if Increasing(blocks) {
      forall i, j | 0 <= i < j < |blocks|
        ensures var p, q := blocks[i].pos, blocks[j].pos;
                p.x < q.x || (p.x == q.x && (p.y < q.y || (p.y == q.y && p.z < q.z)))
      {
        assert BlockLeq(blocks[i], blocks[j]);
      }
    }
  }

  /** The block is what the last write at its position asked for. */
  ghost predicate Shows(b: Block, palette: seq<PaletteEntry>, writes: seq<Write>) {
    && LastWrite(writes, b.pos).Some?
    && 0 <= b.palette < |palette| && palette[b.palette].key == LastWrite(writes, b.pos).value.palette
    && b.components == LastWrite(writes, b.pos).value.components
  }

  ghost predicate HasBlock(blocks: seq<Block>, p: Int3) {
    exists i :: 0 <= i < |blocks| && blocks[i].pos == p
  }

  /** Strictly increasing by position; a block at each written position and at no other, as last written. */
  ghost predicate Renders(blocks: seq<Block>, palette: seq<PaletteEntry>, writes: seq<Write>) {
    && Increasing(blocks)
    && (forall b :: b in blocks ==> Shows(b, palette, writes))
    && (forall p :: LastWrite(writes, p).Some? ==> HasBlock(blocks, p))
  }

  lemma {:induction false} IncreasingIsUnique(s: seq<Block>, t: seq<Block>)
    requires Increasing(s) && Increasing(t)
    requires forall b :: b in s <==> b in t
    ensures s == t
  {
    NoMembers(s);
    NoMembers(t);
    if s != [] && t != [] {
      FirstIsLeastBlock(s, t[0]);
      FirstIsLeastBlock(t, s[0]);
      forall b ensures b in s[1..] <==> b in t[1..] {
        NotFirst(s, b);
        NotFirst(t, b);
      }
      IncreasingIsUnique(s[1..], t[1..]);
      assert s == [s[0]] + s[1..] && t == [t[0]] + t[1..];
    }
  }

  lemma NoMembers(s: seq<Block>)
    ensures s == [] <==> forall b :: b !in s
  {
    if s != [] {
      assert s[0] in s;
    }
  }

  lemma FirstIsLeastBlock(s: seq<Block>, b: Block)
    requires s != [] && Increasing(s) && b in s
    ensures BlockLeq(s[0], b) && (s[0].pos == b.pos ==> s[0] == b)
  {
    var i :| 0 <= i < |s| && s[i] == b;
    assert i == 0 || BlockLeq(s[0], s[i]);
  }

  lemma NotFirst(s: seq<Block>, b: Block)
    requires s != [] && Increasing(s)
    ensures b in s[1..] <==> b in s && b != s[0]
  {
    assert forall j :: 0 < j < |s| ==> s[0].pos != s[j].pos;
  }

  /** The written blocks have one rendering: two scripts agreeing on the last write everywhere give the same blocks. */
  lemma RenderingIsUnique(
      s: seq<Block>, t: seq<Block>, palette: seq<PaletteEntry>, first: seq<Write>, second: seq<Write>)
    requires Distinct(palette, EntryKey)
    requires Renders(s, palette, first) && Renders(t, palette, second)
    ensures s == t <==> SameCells(first, second)
  {
    if SameCells(first, second) {
      forall b ensures b in s <==> b in t {
        if b in s {
          Rendered(b, s, t, palette, first, second);
        }
        if b in t {
          Rendered(b, t, s, palette, second, first);
        }
      }
      IncreasingIsUnique(s, t);
    }
    if s == t {
      forall p ensures SameCell(LastWrite(first, p), LastWrite(second, p)) {
        if LastWrite(first, p).Some? || LastWrite(second, p).Some? {
          assert HasBlock(s, p);
          var i :| 0 <= i < |s| && s[i].pos == p;
          assert s[i] in s && s[i] in t;
          assert Shows(s[i], palette, first) && Shows(s[i], palette, second);
        }
      }
    }
  }

  /** The same palette key and components, or nothing on both sides. */
  predicate SameCell(a: Option<Write>, b: Option<Write>) {
    a.Some? == b.Some? && (a.Some? ==> a.value.palette == b.value.palette && a.value.components == b.value.components)
  }

  ghost predicate SameCells(first: seq<Write>, second: seq<Write>) {
    forall p :: SameCell(LastWrite(first, p), LastWrite(second, p))
  }

  lemma Rendered(
      b: Block, s: seq<Block>, t: seq<Block>, palette: seq<PaletteEntry>, first: seq<Write>, second: seq<Write>)
    requires Distinct(palette, EntryKey)
    requires Renders(s, palette, first) && Renders(t, palette, second) && b in s
    requires SameCell(LastWrite(first, b.pos), LastWrite(second, b.pos))
    ensures b in t
  {
    assert Shows(b, palette, first);
    assert HasBlock(t, b.pos);
    var i :| 0 <= i < |t| && t[i].pos == b.pos;
    assert t[i] in t && Shows(t[i], palette, second);
    assert EntryKey(palette[b.palette]) == EntryKey(palette[t[i].palette]);
    assert t[i].palette == b.palette;
    assert t[i] == b;
  }

  /** Writes that touch no common position can be made in either order. */
  lemma DisjointWritesCommute(
      s: seq<Block>, t: seq<Block>, palette: seq<PaletteEntry>, first: seq<Write>, second: seq<Write>)
    requires Distinct(palette, EntryKey)
    requires Renders(s, palette, first + second) && Renders(t, palette, second + first)
    requires forall p :: LastWrite(first, p).None? || LastWrite(second, p).None?
    ensures s == t
  {
    forall p ensures SameCell(LastWrite(first + second, p), LastWrite(second + first, p)) {
      LastWriteOfBoth(first, second, p);
      LastWriteOfBoth(second, first, p);
    }
    assert SameCells(first + second, second + first);
    RenderingIsUnique(s, t, palette, first + second, second + first);
  }

  // ---------------------------------------------------------------------------------------------
  // The whole builder
  // ---------------------------------------------------------------------------------------------

  ghost predicate Holds(s: seq<Block>, blocks: map<Int3, Block>) {
    && (forall i :: 0 <= i < |s| ==> s[i].pos in blocks && blocks[s[i].pos] == s[i])
    && (forall p :: p in blocks ==> HasBlock(s, p))
    && (forall i, j :: 0 <= i < j < |s| ==> s[i].pos != s[j].pos)
  }

  /** The values of the map, in some order. */
  method Values(blocks: map<Int3, Block>) returns (s: seq<Block>)
    requires forall p :: p in blocks ==> blocks[p].pos == p
    ensures Holds(s, blocks)
  {
    var rest := blocks.Keys;
    s := [];
    while rest != {}
      invariant rest <= blocks.Keys
      invariant forall i :: 0 <= i < |s| ==> s[i].pos in blocks && s[i].pos !in rest && blocks[s[i].pos] == s[i]
      invariant forall p :: p in blocks && p !in rest ==> HasBlock(s, p)
      invariant forall i, j :: 0 <= i < j < |s| ==> s[i].pos != s[j].pos
      decreases |rest|
    {
      var p :| p in rest;
      ghost var was := s;
      s := s + [blocks[p]];
      rest := rest - {p};
      forall q | q in blocks && q !in rest ensures HasBlock(s, q) {
        if q == p {
          assert s[|s| - 1].pos == q;
        } else {
          var i :| 0 <= i < |was| && was[i].pos == q;
          assert s[i].pos == q;
        }
      }
    }
  }

  lemma SortedBlocksRender(values: seq<Block>, palette: seq<PaletteEntry>, s: Spec, writes: seq<Write>)
    requires Holds(values, Overwritten(map[], PaletteIndex(palette), writes))
    requires PaletteKeys(palette) == PaletteKeys(s.palette) && forall w :: w in writes ==> LegalWrite(s, w)
    ensures Renders(Sort(values, BlockLeq), palette, writes)
  {
    var blocks := Sort(values, BlockLeq);
    var index := PaletteIndex(palette);
    PaletteIndexResolves(palette);
    assert TotalPreorder(BlockLeq);
    SortIsSorted(values, BlockLeq);
    assert Distinct(values, Position);
    SortKeepsDistinct(values, BlockLeq, Position);
    SortKeepsMembers(values, BlockLeq);
    forall b | b in blocks ensures Shows(b, palette, writes) {
      OverwrittenIsLastWrite(index, writes, b.pos);
      LastWriteIsAWrite(writes, b.pos);
    }
    forall p | LastWrite(writes, p).Some? ensures HasBlock(blocks, p) {
      OverwrittenIsLastWrite(index, writes, p);
      var i :| 0 <= i < |values| && values[i].pos == p;
      assert values[i] in blocks;
    }
  }

  lemma RenderedBlocksAreValid(blocks: seq<Block>, s: Spec, canonical: Spec, writes: seq<Write>)
    requires Renders(blocks, canonical.palette, writes) && forall w :: w in writes ==> LegalWrite(s, w)
    requires canonical.size == s.size && ComponentIds(canonical.components) == ComponentIds(s.components)
    ensures forall i :: 0 <= i < |blocks| ==> ValidBlock(canonical, blocks[i])
    ensures Distinct(blocks, Position)
  {
    forall i | 0 <= i < |blocks| ensures ValidBlock(canonical, blocks[i]) {
      assert blocks[i] in blocks && Shows(blocks[i], canonical.palette, writes);
      LastWriteIsAWrite(writes, blocks[i].pos);
    }
  }

  function AssetOf(host: Host, s: Spec, t: Trace, blocks: seq<Block>): Asset {
    Asset(CanonicalSpec(host, s), blocks, t.markers, Sort(t.sockets, BySocket(host.locale)))
  }

  lemma AssetIsValid(host: Host, s: Spec, t: Trace, blocks: seq<Block>)
    requires ValidSpec(host, s) && Legal(s, t, {})
    requires Renders(blocks, CanonicalSpec(host, s).palette, t.writes)
    ensures ValidAsset(host, AssetOf(host, s, t, blocks))
  {
    var canonical, sockets := CanonicalSpec(host, s), Sort(t.sockets, BySocket(host.locale));
    CanonicalSpecIsValid(host, s);
    MergedIsItselfIff(canonical.palette);
    RenderedBlocksAreValid(blocks, s, canonical, t.writes);
    SortKeepsMembers(t.sockets, BySocket(host.locale));
    SortKeepsDistinct(t.sockets, BySocket(host.locale), SocketId);
    assert canonical.size == s.size;
    hide ValidSpec, Sort, Distinct, Renders, ValidBlock, LegalWrite, Covers, CanonicalSpec, PositionError, MarkerKind,
      SafeId, Merged;
    forall i | 0 <= i < |t.markers| ensures ValidMarker(canonical, t.markers[i]) {
      assert ValidMarker(s, t.markers[i]);
    }
    forall i | 0 <= i < |sockets| ensures ValidSocket(canonical, sockets[i]) {
      assert sockets[i] in t.sockets && ValidSocket(s, sockets[i]);
    }
  }

  lemma CanonicalPaletteKeys(host: Host, s: Spec)
    ensures PaletteKeys(CanonicalSpec(host, s).palette) == PaletteKeys(s.palette)
  {
    SortKeepsMembers(s.palette, ByKey(host.locale));
  }

  /**
   * Fails exactly on an invalid specification, or with what the script throws: the final check never rejects. The
   * blocks render the script's writes, and the finished asset is valid.
   */
  method Structure(host: Host, s: Spec, script: seq<Call>) returns (r: Result<Asset, StructureError>)
    requires Distinct(s.palette, EntryKey)
    ensures var t := TraceAll(s, script, [], {});
            && (!ValidSpec(host, s) ==> r == Failure(InvalidSpec))
            && (ValidSpec(host, s) && t.error.Some? ==> r == Failure(t.error.value))
            && (ValidSpec(host, s) && t.error.None? ==> r.Success?)
            && (r.Success? ==>
                  && r.value == AssetOf(host, s, t, r.value.blocks)
                  && Renders(r.value.blocks, r.value.spec.palette, t.writes)
                  && ValidAsset(host, r.value))
    ensures var (steps, error) := Played(s, script, [], {});
            && (ValidSpec(host, s) ==> if error.Some? then r == Failure(error.value) else r.Success?)
            && (r.Success? ==> BuiltBy(r.value, steps))
    ensures NoAttempt(script) && ValidSpec(host, s) ==>
              && (r.Success? <==> Nests(s, script, []) && AllAccepted(s, Leaves(script, []), {}))
              && (r.Success? ==> BuiltBy(r.value, Leaves(script, [])))
  {
    ScriptTraces(s, script, [], {});
    if NoAttempt(script) {
      PlaysItsLeaves(s, script, [], {});
    }
    hide *;
    var valid := ValidateStructureSpec(host, s);
    if !valid {
      return Failure(InvalidSpec);
    }
    var canonical := CanonicalSpec(host, s);
    var builder := new StructureBuilder(s, canonical.palette);
    ghost var t := TraceAll(s, script, [], {});
    Prepared(host, s, builder);
    var error := builder.Run(script);
    Traced(builder, t);
    if error.Some? {
      return Failure(error.value);
    }
    Rendering(host, s, t);
    var values := Values(builder.blocks);
    var asset := Asset(canonical, Sort(values, BlockLeq), builder.markers,
        Sort(builder.sockets, BySocket(host.locale)));
    SortedBlocksRender(values, canonical.palette, s, t.writes);
    Finished(host, s, t, asset);
    AssetIsBuilt(host, s, t, Played(s, script, [], {}).0, asset);
    var checked := AssertValidAuthoredStructure(host, asset);
    r := if checked.Success? then Success(asset) else Failure(InvalidAsset);
  }

  /**
   * The asset of the leaves played: a block at each position a leaf touches and at no other, with the palette key of
   * the last such leaf and the ids around it; and the markers and sockets of the leaves, the sockets in some order.
   */
  ghost predicate BuiltBy(asset: Asset, steps: seq<Step>) {
    && Increasing(asset.blocks)
    && (forall p :: HasBlock(asset.blocks, p) <==> Touched(steps, p))
    && (forall b, k :: b in asset.blocks && 0 <= k < |steps| && LastTouch(steps, k, b.pos) ==>
          0 <= b.palette < |asset.spec.palette|
          && WrittenBy(steps[k], asset.spec.palette[b.palette].key, b.components))
    && asset.markers == MarkersOf(steps) && multiset(asset.sockets) == multiset(SocketsOf(steps))
  }

  lemma AssetIsBuilt(host: Host, s: Spec, t: Trace, steps: seq<Step>, asset: Asset)
    requires Traces(t, steps) && asset == AssetOf(host, s, t, asset.blocks)
    requires Renders(asset.blocks, asset.spec.palette, t.writes)
    ensures BuiltBy(asset, steps)
  {
    SortIsPermutation(t.sockets, BySocket(host.locale));
    hide Sort, Increasing, CanonicalSpec, Touched, LastTouch, WrittenBy, LastWrite, AllWrite, MarkersOf, SocketsOf;
    forall p
      ensures HasBlock(asset.blocks, p) <==> Touched(steps, p)
      ensures LastMatches(LastWrite(t.writes, p), steps, p)
    {
      LastWriteIsLast(t.writes, steps, p);
      if HasBlock(asset.blocks, p) {
        var i :| 0 <= i < |asset.blocks| && asset.blocks[i].pos == p;
        assert asset.blocks[i] in asset.blocks;
        assert Shows(asset.blocks[i], asset.spec.palette, t.writes);
      }
    }
    forall b, k | b in asset.blocks && 0 <= k < |steps| && LastTouch(steps, k, b.pos)
      ensures 0 <= b.palette < |asset.spec.palette|
      ensures 0 <= b.palette < |asset.spec.palette| ==>
                WrittenBy(steps[k], asset.spec.palette[b.palette].key, b.components)
    {
      assert Shows(b, asset.spec.palette, t.writes);
      assert LastMatches(LastWrite(t.writes, b.pos), steps, b.pos);
    }
  }

  lemma Prepared(host: Host, s: Spec, builder: StructureBuilder)
    requires builder.spec == s && builder.paletteIndex == PaletteIndex(CanonicalSpec(host, s).palette)
    requires builder.socketIds == {} && builder.sockets == []
    ensures builder.Valid()
  {
    CanonicalPaletteKeys(host, s);
    PaletteIndexResolves(CanonicalSpec(host, s).palette);
  }

  lemma Traced(builder: StructureBuilder, t: Trace)
    ensures [] + t.markers == t.markers && [] + t.sockets == t.sockets
  {
  }

  /** What the writes of a whole script give: legal contents, each block filed under its own position. */
  lemma Rendering(host: Host, s: Spec, t: Trace)
    requires exists script :: t == TraceAll(s, script, [], {})
    ensures Legal(s, t, {}) && forall w :: w in t.writes ==> LegalWrite(s, w)
    ensures PaletteKeys(CanonicalSpec(host, s).palette) == PaletteKeys(s.palette)
    ensures var blocks := Overwritten(map[], PaletteIndex(CanonicalSpec(host, s).palette), t.writes);
            forall p :: p in blocks ==> blocks[p].pos == p
  {
    var script :| t == TraceAll(s, script, [], {});
    ScriptIsLegal(s, script, [], {});
    CanonicalPaletteKeys(host, s);
    forall p ensures var blocks := Overwritten(map[], PaletteIndex(CanonicalSpec(host, s).palette), t.writes);
                     p in blocks ==> blocks[p].pos == p
    {
      OverwrittenIsLastWrite(PaletteIndex(CanonicalSpec(host, s).palette), t.writes, p);
    }
  }

  lemma Finished(host: Host, s: Spec, t: Trace, asset: Asset)
    requires ValidSpec(host, s) && Legal(s, t, {})
    requires asset == Asset(CanonicalSpec(host, s), asset.blocks, t.markers, Sort(t.sockets, BySocket(host.locale)))
    requires Renders(asset.blocks, CanonicalSpec(host, s).palette, t.writes)
    ensures asset == AssetOf(host, s, t, asset.blocks)
    ensures ValidAsset(host, asset)
  {
    hide ValidAsset, Renders, CanonicalSpec, Legal, ValidSpec, Sort;
    AssetIsValid(host, s, t, asset.blocks);
  }
}
