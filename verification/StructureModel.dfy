/** Authored structures: what a specification and a finished asset must satisfy, and the loops that check it. */
module StructureModel {
  import opened Outcomes
  import opened Sorting

  datatype Int3 = Int3(x: int, y: int, z: int)

  datatype PaletteState = Role(role: string) | State(state: string)
  datatype PaletteEntry = PaletteEntry(key: string, state: PaletteState)
  datatype ComponentSpec = ComponentSpec(id: string, title: string)
  datatype Theme = Theme(id: string, title: string, materials: map<string, string>)
  datatype Family = Family(id: string, title: string, member: string)

  datatype Block = Block(pos: Int3, palette: int, components: seq<string>)
  datatype Marker = Marker(kind: string, pos: Int3)
  datatype Socket = Socket(id: string, kind: string, pos: Int3, facing: string)

  /** An author's palette is a record, whose keys are distinct; an asset's is an array, whose keys need not be. */
  datatype Spec = Spec(
    id: string, title: string, description: string, size: Int3, palette: seq<PaletteEntry>,
    components: seq<ComponentSpec>, themes: seq<Theme>, defaultTheme: Option<string>, family: Option<Family>,
    tags: seq<string>)

  datatype Asset = Asset(spec: Spec, blocks: seq<Block>, markers: seq<Marker>, sockets: seq<Socket>)

  /** The host's collation order, and the grammar of roles, block states and theme materials. */
  datatype Host = Host(
    locale: (string, string) -> bool, knownState: PaletteState -> bool, knownMaterial: (string, string) -> bool)

  datatype StructureError =
    | InvalidSpec | InvalidAsset
    | UnsafeInteger | OutsideSize | EmptyBox | UnknownPalette
    | UndeclaredComponent | NestedComponent
    | InvalidKind | InvalidId | DuplicateSocket

  // ---------------------------------------------------------------------------------------------
  // Names and positions
  // ---------------------------------------------------------------------------------------------

  predicate Lower(c: char) { 'a' <= c <= 'z' }
  predicate Digit(c: char) { '0' <= c <= '9' }

  predicate SafeId(s: string) {
    s != [] && (Lower(s[0]) || Digit(s[0])) && forall c :: c in s[1..] ==> Lower(c) || Digit(c) || c == '_' || c == '-'
  }

  predicate MarkerKind(s: string) {
    s != [] && (Lower(s[0]) || Digit(s[0]))
    && forall c :: c in s[1..] ==> Lower(c) || Digit(c) || c == '_' || c == ':' || c == '-'
  }

  predicate PaletteKey(s: string) {
    s != [] && Lower(s[0])
    && forall c :: c in s[1..] ==> Lower(c) || 'A' <= c <= 'Z' || Digit(c) || c == '_' || c == '-'
  }

  predicate Space(c: char) {
    c in "\t\n\r \U{b}\U{c}\U{a0}\U{1680}\U{2028}\U{2029}\U{202f}\U{205f}\U{3000}\U{feff}"
    || '\U{2000}' <= c <= '\U{200a}'
  }

  function TrimStart(s: string): string {
    if s != [] && Space(s[0]) then TrimStart(s[1..]) else s
  }

  function TrimEnd(s: string): string {
    if s != [] && Space(s[|s| - 1]) then TrimEnd(s[..|s| - 1]) else s
  }

  function Trim(s: string): string {
    TrimEnd(TrimStart(s))
  }

  predicate Blank(s: string) {
    Trim(s) == ""
  }

  lemma {:induction false} TrimEndKeepsStart(s: string)
    requires s != [] && !Space(s[0])
    ensures TrimEnd(s) != [] && TrimEnd(s)[0] == s[0] && TrimEnd(TrimEnd(s)) == TrimEnd(s)
    decreases |s|
  {
    if Space(s[|s| - 1]) {
      TrimEndKeepsStart(s[..|s| - 1]);
    }
  }

  lemma {:induction false} TrimStartEnds(s: string)
    ensures TrimStart(s) == [] || !Space(TrimStart(s)[0])
  {
    if s != [] && Space(s[0]) {
      TrimStartEnds(s[1..]);
    }
  }

  lemma TrimIsIdempotent(s: string)
    ensures Trim(Trim(s)) == Trim(s)
  {
    TrimStartEnds(s);
    if TrimStart(s) != [] {
      TrimEndKeepsStart(TrimStart(s));
    }
  }

  predicate AllSpace(s: string) {
    forall c :: c in s ==> Space(c)
  }

  lemma {:induction false} TrimStartIs(s: string) returns (before: string)
    ensures AllSpace(before) && s == before + TrimStart(s)
  {
    hide Space;
    before := [];
    if s != [] && Space(s[0]) {
      var rest := TrimStartIs(s[1..]);
      before := [s[0]] + rest;
      assert s == [s[0]] + s[1..] && TrimStart(s) == TrimStart(s[1..]);
      assert [s[0]] + (rest + TrimStart(s)) == [s[0]] + rest + TrimStart(s);
    }
  }

  lemma {:induction false} TrimEndIs(s: string) returns (after: string)
    ensures AllSpace(after) && s == TrimEnd(s) + after
    ensures TrimEnd(s) == [] || !Space(TrimEnd(s)[|TrimEnd(s)| - 1])
  {
    hide Space;
    after := [];
    if s != [] && Space(s[|s| - 1]) {
      var n := |s| - 1;
      var rest := TrimEndIs(s[..n]);
      after := rest + [s[n]];
      assert s == s[..n] + [s[n]] && TrimEnd(s) == TrimEnd(s[..n]);
      assert TrimEnd(s) + (rest + [s[n]]) == TrimEnd(s) + rest + [s[n]];
    }
  }

  /** White space, the trimmed text, white space. The trimmed text begins and ends with none. */
  ghost predicate IsTrimmed(s: string, trimmed: string) {
    && (exists before, after :: AllSpace(before) && AllSpace(after) && s == before + trimmed + after)
    && (trimmed == [] || (!Space(trimmed[0]) && !Space(trimmed[|trimmed| - 1])))
  }

  lemma TrimIs(s: string)
    ensures IsTrimmed(s, Trim(s))
    ensures Blank(s) <==> AllSpace(s)
  {
    hide Space;
    var before := TrimStartIs(s);
    var after := TrimEndIs(TrimStart(s));
    TrimStartEnds(s);
    var trimmed := Trim(s);
    assert s == before + trimmed + after;
    if trimmed != [] {
      assert trimmed[0] == TrimStart(s)[0];
      assert s[|before|] == trimmed[0] && s[|before|] in s;
    }
    if trimmed == [] {
      assert forall c :: c in s ==> c in before || c in after;
    }
  }

  const MAX_SAFE_INTEGER: int := 9007199254740991

  predicate SafeInteger(i: int) { -MAX_SAFE_INTEGER <= i <= MAX_SAFE_INTEGER }

  predicate SafePosition(p: Int3) { SafeInteger(p.x) && SafeInteger(p.y) && SafeInteger(p.z) }

  predicate Inside(p: Int3, size: Int3) {
    0 <= p.x < size.x && 0 <= p.y < size.y && 0 <= p.z < size.z
  }

  function PositionError(p: Int3, size: Int3): Option<StructureError> {
    if !SafePosition(p) then Some(UnsafeInteger)
    else if !Inside(p, size) then Some(OutsideSize)
    else None
  }

  predicate PositionLeq(p: Int3, q: Int3) {
    p.x < q.x || (p.x == q.x && (p.y < q.y || (p.y == q.y && p.z <= q.z)))
  }

  predicate BlockLeq(b: Block, c: Block) { PositionLeq(b.pos, c.pos) }

  // ---------------------------------------------------------------------------------------------
  // Validation
  // ---------------------------------------------------------------------------------------------

  ghost predicate Distinct<T(!new), K>(s: seq<T>, key: T -> K) {
    forall i, j :: 0 <= i < j < |s| ==> key(s[i]) != key(s[j])
  }

  function EntryKey(e: PaletteEntry): string { e.key }
  function ComponentId(c: ComponentSpec): string { c.id }
  function ThemeId(t: Theme): string { t.id }
  function SocketId(s: Socket): string { s.id }
  function Itself(s: string): string { s }
  function Position(b: Block): Int3 { b.pos }

  function ComponentIds(components: seq<ComponentSpec>): set<string> {
    set c | c in components :: c.id
  }

  ghost predicate ValidTheme(host: Host, t: Theme) {
    SafeId(t.id) && !Blank(t.title) && forall k :: k in t.materials ==> host.knownMaterial(k, t.materials[k])
  }

  ghost predicate ValidSpec(host: Host, s: Spec) {
    && SafeId(s.id) && !Blank(s.title) && !Blank(s.description)
    && 0 < s.size.x <= 512 && 0 < s.size.y <= 512 && 0 < s.size.z <= 512
    && s.palette != [] && Distinct(s.palette, EntryKey)
    && (forall e :: e in s.palette ==> PaletteKey(e.key) && host.knownState(e.state))
    && Distinct(s.components, ComponentId) && (forall c :: c in s.components ==> SafeId(c.id) && !Blank(c.title))
    && Distinct(s.themes, ThemeId) && (forall t :: t in s.themes ==> ValidTheme(host, t))
    && (s.defaultTheme.Some? ==> exists t :: t in s.themes && t.id == s.defaultTheme.value)
    && (s.family.Some? ==> SafeId(s.family.value.id) && SafeId(s.family.value.member) && !Blank(s.family.value.title))
    && Distinct(s.tags, Itself) && (forall t :: t in s.tags ==> SafeId(t))
  }

  ghost predicate ValidBlock(s: Spec, b: Block) {
    && SafePosition(b.pos) && Inside(b.pos, s.size)
    && 0 <= b.palette < |s.palette|
    && forall id :: id in b.components ==> id in ComponentIds(s.components)
  }

  ghost predicate ValidMarker(s: Spec, m: Marker) {
    MarkerKind(m.kind) && PositionError(m.pos, s.size).None?
  }

  ghost predicate ValidSocket(s: Spec, k: Socket) {
    SafeId(k.id) && MarkerKind(k.kind) && PositionError(k.pos, s.size).None?
  }

  /** The array of an asset as a record again: of entries with one key the last. */
  function Merged(palette: seq<PaletteEntry>): seq<PaletteEntry> {
    if palette == [] then []
    else if palette[0].key in PaletteKeys(palette[1..]) then Merged(palette[1..])
    else [palette[0]] + Merged(palette[1..])
  }

  function PaletteKeys(palette: seq<PaletteEntry>): set<string> {
    set e | e in palette :: e.key
  }

  function MergedSpec(s: Spec): Spec {
    s.(palette := Merged(s.palette))
  }

  /** The specification is checked after merging the palette, the rest against the array. */
  ghost predicate ValidAsset(host: Host, a: Asset) {
    && ValidSpec(host, MergedSpec(a.spec))
    && (forall i :: 0 <= i < |a.blocks| ==> ValidBlock(a.spec, a.blocks[i]))
    && Distinct(a.blocks, Position)
    && (forall i :: 0 <= i < |a.markers| ==> ValidMarker(a.spec, a.markers[i]))
    && (forall i :: 0 <= i < |a.sockets| ==> ValidSocket(a.spec, a.sockets[i]))
    && Distinct(a.sockets, SocketId)
  }

  /** Whether every id is a safe one and no two entries share an id, collecting the ids met so far. */
  method UniqueIds<T(!new)>(entries: seq<T>, key: T -> string) returns (r: bool)
    ensures r <==> Distinct(entries, key) && forall e :: e in entries ==> SafeId(key(e))
  {
    hide SafeId;
    var ids: set<string> := {};
    for i := 0 to |entries|
      invariant ids == set k | 0 <= k < i :: key(entries[k])
      invariant Distinct(entries[..i], key)
      invariant forall k :: 0 <= k < i ==> SafeId(key(entries[k]))
    {
      if !SafeId(key(entries[i])) {
        assert entries[i] in entries;
        return false;
      }
      if key(entries[i]) in ids {
        return false;
      }
      ids := ids + {key(entries[i])};
    }
    assert entries[..|entries|] == entries;
    r := true;
  }

  method ValidateThemes(host: Host, themes: seq<Theme>) returns (r: bool)
    requires forall t :: t in themes ==> SafeId(t.id)
    ensures r <==> forall t :: t in themes ==> ValidTheme(host, t)
  {
    for i := 0 to |themes|
      invariant forall k :: 0 <= k < i ==> ValidTheme(host, themes[k])
    {
      var t := themes[i];
      if Blank(t.title) || exists k :: k in t.materials && !host.knownMaterial(k, t.materials[k]) {
        assert !ValidTheme(host, themes[i]);
        return false;
      }
    }
    r := true;
  }

  method ValidateStructureSpec(host: Host, s: Spec) returns (r: bool)
    requires Distinct(s.palette, EntryKey)
    ensures r <==> ValidSpec(host, s)
  {
    if !SafeId(s.id) || Blank(s.title) || Blank(s.description) {
      return false;
    }
    if s.size.x <= 0 || s.size.x > 512 || s.size.y <= 0 || s.size.y > 512 || s.size.z <= 0 || s.size.z > 512 {
      return false;
    }
    if s.palette == [] || exists e :: e in s.palette && !(PaletteKey(e.key) && host.knownState(e.state)) {
      return false;
    }
    var components := UniqueIds(s.components, ComponentId);
    var themes := UniqueIds(s.themes, ThemeId);
    if !components || !themes || exists c :: c in s.components && Blank(c.title) {
      return false;
    }
    var valid := ValidateThemes(host, s.themes);
    if !valid || (s.defaultTheme.Some? && forall t :: t in s.themes ==> t.id != s.defaultTheme.value) {
      return false;
    }
    if s.family.Some? && (!SafeId(s.family.value.id) || !SafeId(s.family.value.member) || Blank(s.family.value.title)) {
      return false;
    }
    r := UniqueIds(s.tags, Itself);
  }

  method ValidateBlocks(s: Spec, blocks: seq<Block>) returns (r: bool)
    ensures r <==> && (forall i :: 0 <= i < |blocks| ==> ValidBlock(s, blocks[i]))
                   && Distinct(blocks, Position)
  {
    var componentIds := ComponentIds(s.components);
    var positions: set<Int3> := {};
    for i := 0 to |blocks|
      invariant positions == set k | 0 <= k < i :: blocks[k].pos
      invariant forall k :: 0 <= k < i ==> ValidBlock(s, blocks[k])
      invariant forall k, l :: 0 <= k < l < i ==> blocks[k].pos != blocks[l].pos
    {
      var b := blocks[i];
      if !SafePosition(b.pos) || !Inside(b.pos, s.size) || b.palette < 0 || b.palette >= |s.palette| {
        assert !ValidBlock(s, blocks[i]);
        return false;
      }
      if b.pos in positions {
        return false;
      }
      positions := positions + {b.pos};
      if exists id :: id in b.components && id !in componentIds {
        assert !ValidBlock(s, blocks[i]);
        return false;
      }
    }
    r := true;
  }

  /** Accepts exactly the valid assets. */
  method AssertValidAuthoredStructure(host: Host, a: Asset) returns (r: Result<(), StructureError>)
    ensures r == if ValidAsset(host, a) then Success(())
            else Failure(if ValidSpec(host, MergedSpec(a.spec)) then InvalidAsset else InvalidSpec)
  {
    hide ValidSpec, ValidBlock, Distinct, MarkerKind, SafeId, PositionError, Merged;
    MergedKeepsLast(a.spec.palette);
    var specValid := ValidateStructureSpec(host, MergedSpec(a.spec));
    if !specValid {
      return Failure(InvalidSpec);
    }
    var blocksValid := ValidateBlocks(a.spec, a.blocks);
    if !blocksValid {
      return Failure(InvalidAsset);
    }
    for i := 0 to |a.markers|
      invariant forall k :: 0 <= k < i ==> ValidMarker(a.spec, a.markers[k])
    {
      var m := a.markers[i];
      if !MarkerKind(m.kind) || PositionError(m.pos, a.spec.size).Some? {
        assert !ValidMarker(a.spec, a.markers[i]);
        return Failure(InvalidAsset);
      }
    }
    var socketsValid := ValidateSockets(a.spec, a.sockets);
    return if socketsValid then Success(()) else Failure(InvalidAsset);
  }

  method ValidateSockets(s: Spec, sockets: seq<Socket>) returns (r: bool)
    ensures r <==> && (forall i :: 0 <= i < |sockets| ==> ValidSocket(s, sockets[i]))
                   && Distinct(sockets, SocketId)
  {
    hide MarkerKind, SafeId, PositionError;
    var socketIds: set<string> := {};
    for i := 0 to |sockets|
      invariant socketIds == set k | 0 <= k < i :: sockets[k].id
      invariant forall k :: 0 <= k < i ==> ValidSocket(s, sockets[k])
      invariant forall k, l :: 0 <= k < l < i ==> sockets[k].id != sockets[l].id
    {
      var socket := sockets[i];
      if !SafeId(socket.id) || !MarkerKind(socket.kind) || PositionError(socket.pos, s.size).Some? {
        assert !ValidSocket(s, sockets[i]);
        return false;
      }
      if socket.id in socketIds {
        return false;
      }
      socketIds := socketIds + {socket.id};
    }
    r := true;
  }

  // ---------------------------------------------------------------------------------------------
  // Palettes that repeat a key
  // ---------------------------------------------------------------------------------------------

  /** A later entry has the same key. */
  ghost predicate Shadowed(palette: seq<PaletteEntry>, i: nat)
    requires i < |palette|
  {
    exists j :: i < j < |palette| && palette[j].key == palette[i].key
  }

  predicate LegalEntry(host: Host, e: PaletteEntry) {
    PaletteKey(e.key) && host.knownState(e.state)
  }

  /** Merging keeps each key once, with the entry that no later one shadows. */
  lemma {:induction false} MergedKeepsLast(palette: seq<PaletteEntry>)
    ensures Distinct(Merged(palette), EntryKey) && PaletteKeys(Merged(palette)) == PaletteKeys(palette)
    ensures forall e :: e in Merged(palette) <==> IsLast(palette, e)
  {
    if palette != [] {
      var first, rest := palette[0], palette[1..];
      MergedKeepsLast(rest);
      hide Merged;
      FirstIsShadowed(palette);
      MergedFirst(palette);
      forall e ensures IsLast(palette, e) <==> IsLast(rest, e) || (e == first && first.key !in PaletteKeys(rest)) {
        LastShifts(palette, e);
      }
      hide IsLast, Shadowed;
      assert PaletteKeys(palette) == {first.key} + PaletteKeys(rest) by { assert palette == [first] + rest; }
      if first.key !in PaletteKeys(rest) {
        MergedDistinct(first, Merged(rest));
      }
    }
  }

  /** An entry of the palette that no later one shadows. */
  ghost predicate IsLast(palette: seq<PaletteEntry>, e: PaletteEntry) {
    exists i :: 0 <= i < |palette| && palette[i] == e && !Shadowed(palette, i)
  }

  lemma MergedFirst(palette: seq<PaletteEntry>)
    requires palette != []
    ensures Merged(palette)
            == (if palette[0].key in PaletteKeys(palette[1..]) then [] else [palette[0]]) + Merged(palette[1..])
  {
  }

  lemma MergedDistinct(first: PaletteEntry, rest: seq<PaletteEntry>)
    requires Distinct(rest, EntryKey) && first.key !in PaletteKeys(rest)
    ensures Distinct([first] + rest, EntryKey)
  {
    assert forall i :: 0 <= i < |rest| ==> rest[i] in rest;
  }

  lemma LastShifts(palette: seq<PaletteEntry>, e: PaletteEntry)
    requires palette != []
    ensures IsLast(palette, e) <==>
              IsLast(palette[1..], e) || (e == palette[0] && palette[0].key !in PaletteKeys(palette[1..]))
  {
    var rest := palette[1..];
    FirstIsShadowed(palette);
    forall i | 0 <= i < |rest| ensures Shadowed(rest, i) <==> Shadowed(palette, i + 1) {
      ShadowedShifts(palette, i);
    }
    hide Shadowed;
    if IsLast(palette, e) {
      var i :| 0 <= i < |palette| && palette[i] == e && !Shadowed(palette, i);
      assert i > 0 ==> rest[i - 1] == e && !Shadowed(rest, i - 1);
    }
    if IsLast(rest, e) {
      var i :| 0 <= i < |rest| && rest[i] == e && !Shadowed(rest, i);
      assert palette[i + 1] == e && !Shadowed(palette, i + 1);
    }
  }

  lemma ShadowedShifts(palette: seq<PaletteEntry>, i: nat)
    requires i + 1 < |palette|
    ensures Shadowed(palette[1..], i) <==> Shadowed(palette, i + 1)
  {
    if Shadowed(palette, i + 1) {
      var j :| i + 1 < j < |palette| && palette[j].key == palette[i + 1].key;
      assert palette[1..][j - 1].key == palette[1..][i].key;
    }
  }

  lemma FirstIsShadowed(palette: seq<PaletteEntry>)
    requires palette != []
    ensures Shadowed(palette, 0) <==> palette[0].key in PaletteKeys(palette[1..])
  {
    if palette[0].key in PaletteKeys(palette[1..]) {
      var j :| 0 <= j < |palette| - 1 && palette[1..][j].key == palette[0].key;
      assert palette[j + 1].key == palette[0].key;
    }
    if Shadowed(palette, 0) {
      var j :| 0 < j < |palette| && palette[j].key == palette[0].key;
      assert palette[j] == palette[1..][j - 1];
    }
  }

  lemma {:induction false} MergedIsItselfIff(palette: seq<PaletteEntry>)
    ensures Merged(palette) == palette <==> Distinct(palette, EntryKey)
    ensures |Merged(palette)| <= |palette|
  {
    if palette != [] {
      MergedIsItselfIff(palette[1..]);
      FirstIsShadowed(palette);
    }
  }

  /** The palette of an accepted asset is legal throughout exactly if its shadowed entries, which go unchecked, are. */
  lemma PaletteIsLegalIff(host: Host, a: Asset)
    requires ValidAsset(host, a)
    ensures (forall e :: e in a.spec.palette ==> LegalEntry(host, e)) <==>
              forall i :: 0 <= i < |a.spec.palette| && Shadowed(a.spec.palette, i) ==>
                host.knownState(a.spec.palette[i].state)
  {
    var palette := a.spec.palette;
    MergedKeepsLast(palette);
    MergedIsLegal(host, MergedSpec(a.spec));
    hide ValidAsset, Merged, LegalEntry, Shadowed;
    forall i | 0 <= i < |palette|
      ensures LegalEntry(host, palette[i]) <==> !Shadowed(palette, i) || host.knownState(palette[i].state)
    {
      EntryIsLegal(host, palette, i);
    }
  }

  lemma MergedIsLegal(host: Host, s: Spec)
    requires ValidSpec(host, s)
    ensures forall e :: e in s.palette ==> LegalEntry(host, e)
  {
    hide PaletteKey;
  }

  lemma EntryIsLegal(host: Host, palette: seq<PaletteEntry>, i: nat)
    requires i < |palette| && PaletteKeys(Merged(palette)) == PaletteKeys(palette)
    requires forall e :: e in Merged(palette) <==> IsLast(palette, e)
    requires forall e :: e in Merged(palette) ==> LegalEntry(host, e)
    ensures LegalEntry(host, palette[i]) <==> !Shadowed(palette, i) || host.knownState(palette[i].state)
  {
    hide Merged, PaletteKey, Shadowed;
    assert palette[i].key in PaletteKeys(palette);
    var e :| e in Merged(palette) && e.key == palette[i].key;
    assert LegalEntry(host, e);
    if !Shadowed(palette, i) {
      assert IsLast(palette, palette[i]);
    }
  }

  /** The specification of an accepted asset is itself valid exactly if no key is repeated. */
  lemma AcceptedSpecIsValidIff(host: Host, a: Asset)
    requires ValidAsset(host, a)
    ensures ValidSpec(host, a.spec) <==> Distinct(a.spec.palette, EntryKey)
  {
    MergedIsItselfIff(a.spec.palette);
  }

  /** Any state can be shadowed: in front of an accepted palette, under a key it has, with every block using it. */
  lemma ShadowedStateIsAccepted(host: Host, a: Asset, e: PaletteEntry)
    requires ValidAsset(host, a) && e.key in PaletteKeys(a.spec.palette)
    ensures ValidAsset(host, a.(
              spec := a.spec.(palette := [e] + a.spec.palette),
              blocks := seq(|a.blocks|, i requires 0 <= i < |a.blocks| => a.blocks[i].(palette := 0))))
  {
    var palette := [e] + a.spec.palette;
    assert palette[1..] == a.spec.palette && Merged(palette) == Merged(a.spec.palette);
    hide ValidSpec, Merged, SafePosition, MarkerKind, SafeId, PositionError, PaletteKeys, Distinct;
    var s := a.spec.(palette := palette);
    var blocks := seq(|a.blocks|, i requires 0 <= i < |a.blocks| => a.blocks[i].(palette := 0));
    assert MergedSpec(s) == MergedSpec(a.spec);
    forall i | 0 <= i < |blocks| ensures ValidBlock(s, blocks[i]) {
      assert ValidBlock(a.spec, a.blocks[i]);
    }
    assert Distinct(blocks, Position) by { SamePositions(a.blocks, blocks); }
    hide ValidBlock;
    forall i | 0 <= i < |a.markers| ensures ValidMarker(s, a.markers[i]) {
    }
    forall i | 0 <= i < |a.sockets| ensures ValidSocket(s, a.sockets[i]) {
    }
  }

  lemma SamePositions(s: seq<Block>, t: seq<Block>)
    requires Distinct(s, Position) && |s| == |t| && forall i :: 0 <= i < |s| ==> s[i].pos == t[i].pos
    ensures Distinct(t, Position)
  {
  }

  // ---------------------------------------------------------------------------------------------
  // Sorting keeps what validation asks for
  // ---------------------------------------------------------------------------------------------

  lemma SortKeepsDistinct<T(!new), K>(s: seq<T>, leq: (T, T) -> bool, key: T -> K)
    requires Distinct(s, key)
    ensures Distinct(Sort(s, leq), key)
  {
    var differ := (x: T, y: T) => key(x) != key(y);
    assert Pairwise(s, differ);
    SortKeepsPairwise(s, leq, differ);
    assert Pairwise(Sort(s, leq), differ);
    forall i, j | 0 <= i < j < |Sort(s, leq)| ensures key(Sort(s, leq)[i]) != key(Sort(s, leq)[j]) {
      assert differ(Sort(s, leq)[i], Sort(s, leq)[j]);
    }
  }

  function ByKey(locale: (string, string) -> bool): (PaletteEntry, PaletteEntry) -> bool {
    (a: PaletteEntry, b: PaletteEntry) => locale(a.key, b.key)
  }

  function ByComponent(locale: (string, string) -> bool): (ComponentSpec, ComponentSpec) -> bool {
    (a: ComponentSpec, b: ComponentSpec) => locale(a.id, b.id)
  }

  function ByTheme(locale: (string, string) -> bool): (Theme, Theme) -> bool {
    (a: Theme, b: Theme) => locale(a.id, b.id)
  }

  function BySocket(locale: (string, string) -> bool): (Socket, Socket) -> bool {
    (a: Socket, b: Socket) => locale(a.id, b.id)
  }

  /** The specification as it goes into the asset: trimmed and sorted. */
  function CanonicalSpec(host: Host, s: Spec): Spec {
    s.(title := Trim(s.title), description := Trim(s.description),
       palette := Sort(s.palette, ByKey(host.locale)), components := Sort(s.components, ByComponent(host.locale)),
       themes := Sort(s.themes, ByTheme(host.locale)), tags := Sort(s.tags, StringLeq))
  }

  /** Canonical form keeps a specification valid, and the components it declares. */
  lemma CanonicalSpecIsValid(host: Host, s: Spec)
    requires ValidSpec(host, s)
    ensures ValidSpec(host, CanonicalSpec(host, s))
    ensures ComponentIds(CanonicalSpec(host, s).components) == ComponentIds(s.components)
  {
    TrimIsIdempotent(s.title);
    TrimIsIdempotent(s.description);
    SortIsPermutation(s.palette, ByKey(host.locale));
    SortKeepsMembers(s.palette, ByKey(host.locale));
    SortKeepsDistinct(s.palette, ByKey(host.locale), EntryKey);
    SortKeepsMembers(s.components, ByComponent(host.locale));
    SortKeepsDistinct(s.components, ByComponent(host.locale), ComponentId);
    SortKeepsMembers(s.themes, ByTheme(host.locale));
    SortKeepsDistinct(s.themes, ByTheme(host.locale), ThemeId);
    SortKeepsMembers(s.tags, StringLeq);
    SortKeepsDistinct(s.tags, StringLeq, Itself);
    hide *;
    CanonicalFieldsAreValid(host, s);
  }

  /** The same entries, each before those whose names come later. */
  ghost predicate Arranged<T(!new)>(s: seq<T>, t: seq<T>, leq: (string, string) -> bool, name: T -> string) {
    multiset(t) == multiset(s) && forall i, j :: 0 <= i < j < |t| ==> leq(name(t[i]), name(t[j]))
  }

  /** Title and description trimmed, palette, components, themes and tags by name, and the rest as it was. */
  lemma CanonicalSpecIs(host: Host, s: Spec)
    requires TotalPreorder(host.locale)
    ensures var c := CanonicalSpec(host, s);
            && IsTrimmed(s.title, c.title) && IsTrimmed(s.description, c.description)
            && Arranged(s.palette, c.palette, host.locale, EntryKey)
            && Arranged(s.components, c.components, host.locale, ComponentId)
            && Arranged(s.themes, c.themes, host.locale, ThemeId)
            && Arranged(s.tags, c.tags, StringLeq, Itself)
            && c.id == s.id && c.size == s.size && c.defaultTheme == s.defaultTheme && c.family == s.family
  {
    TrimIs(s.title);
    TrimIs(s.description);
    SortedByName(s.palette, ByKey(host.locale), host.locale, EntryKey);
    SortedByName(s.components, ByComponent(host.locale), host.locale, ComponentId);
    SortedByName(s.themes, ByTheme(host.locale), host.locale, ThemeId);
    StringLeqIsTotalOrder();
    SortedByName(s.tags, StringLeq, StringLeq, Itself);
    hide Sort, Arranged, IsTrimmed, Trim;
  }

  lemma SortedByName<T(!new)>(s: seq<T>, order: (T, T) -> bool, leq: (string, string) -> bool, name: T -> string)
    requires TotalPreorder(leq) && forall x, y :: order(x, y) <==> leq(name(x), name(y))
    ensures Arranged(s, Sort(s, order), leq, name)
  {
    forall x, y, z | order(x, y) && order(y, z) ensures order(x, z) {
      assert leq(name(x), name(y)) && leq(name(y), name(z));
    }
    forall x, y ensures order(x, y) || order(y, x) {
      assert leq(name(x), name(y)) || leq(name(y), name(x));
    }
    SortIsSorted(s, order);
    SortIsPermutation(s, order);
    hide Sort;
    forall i, j | 0 <= i < j < |Sort(s, order)| ensures leq(name(Sort(s, order)[i]), name(Sort(s, order)[j])) {
      assert order(Sort(s, order)[i], Sort(s, order)[j]);
    }
  }

  lemma CanonicalFieldsAreValid(host: Host, s: Spec)
    requires ValidSpec(host, s)
    requires !Blank(Trim(s.title)) && !Blank(Trim(s.description))
    requires Distinct(Sort(s.palette, ByKey(host.locale)), EntryKey) && Sort(s.palette, ByKey(host.locale)) != []
    requires forall e :: e in Sort(s.palette, ByKey(host.locale)) <==> e in s.palette
    requires Distinct(Sort(s.components, ByComponent(host.locale)), ComponentId)
    requires forall c :: c in Sort(s.components, ByComponent(host.locale)) <==> c in s.components
    requires Distinct(Sort(s.themes, ByTheme(host.locale)), ThemeId)
    requires forall t :: t in Sort(s.themes, ByTheme(host.locale)) <==> t in s.themes
    requires Distinct(Sort(s.tags, StringLeq), Itself)
    requires forall t :: t in Sort(s.tags, StringLeq) <==> t in s.tags
    ensures ValidSpec(host, CanonicalSpec(host, s))
    ensures ComponentIds(CanonicalSpec(host, s).components) == ComponentIds(s.components)
  {
    hide Sort, Distinct, Blank, Trim, SafeId, PaletteKey, ValidTheme;
  }
}
