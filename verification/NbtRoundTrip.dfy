/**
 * What NBT decoding recovers: a reference encoder over tag trees, the round trip with its one exception,
 * and independence of the bytes beyond the view.
 */
module NbtRoundTrip {
  import opened Bytes
  import opened Outcomes
  import opened NbtFormat
  import Utf8 = ModifiedUtf8

  datatype Tag =
    | ByteTag(n: int)
    | ShortTag(n: int)
    | IntTag(n: int)
    | LongTag(n: int)
    | FloatTag(bits: seq<Byte>)
    | DoubleTag(bits: seq<Byte>)
    | ByteArrayTag(ns: seq<int>)
    | StringTag(units: Text)
    | ListTag(element: TagId, items: seq<Tag>)
    | CompoundTag(entries: seq<Entry>)
    | IntArrayTag(ns: seq<int>)
    | LongArrayTag(ns: seq<int>)

  datatype Entry = Entry(name: Text, tag: Tag)

  function Id(tag: Tag): TagId {
    match tag
    case ByteTag(_) => TAG_BYTE
    case ShortTag(_) => TAG_SHORT
    case IntTag(_) => TAG_INT
    case LongTag(_) => TAG_LONG
    case FloatTag(_) => TAG_FLOAT
    case DoubleTag(_) => TAG_DOUBLE
    case ByteArrayTag(_) => TAG_BYTE_ARRAY
    case StringTag(_) => TAG_STRING
    case ListTag(_, _) => TAG_LIST
    case CompoundTag(_) => TAG_COMPOUND
    case IntArrayTag(_) => TAG_INT_ARRAY
    case LongArrayTag(_) => TAG_LONG_ARRAY
  }

  // ---------------------------------------------------------------------------------------------
  // The reference encoder
  // ---------------------------------------------------------------------------------------------

  predicate TextFits(text: Text) {
    |Utf8.Encode(text)| < 0x1_0000
  }

  predicate AllFit(ns: seq<int>, width: nat) {
    |ns| < 0x8000_0000 && forall i :: 0 <= i < |ns| ==> Fits(ns[i], width)
  }

  predicate DistinctNames(entries: seq<Entry>) {
    forall i, j :: 0 <= i < j < |entries| ==> entries[i].name != entries[j].name
  }

  /** Every number, length and name fits the field it is written to, and the names of a compound are distinct. */
  predicate Encodable(tag: Tag)
    decreases tag, 1
  {
    match tag
    case ByteTag(n) => Fits(n, 1)
    case ShortTag(n) => Fits(n, 2)
    case IntTag(n) => Fits(n, 4)
    case LongTag(n) => Fits(n, 8)
    case FloatTag(bits) => |bits| == 4
    case DoubleTag(bits) => |bits| == 8
    case ByteArrayTag(ns) => AllFit(ns, 1)
    case IntArrayTag(ns) => AllFit(ns, 4)
    case LongArrayTag(ns) => AllFit(ns, 8)
    case StringTag(units) => TextFits(units)
    case ListTag(element, items) => |items| < 0x8000_0000 && EncodableItems(element, items)
    case CompoundTag(entries) => DistinctNames(entries) && EncodableEntries(entries)
  }

  predicate EncodableItems(element: TagId, items: seq<Tag>)
    decreases items, 0
  {
    items == [] || (Id(items[0]) == element && Encodable(items[0]) && EncodableItems(element, items[1..]))
  }

  predicate EncodableEntries(entries: seq<Entry>)
    decreases entries, 0
  {
    entries == [] || (TextFits(entries[0].name) && Encodable(entries[0].tag) && EncodableEntries(entries[1..]))
  }

  function TextBytes(text: Text): seq<Byte> {
    ToBigEndian(|Utf8.Encode(text)|, 2) + Utf8.Encode(text)
  }

  function NumberBytes(ns: seq<int>, width: nat): seq<Byte> {
    if ns == [] then [] else ToBigEndian(Magnitude(ns[0], width), width) + NumberBytes(ns[1..], width)
  }

  /** Two's complement, for the numbers that fit. */
  function Magnitude(n: int, width: nat): nat {
    if Unsigned(n, width) < 0 then 0 else Unsigned(n, width)
  }

  function ArrayBytes(ns: seq<int>, width: nat): seq<Byte> {
    ToBigEndian(|ns|, 4) + NumberBytes(ns, width)
  }

  function Payload(tag: Tag): seq<Byte>
    decreases tag, 1
  {
    match tag
    case ByteTag(n) => NumberBytes([n], 1)
    case ShortTag(n) => NumberBytes([n], 2)
    case IntTag(n) => NumberBytes([n], 4)
    case LongTag(n) => NumberBytes([n], 8)
    case FloatTag(bits) => bits
    case DoubleTag(bits) => bits
    case ByteArrayTag(ns) => ArrayBytes(ns, 1)
    case IntArrayTag(ns) => ArrayBytes(ns, 4)
    case LongArrayTag(ns) => ArrayBytes(ns, 8)
    case StringTag(units) => TextBytes(units)
    case ListTag(element, items) => [element] + ToBigEndian(|items|, 4) + ItemsPayload(items)
    case CompoundTag(entries) => EntriesPayload(entries)
  }

  function ItemsPayload(items: seq<Tag>): seq<Byte>
    decreases items, 0
  {
    if items == [] then [] else Payload(items[0]) + ItemsPayload(items[1..])
  }

  function EntriesPayload(entries: seq<Entry>): seq<Byte>
    decreases entries, 0
  {
    if entries == [] then [TAG_END]
    else [Id(entries[0].tag)] + TextBytes(entries[0].name) + Payload(entries[0].tag) + EntriesPayload(entries[1..])
  }

  /** A whole document: the root compound's tag, its name and its entries. */
  function Document(name: Text, entries: seq<Entry>): seq<Byte> {
    [TAG_COMPOUND] + TextBytes(name) + EntriesPayload(entries)
  }

  // ---------------------------------------------------------------------------------------------
  // What decoding gives, and what it should give
  // ---------------------------------------------------------------------------------------------

  /**
   * The tree with the widths of its whole numbers erased. With `all` false, without what an assignment to PROTO loses.
   */
  function Erased(tag: Tag, all: bool): Value
    decreases tag, 1
  {
    match tag
    case ByteTag(n) => Number(n)
    case ShortTag(n) => Number(n)
    case IntTag(n) => Number(n)
    case LongTag(n) => BigInt(n)
    case FloatTag(bits) => Float(bits)
    case DoubleTag(bits) => Double(bits)
    case ByteArrayTag(ns) => ByteArray(ns)
    case IntArrayTag(ns) => IntArray(ns)
    case LongArrayTag(ns) => LongArray(ns)
    case StringTag(units) => String(units)
    case ListTag(element, items) => List(element, ErasedItems(items, all))
    case CompoundTag(entries) => Compound(ErasedFields(entries, map[], all))
  }

  function ErasedItems(items: seq<Tag>, all: bool): (values: seq<Value>)
    ensures |values| == |items|
    decreases items, 0
  {
    if items == [] then [] else [Erased(items[0], all)] + ErasedItems(items[1..], all)
  }

  function ErasedFields(entries: seq<Entry>, fields: map<Text, Value>, all: bool): map<Text, Value>
    decreases entries, 0
  {
    if entries == [] then fields
    else
      var value := Erased(entries[0].tag, all);
      ErasedFields(
        entries[1..], if all then fields[entries[0].name := value] else Put(fields, entries[0].name, value), all)
  }

  /** Some compound of the tree has a field named PROTO. */
  predicate NamesProto(tag: Tag)
    decreases tag, 1
  {
    match tag
    case ListTag(_, items) => ItemsNameProto(items)
    case CompoundTag(entries) => EntriesNameProto(entries)
    case _ => false
  }

  predicate ItemsNameProto(items: seq<Tag>)
    decreases items, 0
  {
    items != [] && (NamesProto(items[0]) || ItemsNameProto(items[1..]))
  }

  predicate EntriesNameProto(entries: seq<Entry>)
    decreases entries, 0
  {
    entries != [] && (entries[0].name == PROTO || NamesProto(entries[0].tag) || EntriesNameProto(entries[1..]))
  }

  // ---------------------------------------------------------------------------------------------
  // Reading back what was written
  // ---------------------------------------------------------------------------------------------

  /** The bytes lie ahead, within the view, with `suffix` behind them. */
  ghost predicate Ahead(c: Cursor, bytes: seq<Byte>, suffix: seq<Byte>) {
    c.rest == bytes + suffix && |bytes| <= c.room
  }

  lemma AheadSplit(c: Cursor, head: seq<Byte>, tail: seq<Byte>, suffix: seq<Byte>)
    requires Ahead(c, head + tail, suffix)
    ensures Ahead(c, head, tail + suffix)
    ensures Ahead(Skip(c, |head|), tail, suffix)
    ensures Skip(Skip(c, |head|), |tail|) == Skip(c, |head + tail|)
  {
    assert (head + tail) + suffix == head + (tail + suffix);
  }

  lemma TakeAhead(c: Cursor, bytes: seq<Byte>, suffix: seq<Byte>)
    requires Ahead(c, bytes, suffix)
    ensures Take(c, |bytes|) == Success((bytes, Skip(c, |bytes|)))
  {
  }

  lemma ReadUnsignedAhead(c: Cursor, n: nat, width: nat, suffix: seq<Byte>)
    requires n < Pow256(width) && Ahead(c, ToBigEndian(n, width), suffix)
    ensures Take(c, width) == Success((ToBigEndian(n, width), Skip(c, width))) && BigEndian(ToBigEndian(n, width)) == n
  {
    TakeAhead(c, ToBigEndian(n, width), suffix);
    BigEndianRoundTrip(n, width);
  }

  lemma ReadSignedAhead(c: Cursor, n: int, width: nat, suffix: seq<Byte>)
    requires Fits(n, width) && Ahead(c, ToBigEndian(Magnitude(n, width), width), suffix)
    ensures ReadSigned(c, width) == Success((n, Skip(c, width)))
  {
    ReadUnsignedAhead(c, Magnitude(n, width), width, suffix);
    SignedRoundTrip(n, width);
  }

  lemma ReadCountAhead(c: Cursor, n: nat, suffix: seq<Byte>)
    requires n < 0x8000_0000 && Ahead(c, ToBigEndian(n, 4), suffix)
    ensures ReadSigned(c, 4) == Success((n, Skip(c, 4)))
  {
    SmallPowers();
    ReadSignedAhead(c, n, 4, suffix);
  }

  lemma {:induction false} ReadNumbersAhead(c: Cursor, ns: seq<int>, width: nat, suffix: seq<Byte>)
    requires AllFit(ns, width) && Ahead(c, NumberBytes(ns, width), suffix)
    ensures ReadNumbers(c, width, |ns|) == Success((ns, Skip(c, |NumberBytes(ns, width)|)))
    decreases |ns|
  {
    hide ReadSigned, Fits, Magnitude;
    if ns != [] {
      var head := ToBigEndian(Magnitude(ns[0], width), width);
      AheadSplit(c, head, NumberBytes(ns[1..], width), suffix);
      ReadSignedAhead(c, ns[0], width, NumberBytes(ns[1..], width) + suffix);
      ReadNumbersAhead(Skip(c, width), ns[1..], width, suffix);
      assert [ns[0]] + ns[1..] == ns;
    }
  }

  lemma ReadOneAhead(c: Cursor, n: int, width: nat, suffix: seq<Byte>)
    requires Fits(n, width) && Ahead(c, NumberBytes([n], width), suffix)
    ensures ReadSigned(c, width) == Success((n, Skip(c, |NumberBytes([n], width)|)))
  {
    assert [n][1..] == [];
    assert NumberBytes([n], width) == ToBigEndian(Magnitude(n, width), width);
    ReadSignedAhead(c, n, width, suffix);
  }

  lemma ReadArrayAhead(c: Cursor, ns: seq<int>, width: nat, suffix: seq<Byte>)
    requires AllFit(ns, width) && Ahead(c, ArrayBytes(ns, width), suffix)
    ensures ReadArray(c, width) == Success((ns, Skip(c, |ArrayBytes(ns, width)|)))
  {
    AheadSplit(c, ToBigEndian(|ns|, 4), NumberBytes(ns, width), suffix);
    ReadCountAhead(c, |ns|, NumberBytes(ns, width) + suffix);
    ReadNumbersAhead(Skip(c, 4), ns, width, suffix);
  }

  lemma ReadTextAhead(c: Cursor, text: Text, suffix: seq<Byte>)
    requires TextFits(text) && Ahead(c, TextBytes(text), suffix)
    ensures ReadText(c) == Success((text, Skip(c, |TextBytes(text)|)))
  {
    hide Utf8.Encode, Utf8.Decode, ToBigEndian, BigEndian, Take, Ahead;
    var bytes := Utf8.Encode(text);
    SmallPowers();
    AheadSplit(c, ToBigEndian(|bytes|, 2), bytes, suffix);
    ReadUnsignedAhead(c, |bytes|, 2, bytes + suffix);
    PrefixAhead(Skip(c, 2), bytes, suffix);
    Utf8.DecodeInvertsEncode(text);
  }

  lemma PrefixAhead(c: Cursor, bytes: seq<Byte>, suffix: seq<Byte>)
    requires Ahead(c, bytes, suffix)
    ensures |bytes| <= |c.rest| && c.rest[..|bytes|] == bytes
  {
  }

  lemma ReadTagIdAhead(c: Cursor, tag: TagId, suffix: seq<Byte>)
    requires Ahead(c, [tag], suffix)
    ensures ReadTagId(c) == Success((tag, Skip(c, 1)))
  {
    TakeAhead(c, [tag], suffix);
  }

  /** Reading the payload of an encodable tag gives its erased value and stops exactly at its end. */
  lemma {:induction false} ReadPayload(c: Cursor, tag: Tag, suffix: seq<Byte>)
    requires Encodable(tag) && Ahead(c, Payload(tag), suffix)
    ensures ReadValue(Id(tag), c) == Success((Erased(tag, false), Skip(c, |Payload(tag)|)))
    decreases tag, 1
  {
    hide Ahead, ReadSigned, ReadArray, ReadText, Take, Fits, NumberBytes, ArrayBytes;
    match tag
    case ByteTag(n) => ReadOneAhead(c, n, 1, suffix);
    case ShortTag(n) => ReadOneAhead(c, n, 2, suffix);
    case IntTag(n) => ReadOneAhead(c, n, 4, suffix);
    case LongTag(n) => ReadOneAhead(c, n, 8, suffix);
    case FloatTag(bits) => TakeAhead(c, bits, suffix);
    case DoubleTag(bits) => TakeAhead(c, bits, suffix);
    case ByteArrayTag(ns) => ReadArrayAhead(c, ns, 1, suffix);
    case IntArrayTag(ns) => ReadArrayAhead(c, ns, 4, suffix);
    case LongArrayTag(ns) => ReadArrayAhead(c, ns, 8, suffix);
    case StringTag(units) => ReadTextAhead(c, units, suffix);
    case ListTag(element, items) => ReadListPayload(c, element, items, suffix);
    case CompoundTag(entries) => ReadEntriesPayload(c, entries, map[], suffix);
  }

  lemma {:induction false} ReadListPayload(c: Cursor, element: TagId, items: seq<Tag>, suffix: seq<Byte>)
    requires |items| < 0x8000_0000 && EncodableItems(element, items)
    requires Ahead(c, [element] + ToBigEndian(|items|, 4) + ItemsPayload(items), suffix)
    ensures ReadList(c) == Success((List(element, ErasedItems(items, false)),
                                    Skip(c, |[element] + ToBigEndian(|items|, 4) + ItemsPayload(items)|)))
    decreases items, 2
  {
    hide Ahead, ReadSigned, Take, Payload, Encodable;
    var count, body := ToBigEndian(|items|, 4), ItemsPayload(items);
    assert [element] + count + body == [element] + (count + body);
    AheadSplit(c, [element], count + body, suffix);
    ReadTagIdAhead(c, element, (count + body) + suffix);
    AheadSplit(Skip(c, 1), count, body, suffix);
    ReadCountAhead(Skip(c, 1), |items|, body + suffix);
    ReadItemsPayload(Skip(Skip(c, 1), 4), element, items, suffix);
    if items != [] {
      assert element != TAG_END;
    }
  }

  lemma {:induction false} ReadItemsPayload(c: Cursor, element: TagId, items: seq<Tag>, suffix: seq<Byte>)
    requires EncodableItems(element, items) && Ahead(c, ItemsPayload(items), suffix)
    ensures ReadItems(element, |items|, c) == Success((ErasedItems(items, false), Skip(c, |ItemsPayload(items)|)))
    decreases items, 1
  {
    hide Ahead, ReadValue, Payload, Encodable, Erased;
    if items != [] {
      AheadSplit(c, Payload(items[0]), ItemsPayload(items[1..]), suffix);
      ReadPayload(c, items[0], ItemsPayload(items[1..]) + suffix);
      ReadItemsPayload(Skip(c, |Payload(items[0])|), element, items[1..], suffix);
    }
  }

  lemma {:induction false} ReadEntriesPayload(
      c: Cursor, entries: seq<Entry>, fields: map<Text, Value>, suffix: seq<Byte>)
    requires EncodableEntries(entries) && Ahead(c, EntriesPayload(entries), suffix)
    ensures ReadFields(c, fields) == Success((ErasedFields(entries, fields, false), Skip(c, |EntriesPayload(entries)|)))
    decreases entries, 1
  {
    hide Ahead, ReadValue, ReadText, Take, Payload, Encodable, Erased, TextFits, TextBytes, Put;
    if entries == [] {
      ReadTagIdAhead(c, TAG_END, suffix);
    } else {
      var id, name, payload, rest := [Id(entries[0].tag)], TextBytes(entries[0].name), Payload(entries[0].tag),
        EntriesPayload(entries[1..]);
      assert id + name + payload + rest == id + (name + (payload + rest));
      AheadSplit(c, id, name + (payload + rest), suffix);
      ReadTagIdAhead(c, id[0], (name + (payload + rest)) + suffix);
      AheadSplit(Skip(c, 1), name, payload + rest, suffix);
      ReadTextAhead(Skip(c, 1), entries[0].name, (payload + rest) + suffix);
      var afterName := Skip(Skip(c, 1), |name|);
      AheadSplit(afterName, payload, rest, suffix);
      ReadPayload(afterName, entries[0].tag, rest + suffix);
      ReadEntriesPayload(Skip(afterName, |payload|), entries[1..],
          Put(fields, entries[0].name, Erased(entries[0].tag, false)), suffix);
    }
  }

  // ---------------------------------------------------------------------------------------------
  // The one exception: PROTO
  // ---------------------------------------------------------------------------------------------

  ghost predicate Named(entries: seq<Entry>, name: Text) {
    exists i :: 0 <= i < |entries| && entries[i].name == name
  }

  /** The fields decoded from entries with distinct names: all the names but PROTO, each with its own value. */
  lemma {:induction false} FieldsOf(entries: seq<Entry>, fields: map<Text, Value>, all: bool)
    requires DistinctNames(entries)
    ensures var result := ErasedFields(entries, fields, all);
            && (forall name :: name in result <==> name in fields || (Named(entries, name) && (all || name != PROTO)))
            && (forall i :: 0 <= i < |entries| && (all || entries[i].name != PROTO) ==>
                 result[entries[i].name] == Erased(entries[i].tag, all))
            && (forall name :: name in fields && !(Named(entries, name) && (all || name != PROTO)) ==>
                 result[name] == fields[name])
    decreases |entries|
  {
    hide Erased;
    if entries != [] {
      var name, rest := entries[0].name, entries[1..];
      var value := Erased(entries[0].tag, all);
      var next := if all then fields[name := value] else Put(fields, name, value);
      FieldsOf(rest, next, all);
      forall other ensures Named(entries, other) <==> other == name || Named(rest, other) {
        if Named(rest, other) {
          var i :| 0 <= i < |rest| && rest[i].name == other;
          assert entries[i + 1].name == other;
        }
        if Named(entries, other) && other != name {
          var i :| 0 <= i < |entries| && entries[i].name == other;
          assert rest[i - 1].name == other;
        }
      }
      assert !Named(rest, name);
      forall i | 0 <= i < |entries| && (all || entries[i].name != PROTO)
        ensures entries[i].name in ErasedFields(entries, fields, all)
        ensures ErasedFields(entries, fields, all)[entries[i].name] == Erased(entries[i].tag, all)
      {
        if i > 0 {
          assert rest[i - 1] == entries[i];
        }
      }
    }
  }

  lemma {:induction false} EntriesNameProtoIff(entries: seq<Entry>)
    ensures EntriesNameProto(entries)
       <==> exists i :: 0 <= i < |entries| && (entries[i].name == PROTO || NamesProto(entries[i].tag))
    decreases |entries|
  {
    hide NamesProto;
    if entries != [] {
      EntriesNameProtoIff(entries[1..]);
      if exists i :: 0 <= i < |entries| && (entries[i].name == PROTO || NamesProto(entries[i].tag)) {
        var i :| 0 <= i < |entries| && (entries[i].name == PROTO || NamesProto(entries[i].tag));
        assert i > 0 ==> entries[1..][i - 1] == entries[i];
      }
      if EntriesNameProto(entries[1..]) {
        var i :| 0 <= i < |entries[1..]| && (entries[1..][i].name == PROTO || NamesProto(entries[1..][i].tag));
        assert entries[i + 1] == entries[1..][i];
      }
    }
  }

  lemma {:induction false} EncodableEach(entries: seq<Entry>, i: nat)
    requires EncodableEntries(entries) && i < |entries|
    ensures Encodable(entries[i].tag)
    decreases |entries|
  {
    hide Encodable;
    if i > 0 {
      EncodableEach(entries[1..], i - 1);
    }
  }

  /** Decoding loses nothing of a tree exactly when none of its compounds has a field named PROTO. */
  lemma {:induction false} KeptIff(tag: Tag)
    requires Encodable(tag)
    ensures Erased(tag, false) == Erased(tag, true) <==> !NamesProto(tag)
    decreases tag, 1
  {
    match tag
    case ListTag(element, items) => ItemsKeptIff(element, items);
    case CompoundTag(entries) => EntriesKeptIff(entries);
    case _ =>
  }

  lemma {:induction false} ItemsKeptIff(element: TagId, items: seq<Tag>)
    requires EncodableItems(element, items)
    ensures ErasedItems(items, false) == ErasedItems(items, true) <==> !ItemsNameProto(items)
    decreases items, 0
  {
    hide Erased, NamesProto, Encodable;
    if items != [] {
      KeptIff(items[0]);
      ItemsKeptIff(element, items[1..]);
      var kept, whole := ErasedItems(items, false), ErasedItems(items, true);
      assert kept[0] == Erased(items[0], false) && kept[1..] == ErasedItems(items[1..], false);
      assert whole[0] == Erased(items[0], true) && whole[1..] == ErasedItems(items[1..], true);
      if kept == whole {
        assert kept[1..] == whole[1..];
      }
    }
  }

  lemma {:induction false} EntriesKeptIff(entries: seq<Entry>)
    requires DistinctNames(entries) && EncodableEntries(entries)
    ensures ErasedFields(entries, map[], false) == ErasedFields(entries, map[], true) <==> !EntriesNameProto(entries)
    decreases entries, 0
  {
    hide Erased, NamesProto, Encodable, ErasedFields, EncodableEntries, EntriesNameProto, Named;
    var kept, whole := ErasedFields(entries, map[], false), ErasedFields(entries, map[], true);
    FieldsOf(entries, map[], false);
    FieldsOf(entries, map[], true);
    EntriesNameProtoIff(entries);
    forall i | 0 <= i < |entries|
      ensures Erased(entries[i].tag, false) == Erased(entries[i].tag, true) <==> !NamesProto(entries[i].tag)
      ensures Named(entries, entries[i].name)
    {
      EncodableEach(entries, i);
      KeptIff(entries[i].tag);
      NamedAt(entries, i);
    }
    if EntriesNameProto(entries) {
      var i :| 0 <= i < |entries| && (entries[i].name == PROTO || NamesProto(entries[i].tag));
      assert entries[i].name in whole;
      if entries[i].name == PROTO {
        assert PROTO !in kept;
      } else {
        assert kept[entries[i].name] != whole[entries[i].name];
      }
    } else {
      forall name | name in whole ensures name in kept && kept[name] == whole[name] {
        var i := IndexOf(entries, name);
      }
      assert kept == whole;
    }
  }

  lemma NamedAt(entries: seq<Entry>, i: nat)
    requires i < |entries|
    ensures Named(entries, entries[i].name)
  {
  }

  lemma IndexOf(entries: seq<Entry>, name: Text) returns (i: nat)
    requires Named(entries, name)
    ensures i < |entries| && entries[i].name == name
  {
    i :| 0 <= i < |entries| && entries[i].name == name;
  }

  /** Decoding a document consumes exactly its bytes and gives its name and the erased tree, short of PROTO fields. */
  lemma DocumentRoundTrip(name: Text, entries: seq<Entry>, suffix: seq<Byte>)
    requires TextFits(name) && Encodable(CompoundTag(entries))
    ensures var bytes := Document(name, entries);
            ReadRoot(RawCursor(bytes + suffix, |bytes + suffix|))
            == Success((NamedNbt(name, Erased(CompoundTag(entries), false)), RawCursor(suffix, |suffix|)))
  {
    hide ReadText, ReadFields, TextBytes, EntriesPayload, TextFits, Erased, Encodable;
    var id: seq<Byte>, title, body := [TAG_COMPOUND], TextBytes(name), EntriesPayload(entries);
    var bytes := Document(name, entries);
    var c := RawCursor(bytes + suffix, |bytes + suffix|);
    assert bytes == id + (title + body) && Payload(CompoundTag(entries)) == body;
    AheadSplit(c, id, title + body, suffix);
    ReadTagIdAhead(c, TAG_COMPOUND, (title + body) + suffix);
    AheadSplit(Skip(c, 1), title, body, suffix);
    ReadTextAhead(Skip(c, 1), name, body + suffix);
    ReadPayload(Skip(Skip(c, 1), |title|), CompoundTag(entries), suffix);
  }

  /** The round trip of the whole tree holds exactly when no field of it is named PROTO. */
  lemma DocumentRoundTripIff(name: Text, entries: seq<Entry>)
    requires TextFits(name) && Encodable(CompoundTag(entries))
    ensures var bytes := Document(name, entries);
            ReadRoot(RawCursor(bytes, |bytes|))
            == Success((NamedNbt(name, Erased(CompoundTag(entries), true)), RawCursor([], 0)))
            <==> !NamesProto(CompoundTag(entries))
  {
    hide ReadRoot, Erased, Document, NamesProto, Encodable, TextFits;
    DocumentRoundTrip(name, entries, []);
    assert Document(name, entries) + [] == Document(name, entries);
    KeptIff(CompoundTag(entries));
  }
}
