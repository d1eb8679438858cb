/** One section of a chunk: sixteen cubed block indices, packed at the width its palette needs. */
module ChunkSection {
  import opened Outcomes
  import opened Words
  import opened BitStorages

  const BLOCKS_PER_SECTION := 4096

  datatype Section<+P> = Section(y: int, palette: seq<P>, blocks: seq<nat>)

  datatype SectionError = Storage(error: StorageError) | PaletteIndexOutOfRange(index: nat)

  /** The width the section decoder chooses. */
  function SectionBits(paletteSize: nat): (bits: nat)
    requires paletteSize >= 1
    ensures 4 <= bits <= 32
  {
    PaletteBitsInRange(paletteSize);
    if PaletteBits(paletteSize) < 4 then 4 else PaletteBits(paletteSize)
  }

  function Zeros(): (blocks: seq<nat>)
    ensures |blocks| == BLOCKS_PER_SECTION && forall i :: 0 <= i < |blocks| ==> blocks[i] == 0
  {
    seq(BLOCKS_PER_SECTION, _ => 0)
  }

  /** What the decoder reads as the section's blocks, before it checks them against the palette. */
  function Unpacked(paletteSize: nat, packed: Option<seq<int>>): Option<seq<nat>> {
    match packed
    case None => Some(Zeros())
    case Some(words) =>
      if paletteSize >= 1 && Shaped(words, SectionBits(paletteSize), BLOCKS_PER_SECTION)
      then Some(Slots(words, SectionBits(paletteSize), BLOCKS_PER_SECTION))
      else None
  }

  /** The width for a palette, in plain terms. */
  predicate IsWidth(paletteSize: nat, bits: nat) {
    if paletteSize <= 16 then bits == 4 else bits > 0 && Pow2(bits - 1) < paletteSize <= Pow2(bits)
  }

  lemma SectionBitsIsWidth(paletteSize: nat, bits: nat)
    requires 1 <= paletteSize <= 0x1_0000_0000
    ensures IsWidth(paletteSize, bits) <==> bits == SectionBits(paletteSize)
  {
    PowersOfFour();
    if paletteSize > 1 {
      PaletteBitsIsLeastIff(paletteSize);
      var least := PaletteBits(paletteSize);
      if paletteSize > 16 {
        if least < 4 {
          Pow2Monotone(least, 4);
        }
        if IsWidth(paletteSize, bits) {
          LeastWidthIsUnique(paletteSize, bits, least);
        }
      } else if least > 4 {
        Pow2Monotone(4, least - 1);
      }
    }
  }

  lemma PowersOfFour()
    ensures Pow2(4) == 16
  {
    assert Pow2(1) == 2 && Pow2(2) == 4 && Pow2(3) == 8;
  }

  /** The words are as many as that width needs, and lay out indices of the palette. */
  ghost predicate PacksIndices(words: seq<int>, paletteSize: nat, bits: nat, indices: seq<nat>) {
    && IsWidth(paletteSize, bits) && RightLength(|words|, bits, 4096)
    && |indices| == 4096 && LaidOut(words, bits, indices)
    && forall i :: 0 <= i < |indices| ==> indices[i] < paletteSize
  }

  lemma UnpackedIsPlain(paletteSize: nat, words: seq<int>)
    requires 1 <= paletteSize <= 0x1_0000_0000 && forall c :: 0 <= c < |words| ==> IsInt64(words[c])
    ensures forall bits, indices ::
              PacksIndices(words, paletteSize, bits, indices) <==>
                && bits == SectionBits(paletteSize) && Unpacked(paletteSize, Some(words)) == Some(indices)
                && forall i :: 0 <= i < |indices| ==> indices[i] < paletteSize
  {
    var width := SectionBits(paletteSize);
    RightLengthIs(|words|, width, BLOCKS_PER_SECTION);
    forall bits: nat, indices: seq<nat>
      ensures PacksIndices(words, paletteSize, bits, indices) <==>
                && bits == SectionBits(paletteSize) && Unpacked(paletteSize, Some(words)) == Some(indices)
                && forall i :: 0 <= i < |indices| ==> indices[i] < paletteSize
    {
      SectionBitsIsWidth(paletteSize, bits);
      hide IsWidth, RightLength, LaidOut, SectionBits, WordCount, Slots;
      if Shaped(words, width, BLOCKS_PER_SECTION) && |indices| == BLOCKS_PER_SECTION {
        SlotsAreLaidOut(words, width, BLOCKS_PER_SECTION, indices);
      }
    }
  }

  lemma DecodedIsPlain(paletteSize: nat, words: seq<int>)
    requires 1 <= paletteSize <= 0x1_0000_0000 && forall c :: 0 <= c < |words| ==> IsInt64(words[c])
    ensures var blocks := Unpacked(paletteSize, Some(words));
            var ok := blocks.Some? && forall i :: 0 <= i < |blocks.value| ==> blocks.value[i] < paletteSize;
            && (ok <==> exists bits, indices :: PacksIndices(words, paletteSize, bits, indices))
            && (ok ==> exists bits :: PacksIndices(words, paletteSize, bits, blocks.value))
  {
    UnpackedIsPlain(paletteSize, words);
    hide PacksIndices, SectionBits, Unpacked;
    var blocks := Unpacked(paletteSize, Some(words));
    if blocks.Some? && forall i :: 0 <= i < |blocks.value| ==> blocks.value[i] < paletteSize {
      assert PacksIndices(words, paletteSize, SectionBits(paletteSize), blocks.value);
    }
    if bits: nat, indices :| PacksIndices(words, paletteSize, bits, indices) {
      assert blocks == Some(indices);
    }
  }

  /**
   * `palette` and `packed` are the section's fields after their types have been checked; packed words come from
   * a long array, so they are signed 64-bit numbers.
   */
  method DecodeSection<P>(y: int, palette: Option<seq<P>>, packed: Option<seq<int>>)
    returns (r: Result<Option<Section<P>>, SectionError>)
    requires packed.Some? ==> forall c :: 0 <= c < |packed.value| ==> IsInt64(packed.value[c])
    ensures palette.None? ==> r == Success(None)
    ensures palette.Some? ==>
      var blocks := Unpacked(|palette.value|, packed);
      && (r.Success? <==> blocks.Some? && forall i :: 0 <= i < |blocks.value| ==> blocks.value[i] < |palette.value|)
      && (r.Success? ==> r.value == Some(Section(y, palette.value, blocks.value)))
    ensures palette.Some? && packed.None? ==>
      r == if |palette.value| == 0 then Failure(PaletteIndexOutOfRange(0))
           else Success(Some(Section(y, palette.value, Zeros())))
    ensures palette.Some? && packed.Some? && |palette.value| == 0 ==> r == Failure(Storage(BadPaletteSize(0)))
    ensures palette.Some? && packed.Some? && 1 <= |palette.value| <= 0x1_0000_0000 ==>
      && (r.Success? <==> exists bits, indices :: PacksIndices(packed.value, |palette.value|, bits, indices))
      && (r.Success? ==> exists bits ::
            r.value.Some? && PacksIndices(packed.value, |palette.value|, bits, r.value.value.blocks))
  {
    hide PacksIndices, Slots, WordCount, LaidOut, Zeros;
    if palette.Some? && packed.Some? && 1 <= |palette.value| <= 0x1_0000_0000 {
      DecodedIsPlain(|palette.value|, packed.value);
    }
    if palette.None? {
      return Success(None);
    }
    var blocks: seq<nat>;
    if packed.None? {
      blocks := Zeros();
    } else {
      var width := PaletteBitsFor(|palette.value|);
      if width.Failure? {
        return Failure(Storage(width.error));
      }
      var bits := if width.value < 4 then 4 else width.value;
      PaletteBitsInRange(|palette.value|);
      var unpacked := UnpackBitStorage(packed.value, bits, BLOCKS_PER_SECTION);
      if unpacked.Failure? {
        return Failure(Storage(unpacked.error));
      }
      blocks := unpacked.value;
    }
    for i := 0 to |blocks|
      invariant forall j :: 0 <= j < i ==> blocks[j] < |palette.value|
    {
      if blocks[i] >= |palette.value| {
        return Failure(PaletteIndexOutOfRange(blocks[i]));
      }
    }
    assert |blocks| > 0 ==> blocks[0] < |palette.value|;
    r := Success(Some(Section(y, palette.value, blocks)));
  }

  // ---------------------------------------------------------------------------------------------
  // Round trip
  // ---------------------------------------------------------------------------------------------

  /** The words after setting slots `i`, `i + 1`, ... in turn. */
  function Packed(words: seq<int>, bits: nat, size: nat, values: seq<nat>, i: nat): seq<int>
    requires Shaped(words, bits, size) && |values| == size && i <= size
    requires forall j :: 0 <= j < size ==> values[j] < Pow2(bits)
    decreases size - i
  {
    if i == size then words
    else
      UpdateSetsOneSlot(words, bits, size, i, values[i]);
      Packed(Updated(words, bits, size, i, values[i]), bits, size, values, i + 1)
  }

  lemma {:induction false} PackedHoldsValues(words: seq<int>, bits: nat, size: nat, values: seq<nat>, i: nat)
    requires Shaped(words, bits, size) && |values| == size && i <= size
    requires forall j :: 0 <= j < size ==> values[j] < Pow2(bits)
    requires Slots(words, bits, size)[..i] == values[..i]
    ensures Shaped(Packed(words, bits, size, values, i), bits, size)
    ensures Slots(Packed(words, bits, size, values, i), bits, size) == values
    decreases size - i
  {
    hide Slots, Shaped, Updated, Pow2;
    if i < size {
      UpdateSetsOneSlot(words, bits, size, i, values[i]);
      var before, after := Slots(words, bits, size), Slots(words, bits, size)[i := values[i]];
      assert after[..i + 1] == before[..i] + [values[i]] && values[..i + 1] == values[..i] + [values[i]];
      PackedHoldsValues(Updated(words, bits, size, i, values[i]), bits, size, values, i + 1);
    } else {
      assert Slots(words, bits, size)[..size] == Slots(words, bits, size) && values[..size] == values;
    }
  }

  /** A storage object filled slot by slot ends up holding exactly the given values. */
  method PackIndices(storage: BitStorage, values: seq<nat>)
    requires storage.Valid() && |values| == storage.size
    requires forall j :: 0 <= j < |values| ==> values[j] < Pow2(storage.bits)
    modifies storage.data
    ensures storage.Valid() && storage.Values() == values
    ensures storage.data[..] == Packed(old(storage.data[..]), storage.bits, storage.size, values, 0)
  {
    ghost var start := storage.data[..];
    for i := 0 to |values|
      invariant storage.Valid()
      invariant storage.Values()[..i] == values[..i]
      invariant Packed(storage.data[..], storage.bits, storage.size, values, i)
                == Packed(start, storage.bits, storage.size, values, 0)
    {
      ghost var before := storage.Values();
      hide Slots, Pow2, Updated;
      var _ := storage.Set(i, values[i]);
      assert storage.Values()[..i + 1] == before[..i] + [values[i]];
    }
    assert storage.Values()[..|values|] == storage.Values();
  }

  /**
   * Any in-range indices, packed over whatever the words held before at the width the palette needs, come back
   * unchanged. The palette may have up to 2^32 entries: beyond that its own width cannot name all of them.
   */
  lemma SectionRoundTrip(paletteSize: nat, words: seq<int>, indices: seq<nat>)
    requires 1 <= paletteSize <= 0x1_0000_0000
    requires Shaped(words, SectionBits(paletteSize), BLOCKS_PER_SECTION)
    requires |indices| == BLOCKS_PER_SECTION && forall i :: 0 <= i < |indices| ==> indices[i] < paletteSize
    ensures forall i :: 0 <= i < |indices| ==> indices[i] < Pow2(SectionBits(paletteSize))
    ensures Unpacked(paletteSize, Some(Packed(words, SectionBits(paletteSize), BLOCKS_PER_SECTION, indices, 0)))
            == Some(indices)
  {
    var bits := SectionBits(paletteSize);
    PaletteFits(paletteSize);
    hide Slots, Pow2, SectionBits;
    assert Slots(words, bits, BLOCKS_PER_SECTION)[..0] == indices[..0];
    PackedHoldsValues(words, bits, BLOCKS_PER_SECTION, indices, 0);
  }

  lemma PaletteFits(paletteSize: nat)
    requires 1 <= paletteSize <= 0x1_0000_0000
    ensures paletteSize <= Pow2(SectionBits(paletteSize))
  {
    if paletteSize >= 2 {
      PaletteBitsIsLeastIff(paletteSize);
    }
    PaletteBitsInRange(paletteSize);
    Pow2Monotone(PaletteBits(paletteSize), SectionBits(paletteSize));
  }
}
