/** The NBT wire format byte by byte: tag numbers, widths, byte order, signs and the forms of characters. */
module NbtWire {
  import opened Bytes
  import opened Outcomes
  import opened NbtFormat
  import Utf8 = ModifiedUtf8

  // ---------------------------------------------------------------------------------------------
  // Numbers
  // ---------------------------------------------------------------------------------------------

  function TwoBytes(b: seq<Byte>): nat
    requires |b| >= 2
  {
    (b[0] as int) * 256 + b[1]
  }

  function FourBytes(b: seq<Byte>): nat
    requires |b| >= 4
  {
    (((b[0] as int) * 256 + b[1]) * 256 + b[2]) * 256 + b[3]
  }

  lemma BigEndianLast(bytes: seq<Byte>)
    requires bytes != []
    ensures BigEndian(bytes) == BigEndian(bytes[..|bytes| - 1]) * 256 + bytes[|bytes| - 1]
  {
  }

  lemma BigEndianIs(b: seq<Byte>)
    ensures |b| == 1 ==> BigEndian(b) == b[0]
    ensures |b| == 2 ==> BigEndian(b) == TwoBytes(b)
    ensures |b| == 4 ==> BigEndian(b) == FourBytes(b)
    ensures |b| == 8 ==> BigEndian(b) == FourBytes(b) * 0x1_0000_0000 + FourBytes(b[4..])
  {
    assert BigEndian([]) == 0;
    hide BigEndian;
    if |b| == 1 || |b| == 2 || |b| == 4 || |b| == 8 {
      BigEndianLast(b[..1]);
      assert b[..1][..0] == [];
      if |b| >= 2 {
        NextByte(b, 2);
      }
      if |b| >= 4 {
        NextByte(b, 3);
        NextByte(b, 4);
      }
      if |b| >= 8 {
        NextByte(b, 5);
        NextByte(b, 6);
        NextByte(b, 7);
        NextByte(b, 8);
      }
      assert b[..|b|] == b;
    }
  }

  lemma NextByte(b: seq<Byte>, n: nat)
    requires 0 < n <= |b|
    ensures BigEndian(b[..n]) == BigEndian(b[..n - 1]) * 256 + b[n - 1]
  {
    BigEndianLast(b[..n]);
    assert b[..n][..n - 1] == b[..n - 1];
  }

  /** Two's complement, most significant byte first: the first bit is the sign. */
  lemma SignedNumbers(c: Cursor)
    ensures c.room >= 1 ==>
              ReadSigned(c, 1) == Success(((c.rest[0] as int) - (if c.rest[0] >= 128 then 256 else 0), Skip(c, 1)))
    ensures c.room >= 2 ==>
              ReadSigned(c, 2) == Success((TwoBytes(c.rest) - (if c.rest[0] >= 128 then 0x1_0000 else 0), Skip(c, 2)))
    ensures c.room >= 4 ==>
              ReadSigned(c, 4)
                == Success((FourBytes(c.rest) - (if c.rest[0] >= 128 then 0x1_0000_0000 else 0), Skip(c, 4)))
    ensures c.room >= 8 ==>
              ReadSigned(c, 8) == Success((
                FourBytes(c.rest) * 0x1_0000_0000 + FourBytes(c.rest[4..])
                - (if c.rest[0] >= 128 then 0x1_0000_0000_0000_0000 else 0), Skip(c, 8)))
  {
    SmallPowers();
    EighthPower();
    forall n | n == 1 || n == 2 || n == 4 || n == 8 ensures c.room >= n ==> BigEndianOf(c, n) {
      if c.room >= n {
        BigEndianIs(c.rest[..n]);
      }
    }
    hide BigEndian, Pow256;
    assert BigEndianOf(c, 1) && BigEndianOf(c, 2) && BigEndianOf(c, 4) && BigEndianOf(c, 8);
    assert c.room >= 8 ==> c.rest[..8][4..] == c.rest[4..8] && FourBytes(c.rest[4..8]) == FourBytes(c.rest[4..]);
  }

  predicate BigEndianOf(c: Cursor, n: nat) {
    c.room >= n ==>
      && (n == 1 ==> BigEndian(c.rest[..n]) == c.rest[0])
      && (n == 2 ==> BigEndian(c.rest[..n]) == TwoBytes(c.rest))
      && (n == 4 ==> BigEndian(c.rest[..n]) == FourBytes(c.rest))
      && (n == 8 ==> BigEndian(c.rest[..n]) == FourBytes(c.rest) * 0x1_0000_0000 + FourBytes(c.rest[..8][4..]))
  }

  lemma EighthPower()
    ensures Pow256(8) == 0x1_0000_0000_0000_0000
  {
    SmallPowers();
    assert Pow256(5) == 256 * Pow256(4);
    assert Pow256(6) == 256 * Pow256(5);
    assert Pow256(7) == 256 * Pow256(6);
    assert Pow256(8) == 256 * Pow256(7);
  }

  // ---------------------------------------------------------------------------------------------
  // Tags
  // ---------------------------------------------------------------------------------------------

  /** A tag is one byte, 0 to 12. */
  lemma TagIsAByte(c: Cursor)
    ensures c.room < 1 ==> ReadTagId(c) == Failure(OutOfBounds)
    ensures c.room >= 1 ==>
              ReadTagId(c) == if c.rest[0] <= 12 then Success((c.rest[0], Skip(c, 1)))
                else Failure(UnknownTag(c.rest[0]))
  {
  }

  /** Byte, short, int and long: tags 1 to 4, of 1, 2, 4 and 8 bytes. */
  lemma NumberTags(c: Cursor)
    ensures ReadValue(1, c) == Map(ReadSigned(c, 1), n => Number(n))
    ensures ReadValue(2, c) == Map(ReadSigned(c, 2), n => Number(n))
    ensures ReadValue(3, c) == Map(ReadSigned(c, 4), n => Number(n))
    ensures ReadValue(4, c) == Map(ReadSigned(c, 8), n => BigInt(n))
  {
    hide ReadSigned, ReadList, ReadFields, ReadArrayValue, ReadText, Take;
  }

  /** Float and double: tags 5 and 6, of 4 and 8 bytes. */
  lemma FloatTags(c: Cursor)
    ensures ReadValue(5, c) == if c.room < 4 then Failure(OutOfBounds) else Success((Float(c.rest[..4]), Skip(c, 4)))
    ensures ReadValue(6, c) == if c.room < 8 then Failure(OutOfBounds) else Success((Double(c.rest[..8]), Skip(c, 8)))
  {
    hide ReadSigned, ReadList, ReadFields, ReadArrayValue, ReadText;
  }

  /** Tag 8: two bytes of length, unsigned, and so many bytes of text. */
  lemma StringTag(c: Cursor)
    requires c.room >= 2 && 2 + TwoBytes(c.rest) <= |c.rest|
    ensures var n := TwoBytes(c.rest);
            var text := Utf8.Decode(c.rest[2..2 + n]);
            ReadValue(8, c) == if text.Success? then Success((String(text.value), Skip(c, 2 + n)))
                               else Failure(BadText(text.error))
  {
    var n := TwoBytes(c.rest);
    BigEndianIs(c.rest[..2]);
    assert BigEndian(c.rest[..2]) == n;
    hide BigEndian, Utf8.Decode;
    assert c.rest[2..][..n] == c.rest[2..2 + n];
    assert Skip(Skip(c, 2), n) == Skip(c, 2 + n);
  }

  /** Tags 7, 11 and 12: four bytes of length, signed, and so many numbers of 1, 4 and 8 bytes. */
  lemma ArrayTags(c: Cursor)
    requires c.room >= 4 && c.rest[0] < 128
    ensures ReadValue(7, c) == Map(ReadNumbers(Skip(c, 4), 1, FourBytes(c.rest)), ns => ByteArray(ns))
    ensures ReadValue(11, c) == Map(ReadNumbers(Skip(c, 4), 4, FourBytes(c.rest)), ns => IntArray(ns))
    ensures ReadValue(12, c) == Map(ReadNumbers(Skip(c, 4), 8, FourBytes(c.rest)), ns => LongArray(ns))
  {
    SignedNumbers(c);
    hide ReadSigned, ReadNumbers;
  }

  /** Tag 9: one tag byte, four bytes of length, and so many values of that tag. */
  lemma ListTag(c: Cursor)
    requires c.room >= 5 && 1 <= c.rest[0] <= 12 && c.rest[1] < 128
    ensures var items := ReadItems(c.rest[0], FourBytes(c.rest[1..]), Skip(c, 5));
            ReadValue(9, c) == Map(items, values => List(c.rest[0], values))
  {
    TagIsAByte(c);
    SignedNumbers(Skip(c, 1));
    assert Skip(Skip(c, 1), 4) == Skip(c, 5);
    hide ReadSigned;
    if FourBytes(c.rest[1..]) == 0 {
      assert ReadItems(c.rest[0], 0, Skip(c, 5)) == Success(([], Skip(c, 5)));
    }
  }

  /** Tag 10: tag, name and value of each field, up to a zero byte. */
  lemma CompoundTag(c: Cursor, fields: map<Text, Value>)
    requires c.room >= 1 && c.rest[0] <= 12
    ensures ReadValue(10, c) == Map(ReadFields(c, map[]), fs => Compound(fs))
    ensures c.rest[0] == 0 ==> ReadFields(c, fields) == Success((fields, Skip(c, 1)))
    ensures var name := ReadText(Skip(c, 1));
            c.rest[0] != 0 && name.Success? && ReadValue(c.rest[0], name.value.1).Success? ==>
              var value := ReadValue(c.rest[0], name.value.1).value;
              ReadFields(c, fields) == ReadFields(value.1, Put(fields, name.value.0, value.0))
  {
    TagIsAByte(c);
    hide ReadText;
  }

  /** A document: the tag 10, a name, and the fields of a compound. */
  lemma RootIsACompound(c: Cursor)
    requires c.room >= 1
    ensures ReadRoot(c).Success? ==> c.rest[0] == 10
    ensures var name := ReadText(Skip(c, 1));
            c.rest[0] == 10 && name.Success? ==>
              ReadRoot(c) == Map(ReadFields(name.value.1, map[]), fs => NamedNbt(name.value.0, Compound(fs)))
  {
    TagIsAByte(c);
    hide ReadText, ReadFields;
  }

  // ---------------------------------------------------------------------------------------------
  // Characters
  // ---------------------------------------------------------------------------------------------

  /** One, two and three bytes: seven bits; five and six; four, six and six. */
  lemma CharacterForms(b: seq<Byte>)
    requires b != []
    ensures b[0] < 128 ==> Utf8.DecodeOne(b) == Success((b[0], 1))
    ensures 192 <= b[0] < 224 && |b| >= 2 && 128 <= b[1] < 192 ==>
              Utf8.DecodeOne(b) == Success((((b[0] as int) - 192) * 64 + ((b[1] as int) - 128), 2))
    ensures 224 <= b[0] < 240 && |b| >= 3 && 128 <= b[1] < 192 && 128 <= b[2] < 192 ==>
              Utf8.DecodeOne(b)
                == Success(((((b[0] as int) - 224) * 64 + ((b[1] as int) - 128)) * 64 + ((b[2] as int) - 128), 3))
    ensures Utf8.DecodeOne(b).Success? ==>
              || b[0] < 128 || (192 <= b[0] < 224 && |b| >= 2 && 128 <= b[1] < 192)
              || (224 <= b[0] < 240 && |b| >= 3 && 128 <= b[1] < 192 && 128 <= b[2] < 192)
  {
  }

  /** Each code unit takes the shortest form but for zero, which takes two bytes. */
  lemma EncodedForms(unit: CodeUnit)
    ensures |Utf8.EncodeOne(unit)| == if 1 <= unit < 128 then 1 else if unit < 2048 then 2 else 3
  {
  }
}
