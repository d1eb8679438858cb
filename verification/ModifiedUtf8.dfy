/**
 * Modified UTF-8 (section 4.4.7 of the Java Virtual Machine Specification), as the NBT reader decodes it
 * and the fixtures encode it. A string is its sequence of UTF-16 code units.
 *
 * The bit operations of the program are written as arithmetic on bytes: `b & 0x3F` is `b % 64`,
 * `c >> 6` is `c / 64`, and `|` of fields that do not overlap is `+`.
 */
module ModifiedUtf8 {
  import opened Bytes
  import opened Outcomes

  datatype Utf8Error =
    TruncatedPair | BadPairContinuation | TruncatedTriple | BadTripleContinuation | BadLeadByte(lead: Byte)

  predicate Continuation(b: Byte) {
    b / 64 == 2
  }

  /** The code unit of a two-byte and of a three-byte form. */
  function Pair(lead: int, lo: int): (unit: CodeUnit)
  {
    lead % 32 * 64 + lo % 64
  }

  function Triple(lead: int, b1: int, b2: int): (unit: CodeUnit)
  {
    lead % 16 * 4096 + b1 % 64 * 64 + b2 % 64
  }

  /** One encoded character: its code unit and its width in bytes. */
  function DecodeOne(bytes: seq<Byte>): (r: Result<(CodeUnit, nat), Utf8Error>)
    requires bytes != []
    ensures r.Success? ==> 1 <= r.value.1 <= |bytes|
  {
    var lead := bytes[0];
    if lead < 0x80 then Success((lead, 1))
    else if lead / 32 == 6 then
      if |bytes| < 2 then Failure(TruncatedPair)
      else if !Continuation(bytes[1]) then Failure(BadPairContinuation)
      else Success((Pair(lead, bytes[1]), 2))
    else if lead / 16 == 14 then
      if |bytes| < 3 then Failure(TruncatedTriple)
      else if !Continuation(bytes[1]) || !Continuation(bytes[2]) then Failure(BadTripleContinuation)
      else Success((Triple(lead, bytes[1], bytes[2]), 3))
    else Failure(BadLeadByte(lead))
  }

  function Decode(bytes: seq<Byte>): Result<seq<CodeUnit>, Utf8Error> {
    if bytes == [] then Success([])
    else
      var (unit, width) :- DecodeOne(bytes);
      var rest :- Decode(bytes[width..]);
      Success([unit] + rest)
  }

  function EncodeOne(unit: CodeUnit): (bytes: seq<Byte>)
    ensures 1 <= |bytes| <= 3
  {
    if 0 < unit < 0x80 then [unit]
    else if unit < 0x800 then [0xC0 + unit / 64, 0x80 + unit % 64]
    else [0xE0 + unit / 4096, 0x80 + unit / 64 % 64, 0x80 + unit % 64]
  }

  function Encode(units: seq<CodeUnit>): seq<Byte> {
    if units == [] then [] else EncodeOne(units[0]) + Encode(units[1..])
  }

  lemma {:induction false} EncodeAppend(units: seq<CodeUnit>, unit: CodeUnit)
    ensures Encode(units + [unit]) == Encode(units) + EncodeOne(unit)
  {
    hide EncodeOne;
    if units == [] {
      assert units + [unit] == [unit] && [unit][1..] == [];
    } else {
      EncodeAppend(units[1..], unit);
      assert (units + [unit])[1..] == units[1..] + [unit];
    }
  }

  method EncodeModifiedUtf8(value: seq<CodeUnit>) returns (out: seq<Byte>)
    ensures out == Encode(value)
  {
    out := [];
    for index := 0 to |value|
      invariant out == Encode(value[..index])
    {
      var code := value[index];
      EncodeAppend(value[..index], code);
      assert value[..index + 1] == value[..index] + [code];
      if code > 0 && code < 0x80 {
        out := out + [code];
      } else if code < 0x800 {
        out := out + [0xC0 + code / 64];
        out := out + [0x80 + code % 64];
      } else {
        out := out + [0xE0 + code / 4096];
        out := out + [0x80 + code / 64 % 64];
        out := out + [0x80 + code % 64];
      }
    }
    assert value[..|value|] == value;
  }

  /** What decoding gives once `out` has been read and `rest` remains. */
  function Continued(out: seq<CodeUnit>, rest: Result<seq<CodeUnit>, Utf8Error>): Result<seq<CodeUnit>, Utf8Error> {
    if rest.Success? then Success(out + rest.value) else rest
  }

  lemma DecodeStep(out: seq<CodeUnit>, bytes: seq<Byte>)
    requires bytes != []
    ensures var one := DecodeOne(bytes);
            Continued(out, Decode(bytes))
            == if one.Success? then Continued(out + [one.value.0], Decode(bytes[one.value.1..])) else Failure(one.error)
  {
    hide DecodeOne;
    var one := DecodeOne(bytes);
    if one.Success? && Decode(bytes[one.value.1..]).Success? {
      var rest := Decode(bytes[one.value.1..]).value;
      assert out + ([one.value.0] + rest) == (out + [one.value.0]) + rest;
    }
  }

  method DecodeModifiedUtf8(bytes: seq<Byte>) returns (r: Result<seq<CodeUnit>, Utf8Error>)
    ensures r == Decode(bytes)
  {
    var out: seq<CodeUnit> := [];
    var index := 0;
    assert bytes[0..] == bytes;
    assert Decode(bytes).Success? ==> [] + Decode(bytes).value == Decode(bytes).value;
    while index < |bytes|
      invariant 0 <= index <= |bytes|
      invariant Continued(out, Decode(bytes[index..])) == Decode(bytes)
    {
      DecodeStep(out, bytes[index..]);
      hide Decode;
      ghost var width := if bytes[index] < 0x80 then 1 else if bytes[index] / 32 == 6 then 2 else 3;
      assert index + width <= |bytes| ==> bytes[index..][width..] == bytes[index + width..];
      var byte := bytes[index];
      if byte < 0x80 {
        out := out + [byte];
        index := index + 1;
      } else if byte / 32 == 6 {
        if index + 1 >= |bytes| {
          return Failure(TruncatedPair);
        }
        var lo := bytes[index + 1];
        if !Continuation(lo) {
          return Failure(BadPairContinuation);
        }
        out := out + [Pair(byte, lo)];
        index := index + 2;
      } else if byte / 16 == 14 {
        if index + 2 >= |bytes| {
          return Failure(TruncatedTriple);
        }
        var b1, b2 := bytes[index + 1], bytes[index + 2];
        if !Continuation(b1) || !Continuation(b2) {
          return Failure(BadTripleContinuation);
        }
        out := out + [Triple(byte, b1, b2)];
        index := index + 3;
      } else {
        return Failure(BadLeadByte(byte));
      }
    }
    assert bytes[index..] == [] && out + [] == out;
    r := Success(out);
  }

  // ---------------------------------------------------------------------------------------------
  // Round trips
  // ---------------------------------------------------------------------------------------------

  lemma PairFields(lead: Byte, lo: Byte)
    requires lead / 32 == 6 && Continuation(lo)
    ensures 0xC0 <= lead < 0xE0 && 0x80 <= lo < 0xC0
    ensures Pair(lead, lo) == (lead - 0xC0) * 64 + (lo - 0x80)
    ensures Pair(lead, lo) / 64 == lead - 0xC0 && Pair(lead, lo) % 64 == lo - 0x80
  {
  }

  lemma TripleFields(lead: Byte, b1: Byte, b2: Byte)
    requires lead / 16 == 14 && Continuation(b1) && Continuation(b2)
    ensures 0xE0 <= lead < 0xF0 && 0x80 <= b1 < 0xC0 && 0x80 <= b2 < 0xC0
    ensures Triple(lead, b1, b2) == (lead - 0xE0) * 4096 + (b1 - 0x80) * 64 + (b2 - 0x80)
    ensures Triple(lead, b1, b2) / 4096 == lead - 0xE0
    ensures Triple(lead, b1, b2) / 64 % 64 == b1 - 0x80
    ensures Triple(lead, b1, b2) % 64 == b2 - 0x80
  {
    assert Triple(lead, b1, b2) / 64 == (lead - 0xE0) * 64 + (b1 - 0x80);
  }

  lemma PairInverts(unit: int)
    requires 0 <= unit < 0x800
    ensures Pair(0xC0 + unit / 64, 0x80 + unit % 64) == unit
    ensures (0xC0 + unit / 64) / 32 == 6 && Continuation(0x80 + unit % 64)
  {
  }

  lemma TripleInverts(unit: CodeUnit)
    ensures Triple(0xE0 + unit / 4096, 0x80 + unit / 64 % 64, 0x80 + unit % 64) == unit
    ensures (0xE0 + unit / 4096) / 16 == 14 && Continuation(0x80 + unit / 64 % 64) && Continuation(0x80 + unit % 64)
  {
    assert unit / 64 / 64 == unit / 4096;
  }

  lemma DecodeEncodedUnit(unit: CodeUnit, rest: seq<Byte>)
    ensures var bytes := EncodeOne(unit) + rest;
            DecodeOne(bytes) == Success((unit, |EncodeOne(unit)|)) && bytes[|EncodeOne(unit)|..] == rest
  {
    hide Pair, Triple, Continuation;
    if !(0 < unit < 0x80) {
      if unit < 0x800 {
        PairInverts(unit);
      } else {
        TripleInverts(unit);
      }
    }
  }

  /** Decoding inverts encoding on every sequence of code units, NUL and lone surrogates included. */
  lemma {:induction false} DecodeInvertsEncode(units: seq<CodeUnit>)
    ensures Decode(Encode(units)) == Success(units)
  {
    hide DecodeOne, EncodeOne;
    if units != [] {
      DecodeEncodedUnit(units[0], Encode(units[1..]));
      DecodeInvertsEncode(units[1..]);
      assert Encode(units) != [];
      assert [units[0]] + units[1..] == units;
    }
  }

  lemma EncodeIsInjective(u: seq<CodeUnit>, v: seq<CodeUnit>)
    requires Encode(u) == Encode(v)
    ensures u == v
  {
    DecodeInvertsEncode(u);
    DecodeInvertsEncode(v);
  }

  /** The character at the head of `bytes` is in its shortest form: no raw NUL byte and no overlong form. */
  predicate ShortestHead(bytes: seq<Byte>)
    requires bytes != []
  {
    && bytes[0] != 0
    && !(bytes[0] / 32 == 6 && (bytes[0] == 0xC1 || (bytes[0] == 0xC0 && |bytes| >= 2 && bytes[1] != 0x80)))
    && !(bytes[0] == 0xE0 && |bytes| >= 2 && bytes[1] < 0xA0)
  }

  /** Every character of a decodable byte string is in its shortest form. */
  predicate Canonical(bytes: seq<Byte>)
    decreases |bytes|
  {
    bytes == [] ||
    (ShortestHead(bytes) && DecodeOne(bytes).Success? && Canonical(bytes[DecodeOne(bytes).value.1..]))
  }

  lemma ReencodedUnit(bytes: seq<Byte>)
    requires bytes != [] && DecodeOne(bytes).Success?
    ensures var (unit, width) := DecodeOne(bytes).value;
            if ShortestHead(bytes) then EncodeOne(unit) == bytes[..width] else EncodeOne(unit)[0] != bytes[0]
  {
    hide Pair, Triple, Continuation;
    if bytes[0] / 32 == 6 {
      PairFields(bytes[0], bytes[1]);
    } else if bytes[0] / 16 == 14 {
      TripleFields(bytes[0], bytes[1], bytes[2]);
    }
  }

  /**
   * The decoder is more liberal than the encoder: it also takes a raw NUL and overlong forms. On what it
   * decodes, encoding again gives the same bytes exactly when every character is in its shortest form.
   */
  lemma {:induction false} EncodeInvertsDecodeIff(bytes: seq<Byte>)
    requires Decode(bytes).Success?
    ensures Encode(Decode(bytes).value) == bytes <==> Canonical(bytes)
    decreases |bytes|
  {
    hide DecodeOne, EncodeOne, ShortestHead;
    if bytes != [] {
      var (unit, width) := DecodeOne(bytes).value;
      var rest := Decode(bytes[width..]).value;
      ReencodedUnit(bytes);
      EncodeInvertsDecodeIff(bytes[width..]);
      assert ([unit] + rest)[1..] == rest;
      assert Encode([unit] + rest) == EncodeOne(unit) + Encode(rest);
      assert bytes == bytes[..width] + bytes[width..];
      if ShortestHead(bytes) && Encode([unit] + rest) == bytes {
        assert Encode([unit] + rest)[width..] == Encode(rest);
      }
      if !ShortestHead(bytes) {
        assert Encode([unit] + rest)[0] == EncodeOne(unit)[0];
      }
    }
  }
}
