/**
 * The reader object: an offset into a view of a buffer, advanced by every read. Each method is proved to
 * read exactly what NbtFormat says lies at the offset, to fail with the same error, and to stop at the same place.
 */
module NbtReading {
  import opened Bytes
  import opened Outcomes
  import Utf8 = ModifiedUtf8
  import opened NbtFormat

  class NbtReader {
    const buffer: seq<Byte>
    const length: nat
    var offset: nat

    ghost predicate Valid()
      reads this
    {
      offset <= |buffer| && length <= |buffer|
    }

    /** What lies ahead. */
    function Here(): Cursor
      requires Valid()
      reads this
    {
      RawCursor(buffer[offset..], length - offset)
    }

    constructor (buffer: seq<Byte>, length: nat)
      requires length <= |buffer|
      ensures Valid() && Here() == RawCursor(buffer, length) && this.buffer == buffer
    {
      this.buffer := buffer;
      this.length := length;
      this.offset := 0;
    }

    /** `r` is the outcome of `read`, and after a success the reader stands where that read ends. */
    ghost predicate Follows<T>(r: Result<T, NbtError>, read: Read<T>)
      reads this
    {
      && Valid()
      && match read
         case Failure(error) => r == Failure(error)
         case Success((value, after)) => r == Success(value) && Here() == after
    }

    /** `k` bytes at distance `ahead` from the offset, read through the view; the offset stays. */
    method GetBytes(ahead: nat, k: nat) returns (r: Result<seq<Byte>, NbtError>)
      requires Valid() && ahead <= |Here().rest|
      ensures r == match Take(Skip(Here(), ahead), k)
                   case Failure(error) => Failure(error)
                   case Success((bytes, _)) => Success(bytes)
    {
      if offset + ahead + k > length {
        return Failure(OutOfBounds);
      }
      assert buffer[offset..][ahead..] == buffer[offset + ahead..];
      assert buffer[offset + ahead..][..k] == buffer[offset + ahead..offset + ahead + k];
      r := Success(buffer[offset + ahead..offset + ahead + k]);
    }

    method Advance(k: nat)
      requires Valid() && k <= |Here().rest|
      modifies this
      ensures Valid() && Here() == Skip(old(Here()), k)
    {
      assert buffer[offset..][k..] == buffer[offset + k..];
      offset := offset + k;
    }

    method GetSigned(ahead: nat, width: nat) returns (r: Result<int, NbtError>)
      requires Valid() && ahead <= |Here().rest|
      ensures r == match ReadSigned(Skip(Here(), ahead), width)
                   case Failure(error) => Failure(error)
                   case Success((n, _)) => Success(n)
    {
      var bytes :- GetBytes(ahead, width);
      r := Success(Signed(BigEndian(bytes), width));
    }

    method ReadTagId() returns (r: Result<TagId, NbtError>)
      requires Valid()
      modifies this
      ensures Follows(r, NbtFormat.ReadTagId(old(Here())))
    {
      assert Skip(Here(), 0) == Here();
      var bytes :- GetBytes(0, 1);
      Advance(1);
      if bytes[0] > TAG_LONG_ARRAY {
        return Failure(UnknownTag(bytes[0]));
      }
      r := Success(bytes[0] as int);
    }

    method ReadSignedAndAdvance(width: nat) returns (r: Result<int, NbtError>)
      requires Valid()
      modifies this
      ensures Follows(r, ReadSigned(old(Here()), width))
    {
      assert Skip(Here(), 0) == Here();
      var n :- GetSigned(0, width);
      Advance(width);
      r := Success(n);
    }

    method ReadString() returns (r: Result<Text, NbtError>)
      requires Valid()
      modifies this
      ensures Follows(r, ReadText(old(Here())))
    {
      assert Skip(Here(), 0) == Here();
      var prefix :- GetBytes(0, 2);
      var length := BigEndian(prefix);
      Advance(2);
      if offset + length > |buffer| {
        return Failure(OutOfBounds);
      }
      var bytes := buffer[offset..offset + length];
      assert bytes == Here().rest[..length];
      Advance(length);
      var units := Utf8.DecodeModifiedUtf8(bytes);
      r := match units case Failure(error) => Failure(BadText(error)) case Success(u) => Success(u);
    }

    /** The array cases: the elements are read at their distances from the offset, which moves once, at the end. */
    method ReadArray(width: nat) returns (r: Result<seq<int>, NbtError>)
      requires Valid()
      modifies this
      ensures Follows(r, NbtFormat.ReadArray(old(Here()), width))
    {
      hide ReadNumbers, ReadSigned, Skip;
      var length :- ReadSignedAndAdvance(4);
      if length < 0 {
        return Failure(NegativeArrayLength);
      }
      var out, ahead :- GetNumbers(width, length);
      Advance(ahead);
      r := Success(out);
    }

    method GetNumbers(width: nat, length: nat) returns (r: Result<seq<int>, NbtError>, ahead: nat)
      requires Valid()
      ensures match ReadNumbers(Here(), width, length)
              case Failure(error) => r == Failure(error)
              case Success((ns, after)) => r == Success(ns) && ahead <= |Here().rest| && after == Skip(Here(), ahead)
    {
      hide ReadSigned, ReadNumbers, NumbersAfter, Skip;
      ahead := 0;
      var out: seq<int> := [];
      NumbersAfterNone(Here(), width, length);
      for index := 0 to length
        invariant 0 <= ahead <= |Here().rest|
        invariant ReadNumbers(Here(), width, length) == NumbersAfter(out, Skip(Here(), ahead), width, length - index)
      {
        NumbersStep(out, Skip(Here(), ahead), width, length - index);
        SkipTwice(Here(), ahead, width);
        var n :- GetSigned(ahead, width);
        out := out + [n];
        ahead := ahead + width;
      }
      NumbersDone(out, Skip(Here(), ahead), width);
      r := Success(out);
    }

    method ReadValue(tag: TagId) returns (r: Result<Value, NbtError>)
      requires Valid()
      modifies this
      ensures Follows(r, NbtFormat.ReadValue(tag, old(Here())))
      decreases |buffer| - offset, 1
    {
      if tag == TAG_END {
        return Failure(EndHasNoValue);
      } else if tag == TAG_BYTE {
        var n :- ReadSignedAndAdvance(1);
        r := Success(Number(n));
      } else if tag == TAG_SHORT {
        var n :- ReadSignedAndAdvance(2);
        r := Success(Number(n));
      } else if tag == TAG_INT {
        var n :- ReadSignedAndAdvance(4);
        r := Success(Number(n));
      } else if tag == TAG_LONG {
        var n :- ReadSignedAndAdvance(8);
        r := Success(BigInt(n));
      } else if tag == TAG_FLOAT || tag == TAG_DOUBLE {
        assert Skip(Here(), 0) == Here();
        var width := if tag == TAG_FLOAT then 4 else 8;
        var bits :- GetBytes(0, width);
        Advance(width);
        r := Success(if tag == TAG_FLOAT then Float(bits) else Double(bits));
      } else if tag == TAG_STRING {
        var units :- ReadString();
        r := Success(String(units));
      } else if tag == TAG_LIST {
        r := ReadList();
      } else if tag == TAG_COMPOUND {
        r := ReadCompoundBody();
      } else {
        var width := if tag == TAG_BYTE_ARRAY then 1 else if tag == TAG_INT_ARRAY then 4 else 8;
        var ns :- ReadArray(width);
        r := Success(if tag == TAG_BYTE_ARRAY then ByteArray(ns)
                     else if tag == TAG_INT_ARRAY then IntArray(ns)
                     else LongArray(ns));
      }
    }

    method ReadList() returns (r: Result<Value, NbtError>)
      requires Valid()
      modifies this
      ensures Follows(r, NbtFormat.ReadList(old(Here())))
      decreases |buffer| - offset, 0
    {
      hide NbtFormat.ReadValue;
      ghost var entry := offset;
      var elementTag :- this.ReadTagId();
      var length :- ReadSignedAndAdvance(4);
      if length <= 0 {
        return Success(List(elementTag, []));
      }
      if elementTag == TAG_END {
        return Failure(EndListNotEmpty);
      }
      var values: seq<Value> := [];
      ghost var start := Here();
      ItemsAfterNone(elementTag, length, start);
      for index := 0 to length
        invariant Valid() && offset > entry
        invariant ReadItems(elementTag, length, start) == ItemsAfter(values, elementTag, length - index, Here())
      {
        ItemsStep(values, elementTag, length - index, Here());
        var value :- this.ReadValue(elementTag);
        values := values + [value];
      }
      assert values + [] == values;
      r := Success(List(elementTag, values));
    }

    method ReadCompoundBody() returns (r: Result<Value, NbtError>)
      requires Valid()
      modifies this
      ensures r.Success? ==> r.value.Compound?
      ensures Follows(r, Map(ReadFields(old(Here()), map[]), fields => Compound(fields)))
      decreases |buffer| - offset, 0
    {
      var out: map<Text, Value> := map[];
      ghost var start, entry := Here(), offset;
      while true
        invariant Valid() && offset >= entry
        invariant ReadFields(Here(), out) == ReadFields(start, map[])
        decreases |buffer| - offset
      {
        hide NbtFormat.ReadValue, ReadText;
        var tag :- this.ReadTagId();
        if tag == TAG_END {
          return Success(Compound(out));
        }
        var name :- ReadString();
        var value :- this.ReadValue(tag);
        out := Put(out, name, value);
      }
    }

    method BytesConsumed() returns (n: nat)
      ensures n == offset
    {
      n := offset;
    }
  }

  lemma SkipTwice(c: Cursor, j: nat, k: nat)
    requires j <= |c.rest|
    ensures Take(Skip(c, j), k).Success? ==> j + k <= |c.rest| && Skip(Skip(c, j), k) == Skip(c, j + k)
    ensures ReadSigned(Skip(c, j), k).Success? ==>
            Take(Skip(c, j), k).Success? && ReadSigned(Skip(c, j), k).value.1 == Skip(c, j + k)
  {
  }

  /** The program's entry point; `length` is the view's length within its underlying buffer. */
  method DecodeNbt(buffer: seq<Byte>, length: nat) returns (r: Result<NamedNbt, NbtError>, consumed: nat)
    requires length <= |buffer|
    ensures match ReadRoot(RawCursor(buffer, length))
            case Failure(error) => r == Failure(error)
            case Success((named, after)) => r == Success(named) && consumed == |buffer| - |after.rest|
  {
    consumed := 0;
    var reader := new NbtReader(buffer, length);
    var rootTag :- reader.ReadTagId();
    if rootTag != TAG_COMPOUND {
      return Failure(RootNotCompound(rootTag)), 0;
    }
    var name :- reader.ReadString();
    var value :- reader.ReadValue(TAG_COMPOUND);
    consumed := reader.BytesConsumed();
    r := Success(NamedNbt(name, value));
  }
}
