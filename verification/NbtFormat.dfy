/** The NBT format as the reader reads it: values, and the reads as functions of the bytes that lie ahead. */
module NbtFormat {
  import opened Bytes
  import opened Outcomes
  import Utf8 = ModifiedUtf8

  const TAG_END := 0
  const TAG_BYTE := 1
  const TAG_SHORT := 2
  const TAG_INT := 3
  const TAG_LONG := 4
  const TAG_FLOAT := 5
  const TAG_DOUBLE := 6
  const TAG_BYTE_ARRAY := 7
  const TAG_STRING := 8
  const TAG_LIST := 9
  const TAG_COMPOUND := 10
  const TAG_INT_ARRAY := 11
  const TAG_LONG_ARRAY := 12

  type TagId = t: int | 0 <= t <= 12
  type Text = seq<CodeUnit>

  datatype NbtError =
    | OutOfBounds
    | UnknownTag(tag: Byte)
    | EndHasNoValue
    | EndListNotEmpty
    | NegativeArrayLength
    | BadText(error: Utf8.Utf8Error)
    | RootNotCompound(root: TagId)

  /** A decoded value. Byte, short and int all become a number; floating-point values stay as their IEEE bytes. */
  datatype Value =
    | Number(n: int)
    | BigInt(n: int)
    | Float(bits: seq<Byte>)
    | Double(bits: seq<Byte>)
    | String(units: Text)
    | ByteArray(ns: seq<int>)
    | IntArray(ns: seq<int>)
    | LongArray(ns: seq<int>)
    | List(element: TagId, values: seq<Value>)
    | Compound(fields: map<Text, Value>)

  /** The name whose assignment on a plain JavaScript object sets its prototype and creates no field. */
  const PROTO: Text := [0x5F, 0x5F, 0x70, 0x72, 0x6F, 0x74, 0x6F, 0x5F, 0x5F]

  /** `out[name] = value` on an object that began as `{}`: its own fields afterwards. */
  function Put(fields: map<Text, Value>, name: Text, value: Value): map<Text, Value> {
    if name == PROTO then fields else fields[name := value]
  }

  // ---------------------------------------------------------------------------------------------
  // Reading, as functions of what lies ahead
  // ---------------------------------------------------------------------------------------------

  datatype RawCursor = RawCursor(rest: seq<Byte>, room: int)

  /**
   * What lies ahead of the offset: the rest of the underlying buffer, and how much of it the view covers.
   * Numbers are read through the view; strings are read through the buffer, which may be longer.
   */
  type Cursor = c: RawCursor | c.room <= |c.rest| witness RawCursor([], 0)

  type Read<T> = Result<(T, Cursor), NbtError>

  function Skip(c: Cursor, k: nat): Cursor
    requires k <= |c.rest|
  {
    RawCursor(c.rest[k..], c.room - k)
  }

  function Take(c: Cursor, k: nat): Read<seq<Byte>> {
    if k > c.room then Failure(OutOfBounds) else Success((c.rest[..k], Skip(c, k)))
  }

  function ReadTagId(c: Cursor): Read<TagId> {
    var (bytes, after) :- Take(c, 1);
    if bytes[0] > TAG_LONG_ARRAY then Failure(UnknownTag(bytes[0])) else Success((bytes[0] as int, after))
  }

  function ReadSigned(c: Cursor, width: nat): Read<int> {
    var (bytes, after) :- Take(c, width);
    Success((Signed(BigEndian(bytes), width), after))
  }

  function ReadText(c: Cursor): Read<Text> {
    var (bytes, after) :- Take(c, 2);
    var length := BigEndian(bytes);
    if length > |after.rest| then Failure(OutOfBounds)
    else
      match Utf8.Decode(after.rest[..length])
      case Failure(error) => Failure(BadText(error))
      case Success(units) => Success((units, Skip(after, length)))
  }

  function ReadNumbers(c: Cursor, width: nat, count: nat): Read<seq<int>>
    decreases count
  {
    if count == 0 then Success(([], c))
    else
      var (n, after) :- ReadSigned(c, width);
      var (ns, end) :- ReadNumbers(after, width, count - 1);
      Success(([n] + ns, end))
  }

  function ReadArray(c: Cursor, width: nat): Read<seq<int>> {
    var (length, after) :- ReadSigned(c, 4);
    if length < 0 then Failure(NegativeArrayLength) else ReadNumbers(after, width, length)
  }

  function Map<T, U>(r: Read<T>, f: T -> U): Read<U> {
    if r.Success? then Success((f(r.value.0), r.value.1)) else Failure(r.error)
  }

  lemma {:induction false} ReadNumbersAdvances(c: Cursor, width: nat, count: nat)
    ensures ReadNumbers(c, width, count).Success? ==> |ReadNumbers(c, width, count).value.1.rest| <= |c.rest|
    decreases count
  {
    if count > 0 && ReadSigned(c, width).Success? {
      ReadNumbersAdvances(ReadSigned(c, width).value.1, width, count - 1);
    }
  }

  /** Every value read consumes at least one byte, so reading ends on every input. */
  function ReadValue(tag: TagId, c: Cursor): (r: Read<Value>)
    ensures r.Success? ==> |r.value.1.rest| < |c.rest|
    decreases |c.rest|, 1
  {
    if tag == TAG_END then Failure(EndHasNoValue)
    else if tag == TAG_BYTE then Map(ReadSigned(c, 1), n => Number(n))
    else if tag == TAG_SHORT then Map(ReadSigned(c, 2), n => Number(n))
    else if tag == TAG_INT then Map(ReadSigned(c, 4), n => Number(n))
    else if tag == TAG_LONG then Map(ReadSigned(c, 8), n => BigInt(n))
    else if tag == TAG_FLOAT then Map(Take(c, 4), bits => Float(bits))
    else if tag == TAG_DOUBLE then Map(Take(c, 8), bits => Double(bits))
    else if tag == TAG_STRING then Map(ReadText(c), units => String(units))
    else if tag == TAG_LIST then ReadList(c)
    else if tag == TAG_COMPOUND then
      var (fields, after) :- ReadFields(c, map[]);
      Success((Compound(fields), after))
    else ReadArrayValue(tag, c)
  }

  function ReadArrayValue(tag: TagId, c: Cursor): (r: Read<Value>)
    ensures r.Success? ==> |r.value.1.rest| < |c.rest|
  {
    var width := if tag == TAG_BYTE_ARRAY then 1 else if tag == TAG_INT_ARRAY then 4 else 8;
    var numbers := ReadArray(c, width);
    if numbers.Failure? then Failure(numbers.error)
    else
      ReadNumbersAdvances(ReadSigned(c, 4).value.1, width, ReadSigned(c, 4).value.0);
      var (ns, after) := numbers.value;
      Success((if tag == TAG_BYTE_ARRAY then ByteArray(ns)
               else if tag == TAG_INT_ARRAY then IntArray(ns)
               else LongArray(ns),
               after))
  }

  function ReadList(c: Cursor): (r: Read<Value>)
    ensures r.Success? ==> |r.value.1.rest| < |c.rest|
    decreases |c.rest|, 0
  {
    var (element, afterTag) :- ReadTagId(c);
    var (length, after) :- ReadSigned(afterTag, 4);
    if length <= 0 then Success((List(element, []), after))
    else if element == TAG_END then Failure(EndListNotEmpty)
    else
      var (values, end) :- ReadItems(element, length, after);
      Success((List(element, values), end))
  }

  function ReadItems(element: TagId, count: nat, c: Cursor): (r: Read<seq<Value>>)
    ensures r.Success? ==> |r.value.1.rest| <= |c.rest|
    decreases |c.rest|, 2
  {
    if count == 0 then Success(([], c))
    else
      var (value, after) :- ReadValue(element, c);
      var (values, end) :- ReadItems(element, count - 1, after);
      Success(([value] + values, end))
  }

  function ReadFields(c: Cursor, fields: map<Text, Value>): (r: Read<map<Text, Value>>)
    ensures r.Success? ==> |r.value.1.rest| < |c.rest|
    decreases |c.rest|, 0
  {
    var (tag, afterTag) :- ReadTagId(c);
    if tag == TAG_END then Success((fields, afterTag))
    else
      var (name, afterName) :- ReadText(afterTag);
      var (value, after) :- ReadValue(tag, afterName);
      ReadFields(after, Put(fields, name, value))
  }

  datatype NamedNbt = NamedNbt(name: Text, value: Value)

  function ReadRoot(c: Cursor): Read<NamedNbt> {
    var (tag, afterTag) :- ReadTagId(c);
    if tag != TAG_COMPOUND then Failure(RootNotCompound(tag))
    else
      var (name, afterName) :- ReadText(afterTag);
      var (value, after) :- ReadValue(TAG_COMPOUND, afterName);
      Success((NamedNbt(name, value), after))
  }

  // The loops' views of the recursive reads: what has been collected, followed by what is still to be read.

  function NumbersAfter(out: seq<int>, c: Cursor, width: nat, count: nat): Read<seq<int>> {
    Map(ReadNumbers(c, width, count), ns => out + ns)
  }

  lemma NumbersAfterNone(c: Cursor, width: nat, count: nat)
    ensures NumbersAfter([], Skip(c, 0), width, count) == ReadNumbers(c, width, count)
  {
    assert Skip(c, 0) == c;
    assert forall ns: seq<int> :: [] + ns == ns;
  }

  lemma NumbersDone(out: seq<int>, c: Cursor, width: nat)
    ensures NumbersAfter(out, c, width, 0) == Success((out, c))
  {
    assert out + [] == out;
  }

  lemma NumbersStep(out: seq<int>, c: Cursor, width: nat, count: nat)
    requires count > 0
    ensures NumbersAfter(out, c, width, count)
         == var n := ReadSigned(c, width);
            if n.Success? then NumbersAfter(out + [n.value.0], n.value.1, width, count - 1) else Failure(n.error)
  {
    hide ReadSigned;
    assert forall n: int, ns: seq<int> :: out + ([n] + ns) == (out + [n]) + ns;
  }

  function ItemsAfter(values: seq<Value>, element: TagId, count: nat, c: Cursor): Read<seq<Value>> {
    Map(ReadItems(element, count, c), vs => values + vs)
  }

  lemma ItemsAfterNone(element: TagId, count: nat, c: Cursor)
    ensures ItemsAfter([], element, count, c) == ReadItems(element, count, c)
  {
    hide ReadItems;
    assert forall vs: seq<Value> :: [] + vs == vs;
  }

  lemma ItemsStep(values: seq<Value>, element: TagId, count: nat, c: Cursor)
    requires count > 0
    ensures ItemsAfter(values, element, count, c)
         == var v := ReadValue(element, c);
            if v.Success? then ItemsAfter(values + [v.value.0], element, count - 1, v.value.1) else Failure(v.error)
  {
    hide ReadValue;
    assert forall v: Value, vs: seq<Value> :: values + ([v] + vs) == (values + [v]) + vs;
  }
}
