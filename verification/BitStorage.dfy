/**
 * The packed array of the chunk format: fixed-width values in signed 64-bit words, none of them straddling two
 * words. The object is proved to behave as a plain sequence of values.
 */
module BitStorages {
  import Numbers
  import opened Outcomes
  import opened Words

  datatype StorageError =
    | BadPaletteSize(paletteSize: int)
    | BadBits(bits: int)
    | BadSize(size: int)
    | BadLength(actual: nat, expected: nat)
    | IndexOutOfBounds(index: int)
    | ValueOutOfBounds(value: int)

  // ---------------------------------------------------------------------------------------------
  // Palette widths
  // ---------------------------------------------------------------------------------------------

  /** `value >>> 1`: the operator first reduces its operand to 32 bits. */
  function ShiftedOnce(value: nat): nat {
    value % 0x1_0000_0000 / 2
  }

  function BitLength(n: nat): nat {
    if n == 0 then 0 else 1 + BitLength(n / 2)
  }

  /** How often `value >>>= 1` runs until zero: from the second time on nothing wraps any more. */
  function Shifts(value: nat): nat {
    if value == 0 then 0 else 1 + BitLength(ShiftedOnce(value))
  }

  lemma ShiftsOfShifted(value: nat)
    ensures ShiftedOnce(value) < 0x8000_0000
    ensures Shifts(ShiftedOnce(value)) == BitLength(ShiftedOnce(value))
  {
    var next := ShiftedOnce(value);
    assert next < 0x8000_0000 && ShiftedOnce(next) == next / 2;
    hide ShiftedOnce;
  }

  function PaletteBits(paletteSize: nat): nat
    requires paletteSize >= 1
  {
    if paletteSize == 1 then 1 else Shifts(paletteSize - 1)
  }

  method PaletteBitsFor(paletteSize: int) returns (r: Result<nat, StorageError>)
    ensures r == if paletteSize < 1 then Failure(BadPaletteSize(paletteSize)) else Success(PaletteBits(paletteSize))
  {
    if paletteSize < 1 {
      return Failure(BadPaletteSize(paletteSize));
    }
    if paletteSize <= 1 {
      return Success(1);
    }
    var bits := 0;
    var value := paletteSize - 1;
    while value > 0
      invariant value >= 0 && bits + Shifts(value) == Shifts(paletteSize - 1)
    {
      ShiftsOfShifted(value);
      bits := bits + 1;
      value := ShiftedOnce(value);
    }
    r := Success(bits);
  }

  lemma {:induction false} BitLengthBounds(n: nat)
    requires n > 0
    ensures BitLength(n) >= 1 && Pow2(BitLength(n) - 1) <= n < Pow2(BitLength(n))
  {
    hide Pow2;
    Doubling(0);
    if n == 1 {
      assert BitLength(1) == 1 + BitLength(0) == 1;
    } else {
      BitLengthBounds(n / 2);
      assert BitLength(n) == 1 + BitLength(n / 2);
      hide BitLength;
      Doubling(BitLength(n / 2) - 1);
      Doubling(BitLength(n / 2));
    }
  }

  lemma Doubling(n: nat)
    ensures Pow2(n + 1) == 2 * Pow2(n) && Pow2(0) == 1
  {
  }

  lemma BitLengthAtMost(n: nat, m: nat)
    requires n < Pow2(m)
    ensures BitLength(n) <= m
  {
    if n > 0 {
      BitLengthBounds(n);
      var b := BitLength(n);
      hide BitLength, Pow2;
      Pow2Reflects(b - 1, m);
    }
  }

  lemma Pow2Reflects(a: nat, b: nat)
    requires Pow2(a) < Pow2(b)
    ensures a < b
  {
    hide Pow2;
    if b <= a {
      Pow2Monotone(b, a);
    }
  }

  /** The width is always between 1 and 32. */
  lemma PaletteBitsInRange(paletteSize: nat)
    requires paletteSize >= 1
    ensures 1 <= PaletteBits(paletteSize) <= 32
  {
    if paletteSize >= 2 {
      var next := ShiftedOnce(paletteSize - 1);
      ShiftsOfShifted(paletteSize - 1);
      PowersOfTwo();
      Doubling(31);
      hide ShiftedOnce, Pow2;
      BitLengthAtMost(next, 31);
    }
  }

  /**
   * For two or more entries the width is the least one that tells them apart, exactly as long as there are at
   * most 2^32 of them; beyond that the 32-bit shift wraps and the width is too small.
   */
  lemma PaletteBitsIsLeastIff(paletteSize: nat)
    requires paletteSize >= 2
    ensures var b := PaletteBits(paletteSize);
            (b >= 1 && Pow2(b - 1) < paletteSize <= Pow2(b)) <==> paletteSize <= 0x1_0000_0000
  {
    hide PaletteBits, Pow2;
    if paletteSize <= 0x1_0000_0000 {
      NothingWraps(paletteSize);
      BitLengthBounds(paletteSize - 1);
    } else {
      PaletteBitsInRange(paletteSize);
      PowersOfTwo();
      Pow2Monotone(PaletteBits(paletteSize), 32);
    }
  }

  lemma NothingWraps(paletteSize: nat)
    requires 2 <= paletteSize <= 0x1_0000_0000
    ensures PaletteBits(paletteSize) == BitLength(paletteSize - 1)
  {
    var value := paletteSize - 1;
    assert ShiftedOnce(value) == value / 2;
    hide ShiftedOnce;
  }

  /** No other width lies in that interval. */
  lemma LeastWidthIsUnique(n: nat, b: nat, c: nat)
    requires b >= 1 && Pow2(b - 1) < n <= Pow2(b)
    requires c >= 1 && Pow2(c - 1) < n <= Pow2(c)
    ensures b == c
  {
    Pow2Reflects(b - 1, c);
    Pow2Reflects(c - 1, b);
  }

  // ---------------------------------------------------------------------------------------------
  // Slots of the words
  // ---------------------------------------------------------------------------------------------

  function PerWord(bits: nat): (n: nat)
    requires 1 <= bits <= 32
    ensures 2 <= n <= 64 && n * bits <= 64
  {
    64 / bits
  }

  function WordCount(bits: nat, size: nat): nat
    requires 1 <= bits <= 32
  {
    (size + PerWord(bits) - 1) / PerWord(bits)
  }

  /** The word that holds slot `i`, and where in it the slot begins. */
  function Cell(bits: nat, i: nat): nat
    requires 1 <= bits <= 32
  {
    i / PerWord(bits)
  }

  function Position(bits: nat, i: nat): (k: nat)
    requires 1 <= bits <= 32
  {
    (i - Cell(bits, i) * PerWord(bits)) * bits
  }

  predicate Shaped(words: seq<int>, bits: nat, size: nat) {
    && 1 <= bits <= 32
    && |words| == WordCount(bits, size)
    && forall c :: 0 <= c < |words| ==> IsInt64(words[c])
  }

  lemma SlotFits(bits: nat, size: nat, i: nat)
    requires 1 <= bits <= 32 && i < size
    ensures Cell(bits, i) < WordCount(bits, size)
    ensures Position(bits, i) + bits <= 64
  {
    var v := PerWord(bits);
    var slot := i - i / v * v;
    DivideSum(i, v, size);
    MultiplyMonotone(slot + 1, v, bits);
    assert (slot + 1) * bits == slot * bits + bits;
  }

  lemma DivideSum(i: nat, v: nat, size: nat)
    requires v > 0 && i < size
    ensures i / v < (size + v - 1) / v
  {
    var n := (size + v - 1) / v;
    if n <= i / v {
      MultiplyMonotone(n + 1, i / v + 1, v);
    }
  }

  /** A field of a signed word, read as unsigned. */
  function WordField(word: int, k: nat, width: nat): (f: nat)
    ensures f < Pow2(width)
  {
    Field(AsUint64(word), k, width)
  }

  /** A signed word with a field replaced. */
  function WordReplaced(word: int, k: nat, width: nat, value: nat): int {
    AsInt64(Replaced(AsUint64(word), k, width, value))
  }

  lemma WordReplacedFields(word: int, k: nat, width: nat, value: nat)
    requires value < Pow2(width) && k + width <= 64
    ensures var next := WordReplaced(word, k, width, value);
            && IsInt64(next)
            && WordField(next, k, width) == value
            && forall j, w: nat :: 0 <= j && (j + w <= k || k + width <= j) ==>
               WordField(next, j, w) == WordField(word, j, w)
  {
    var u := AsUint64(word);
    var next := Replaced(u, k, width, value);
    PowersOfTwo();
    ReplacedInRange(u, k, width, value, 64);
    ReplacedParts(u, k, width, value);
    hide Field, Replaced;
    WordRoundTrip(next);
    assert AsUint64(AsInt64(next)) == next;
    forall j: nat, w: nat | j + w <= k || k + width <= j
      ensures WordField(AsInt64(next), j, w) == WordField(word, j, w)
    {
      ReplacedElsewhere(u, k, width, value, j, w);
    }
  }

  function Slot(words: seq<int>, bits: nat, size: nat, i: nat): (value: nat)
    requires Shaped(words, bits, size) && i < size
    ensures value < Pow2(bits)
  {
    SlotFits(bits, size, i);
    WordField(words[Cell(bits, i)], Position(bits, i), bits)
  }

  /** The values the words hold. */
  function Slots(words: seq<int>, bits: nat, size: nat): (values: seq<nat>)
    requires Shaped(words, bits, size)
    ensures |values| == size
  {
    seq(size, i requires 0 <= i < size => Slot(words, bits, size, i))
  }

  /** The words with one slot replaced. */
  function Updated(words: seq<int>, bits: nat, size: nat, i: nat, value: nat): seq<int>
    requires Shaped(words, bits, size) && i < size
  {
    SlotFits(bits, size, i);
    words[Cell(bits, i) := WordReplaced(words[Cell(bits, i)], Position(bits, i), bits, value)]
  }

  /** Every field of every word other than the slot's own, padding included, keeps its digits. */
  lemma UpdateTouchesOnlyItsSlot(words: seq<int>, bits: nat, size: nat, i: nat, value: nat, c: nat, j: nat, w: nat)
    requires Shaped(words, bits, size) && i < size && value < Pow2(bits) && c < |words|
    requires c != Cell(bits, i) || j + w <= Position(bits, i) || Position(bits, i) + bits <= j
    ensures Shaped(Updated(words, bits, size, i, value), bits, size)
    ensures WordField(Updated(words, bits, size, i, value)[c], j, w) == WordField(words[c], j, w)
  {
    hide WordField, WordReplaced, Position, Cell, WordCount;
    SlotFits(bits, size, i);
    WordReplacedFields(words[Cell(bits, i)], Position(bits, i), bits, value);
  }

  lemma SlotsDoNotOverlap(bits: nat, i: nat, j: nat)
    requires 1 <= bits <= 32 && i != j && Cell(bits, i) == Cell(bits, j)
    ensures Position(bits, i) + bits <= Position(bits, j) || Position(bits, j) + bits <= Position(bits, i)
  {
    var a, b := i - Cell(bits, i) * PerWord(bits), j - Cell(bits, j) * PerWord(bits);
    assert a != b && Position(bits, i) == a * bits && Position(bits, j) == b * bits;
    hide Cell, PerWord, Position;
    if a < b {
      ApartWhenScaled(a, b, bits);
    } else {
      ApartWhenScaled(b, a, bits);
    }
  }

  lemma ApartWhenScaled(a: int, b: int, bits: nat)
    requires a < b
    ensures a * bits + bits <= b * bits
  {
    MultiplyMonotone(a + 1, b, bits);
    assert (a + 1) * bits == a * bits + bits;
  }

  /** Setting one slot is a sequence update. */
  lemma UpdateSetsOneSlot(words: seq<int>, bits: nat, size: nat, i: nat, value: nat)
    requires Shaped(words, bits, size) && i < size && value < Pow2(bits)
    ensures Shaped(Updated(words, bits, size, i, value), bits, size)
    ensures Slots(Updated(words, bits, size, i, value), bits, size) == Slots(words, bits, size)[i := value]
  {
    hide WordField, WordReplaced, Position, Cell, WordCount;
    var next := Updated(words, bits, size, i, value);
    SlotFits(bits, size, i);
    WordReplacedFields(words[Cell(bits, i)], Position(bits, i), bits, value);
    forall j | 0 <= j < size ensures Slot(next, bits, size, j) == if j == i then value else Slot(words, bits, size, j) {
      SlotFits(bits, size, j);
      if j != i && Cell(bits, i) == Cell(bits, j) {
        SlotsDoNotOverlap(bits, i, j);
      }
    }
  }

  // ---------------------------------------------------------------------------------------------
  // The layout in plain terms
  // ---------------------------------------------------------------------------------------------

  /** As many values as a word has room for. */
  predicate Fills(n: nat, bits: nat) {
    n * bits <= 64 < (n + 1) * bits
  }

  /** Enough words of `n` values, and not one too many. */
  predicate Suffices(count: nat, n: nat, size: nat) {
    if size == 0 then count == 0 else (count - 1) * n < size <= count * n
  }

  ghost predicate RightLength(count: nat, bits: nat, size: nat) {
    exists n: nat :: Fills(n, bits) && Suffices(count, n, size)
  }

  function Unsigned(word: int): int {
    if word < 0 then word + 0x1_0000_0000_0000_0000 else word
  }

  /** Value `k` of word `c`: so many widths up from the lowest bit. */
  predicate HoldsAt(words: seq<int>, bits: nat, values: seq<nat>, n: nat, c: nat, k: nat) {
    k < n && c * n + k < |values| ==>
      c < |words| && values[c * n + k] == Unsigned(words[c]) / Pow2(k * bits) % Pow2(bits)
  }

  /** The values are those of the words, word after word. */
  ghost predicate LaidOut(words: seq<int>, bits: nat, values: seq<nat>) {
    exists n: nat :: Fills(n, bits) && forall c: nat, k: nat :: HoldsAt(words, bits, values, n, c, k)
  }

  lemma PerWordFills(bits: nat, n: nat)
    requires 1 <= bits <= 32
    ensures Fills(PerWord(bits), bits)
    ensures Fills(n, bits) ==> n == PerWord(bits)
  {
    var m := PerWord(bits);
    assert 64 == m * bits + 64 % bits && (m + 1) * bits == m * bits + bits;
    if Fills(n, bits) {
      if n > m {
        MultiplyMonotone(m + 1, n, bits);
      } else if n < m {
        MultiplyMonotone(n + 1, m, bits);
      }
    }
  }

  lemma RightLengthIs(count: nat, bits: nat, size: nat)
    requires 1 <= bits <= 32
    ensures RightLength(count, bits, size) <==> count == WordCount(bits, size)
  {
    var n := PerWord(bits);
    PerWordFills(bits, n);
    forall m: nat | Fills(m, bits) ensures m == n {
      PerWordFills(bits, m);
    }
    hide PerWord, Fills;
    var w := (size + n - 1) / n;
    assert size + n - 1 == w * n + (size + n - 1) % n;
    assert (w - 1) * n == w * n - n;
    if Suffices(count, n, size) && size > 0 {
      assert (count - 1) * n == count * n - n;
      DivideUnique(size + n - 1, count, n, size + n - 1 - count * n);
    }
    if size == 0 {
      DivideUnique(n - 1, 0, n, n - 1);
    }
  }

  /** The slots of shaped words, and of no other values than theirs. */
  lemma SlotsAreLaidOut(words: seq<int>, bits: nat, size: nat, values: seq<nat>)
    requires Shaped(words, bits, size) && |values| == size
    ensures LaidOut(words, bits, values) <==> values == Slots(words, bits, size)
  {
    var n, slots := PerWord(bits), Slots(words, bits, size);
    PerWordFills(bits, n);
    SlotsHold(words, bits, size);
    hide Slots, PerWord, WordCount, HoldsAt, Fills;
    if LaidOut(words, bits, values) {
      var m: nat :| Fills(m, bits) && forall c: nat, k: nat :: HoldsAt(words, bits, values, m, c, k);
      PerWordFills(bits, m);
      hide LaidOut;
      HeldOnce(words, bits, values, slots, n);
    }
  }

  lemma HeldOnce(words: seq<int>, bits: nat, values: seq<nat>, others: seq<nat>, n: nat)
    requires |values| == |others| && n > 0
    requires forall c: nat, k: nat :: HoldsAt(words, bits, values, n, c, k)
    requires forall c: nat, k: nat :: HoldsAt(words, bits, others, n, c, k)
    ensures values == others
  {
    hide HoldsAt;
    forall i | 0 <= i < |values| ensures values[i] == others[i] {
      HeldAlike(words, bits, values, others, n, i);
    }
  }

  lemma SlotsHold(words: seq<int>, bits: nat, size: nat)
    requires Shaped(words, bits, size)
    ensures forall c: nat, k: nat :: HoldsAt(words, bits, Slots(words, bits, size), PerWord(bits), c, k)
  {
    forall c: nat, k: nat ensures HoldsAt(words, bits, Slots(words, bits, size), PerWord(bits), c, k) {
      SlotHolds(words, bits, size, c, k);
    }
  }

  lemma HeldAlike(words: seq<int>, bits: nat, values: seq<nat>, others: seq<nat>, n: nat, i: nat)
    requires i < |values| == |others| && n > 0
    requires HoldsAt(words, bits, values, n, i / n, i % n) && HoldsAt(words, bits, others, n, i / n, i % n)
    ensures values[i] == others[i]
  {
    assert i / n * n + i % n == i;
    hide Pow2, Unsigned;
  }

  lemma SlotHolds(words: seq<int>, bits: nat, size: nat, c: nat, k: nat)
    requires Shaped(words, bits, size)
    ensures HoldsAt(words, bits, Slots(words, bits, size), PerWord(bits), c, k)
  {
    var n := PerWord(bits);
    if k < n && c * n + k < size {
      var i := c * n + k;
      SlotFits(bits, size, i);
      DivideUnique(i, c, n, k);
      assert Cell(bits, i) == c;
      SlotOfWord(words, bits, size, c, k);
      assert AsUint64(words[c]) == Unsigned(words[c]);
      hide PerWord, WordCount, Slot;
    }
  }

  lemma WordsAreShaped(words: seq<int>, bits: nat, size: nat)
    requires 1 <= bits <= 32 && |words| == WordCount(bits, size)
    requires forall c :: 0 <= c < |words| ==> words[c] == 0 || exists n :: words[c] == AsInt64(n)
    ensures Shaped(words, bits, size)
  {
    hide WordCount;
  }

  // ---------------------------------------------------------------------------------------------
  // The object
  // ---------------------------------------------------------------------------------------------

  class BitStorage {
    const bits: nat
    const size: nat
    const mask: int
    const valuesPerLong: nat
    const data: array<int>

    ghost predicate Valid()
      reads data
    {
      && Shaped(data[..], bits, size)
      && mask == Pow2(bits) - 1
      && valuesPerLong == PerWord(bits)
    }

    /** The sequence the object stands for. */
    ghost function Values(): seq<nat>
      requires Valid()
      reads data
    {
      Slots(data[..], bits, size)
    }

    constructor FromWords(bits: nat, size: nat, words: seq<int>)
      requires Shaped(words, bits, size)
      ensures Valid() && fresh(data)
      ensures this.bits == bits && this.size == size && data[..] == words
    {
      this.bits := bits;
      this.size := size;
      this.mask := ShiftLeft(1, bits) - 1;
      this.valuesPerLong := 64 / bits;
      this.data := new int[|words|](i requires 0 <= i < |words| => words[i]);
      new;
      assert data[..] == words;
    }

    /** The program's constructor. `raw` words of any size are reduced to signed 64-bit ones. */
    static method Create(bits: int, size: int, raw: Option<seq<int>>) returns (r: Result<BitStorage, StorageError>)
      ensures r.Failure? <==> !(1 <= bits <= 32 && size >= 0 && (raw.Some? ==> |raw.value| == WordCount(bits, size)))
      ensures r.Success? ==>
        && fresh(r.value) && fresh(r.value.data) && r.value.Valid() && r.value.bits == bits && r.value.size == size
        && (raw.Some? ==> forall c :: 0 <= c < |raw.value| ==> r.value.data[c] == AsInt64(raw.value[c]))
        && (raw.None? ==> forall c :: 0 <= c < r.value.data.Length ==> r.value.data[c] == 0)
    {
      if bits < 1 || bits > 32 {
        return Failure(BadBits(bits));
      }
      if size < 0 {
        return Failure(BadSize(size));
      }
      var expectedLongs := WordCount(bits, size);
      hide *;
      var words: seq<int>;
      if raw.Some? {
        if |raw.value| != expectedLongs {
          return Failure(BadLength(|raw.value|, expectedLongs));
        }
        words := seq(expectedLongs, c requires 0 <= c < expectedLongs => AsInt64(raw.value[c]));
      } else {
        words := seq(expectedLongs, _ => 0);
      }
      WordsAreShaped(words, bits, size);
      var storage := new BitStorage.FromWords(bits, size, words);
      assert |storage.data[..]| == |words| && forall c :: 0 <= c < |words| ==> storage.data[..][c] == words[c];
      r := Success(storage);
    }

    method Get(index: int) returns (r: Result<nat, StorageError>)
      requires Valid()
      ensures r == if 0 <= index < size then Success(Values()[index]) else Failure(IndexOutOfBounds(index))
      ensures LaidOut(data[..], bits, Values())
    {
      SlotsAreLaidOut(data[..], bits, size, Values());
      if index < 0 || index >= size {
        return Failure(IndexOutOfBounds(index));
      }
      SlotFits(bits, size, index);
      var cellIndex := index / valuesPerLong;
      var bitIndex := (index - cellIndex * valuesPerLong) * bits;
      var word := AsUint64(data[cellIndex]);
      ShiftAndMask(word, bitIndex, bits);
      hide And, Pow2, ShiftRight, WordCount, Field;
      r := Success(And(ShiftRight(word, bitIndex), mask));
    }

    method Set(index: int, value: int) returns (r: Result<(), StorageError>)
      requires Valid()
      modifies data
      ensures Valid()
      ensures r == if !(0 <= index < size) then Failure(IndexOutOfBounds(index))
                   else if !(0 <= value < Pow2(bits)) then Failure(ValueOutOfBounds(value))
                   else Success(())
      ensures r.Failure? ==> data[..] == old(data[..])
      ensures r.Success? ==> data[..] == Updated(old(data[..]), bits, size, index, value)
      ensures r.Success? ==> Values() == old(Values())[index := value]
    {
      if index < 0 || index >= size {
        return Failure(IndexOutOfBounds(index));
      }
      if value < 0 || value > mask {
        return Failure(ValueOutOfBounds(value));
      }
      SlotFits(bits, size, index);
      var cellIndex := index / valuesPerLong;
      var bitIndex := (index - cellIndex * valuesPerLong) * bits;
      var word := AsUint64(data[cellIndex]);
      var cleared := And(word, Not(ShiftLeft(mask, bitIndex)));
      var updated := Or(cleared, ShiftLeft(And(value, mask), bitIndex));
      UpdateByBits(word, bitIndex, bits, value);
      UpdateSetsOneSlot(data[..], bits, size, index, value);
      hide And, Or, Pow2, ShiftLeft, Replaced, WordCount, Slot, Slots;
      data[cellIndex] := AsInt64(updated);
      r := Success(());
    }

    method GetAndSet(index: int, value: int) returns (r: Result<nat, StorageError>)
      requires Valid()
      modifies data
      ensures Valid()
      ensures r == if !(0 <= index < size) then Failure(IndexOutOfBounds(index))
                   else if !(0 <= value < Pow2(bits)) then Failure(ValueOutOfBounds(value))
                   else Success(old(Values())[index])
      ensures Values() == if r.Success? then old(Values())[index := value] else old(Values())
    {
      var previous :- Get(index);
      var _ :- Set(index, value);
      r := Success(previous);
    }

    /** Reads every word once, shifting it down slot by slot. */
    method GetAll() returns (values: seq<nat>)
      requires Valid()
      ensures values == Values()
      ensures |values| == size && LaidOut(data[..], bits, values)
    {
      SlotsAreLaidOut(data[..], bits, size, Values());
      values := [];
      for longIndex := 0 to data.Length
        invariant |values| == Numbers.Min(longIndex * valuesPerLong, size)
        invariant values == Values()[..|values|]
      {
        var word := AsUint64(data[longIndex]);
        ghost var start := word;
        var slot := 0;
        assert Pow2(0) == 1;
        while slot < valuesPerLong && |values| < size
          invariant 0 <= slot <= valuesPerLong
          invariant |values| == Numbers.Min(longIndex * valuesPerLong + slot, size)
          invariant word == start / Pow2(slot * bits)
          invariant values == Values()[..|values|]
        {
          SlotOfWord(data[..], bits, size, longIndex, slot);
          AndMask(word, bits);
          NextShift(start, slot, bits);
          values := values + [And(word, mask)];
          word := ShiftRight(word, bits);
          slot := slot + 1;
        }
        assert (longIndex + 1) * valuesPerLong == longIndex * valuesPerLong + valuesPerLong;
      }
      AllWordsCover(bits, size);
    }
  }

  lemma ShiftAndMask(word: int, k: nat, bits: nat)
    ensures And(ShiftRight(word, k), Pow2(bits) - 1) == Field(word, k, bits)
  {
    hide And;
    AndMask(ShiftRight(word, k), bits);
  }

  /** The masking, clearing and filling of `set` replace exactly one field. */
  lemma UpdateByBits(word: nat, k: nat, bits: nat, value: nat)
    requires bits > 0 && value < Pow2(bits)
    ensures var mask := Pow2(bits) - 1;
            Or(And(word, Not(ShiftLeft(mask, k))), ShiftLeft(And(value, mask), k)) == Replaced(word, k, bits, value)
  {
    AndMask(value, bits);
    DivideUnique(value, 0, Pow2(bits), value);
    hide And, Or, Field;
    AndClearsField(word, k, bits);
    var cleared := word - Field(word, k, bits) * Pow2(k);
    assert Replaced(word, k, bits, 0) == cleared;
    ReplacedParts(word, k, bits, 0);
    OrFillsField(cleared, k, bits, value);
  }

  lemma SlotOfWord(words: seq<int>, bits: nat, size: nat, c: nat, slot: nat)
    requires Shaped(words, bits, size) && slot < PerWord(bits) && c * PerWord(bits) + slot < size && c < |words|
    ensures Slot(words, bits, size, c * PerWord(bits) + slot) == AsUint64(words[c]) / Pow2(slot * bits) % Pow2(bits)
  {
    hide PerWord, WordCount;
    DivideUnique(c * PerWord(bits) + slot, c, PerWord(bits), slot);
  }

  lemma NextShift(x: int, slot: nat, bits: nat)
    ensures x / Pow2(slot * bits) / Pow2(bits) == x / Pow2((slot + 1) * bits)
  {
    assert (slot + 1) * bits == slot * bits + bits;
    DivideTwice(x, slot * bits, bits);
  }

  lemma AllWordsCover(bits: nat, size: nat)
    requires 1 <= bits <= 32
    ensures WordCount(bits, size) * PerWord(bits) >= size
  {
    var v := PerWord(bits);
    var t := size + v - 1;
    assert t == t / v * v + t % v;
  }

  method UnpackBitStorage(packed: seq<int>, bits: int, entries: int) returns (r: Result<seq<nat>, StorageError>)
    ensures r.Success? <==> 1 <= bits <= 32 && entries >= 0 && |packed| == WordCount(bits, entries)
    ensures r.Success? && (forall c :: 0 <= c < |packed| ==> IsInt64(packed[c])) ==>
            |r.value| == entries && LaidOut(packed, bits, r.value)
    ensures r.Success? && (forall c :: 0 <= c < |packed| ==> IsInt64(packed[c])) ==>
            r.value == Slots(packed, bits, entries)
  {
    hide LaidOut, Slots, PerWord, Pow2;
    var storage :- BitStorage.Create(bits, entries, Some(packed));
    if forall c :: 0 <= c < |packed| ==> IsInt64(packed[c]) {
      assert |storage.data[..]| == |packed|;
      forall c | 0 <= c < |packed| ensures storage.data[..][c] == packed[c] {
        WordRoundTrip(packed[c]);
      }
      assert storage.data[..] == packed;
    }
    var values := storage.GetAll();
    r := Success(values);
  }
}
