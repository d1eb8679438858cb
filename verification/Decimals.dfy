/** Numbers in decimal, and the keys that join them with separators. */
module Decimals {

  function Digit(d: nat): char
    requires d < 10
  {
    "0123456789"[d]
  }

  function Digits(n: nat): string {
    if n < 10 then [Digit(n)] else Digits(n / 10) + [Digit(n % 10)]
  }

  function Decimal(i: int): string {
    if i < 0 then "-" + Digits(-i) else Digits(i)
  }

  /** No digit and no sign: a character that ends a number. */
  predicate Separator(c: char) {
    c != '-' && !('0' <= c <= '9')
  }

  lemma {:induction false} DigitsAreDigits(n: nat)
    ensures Digits(n) != [] && forall c :: c in Digits(n) ==> '0' <= c <= '9'
  {
    if n >= 10 {
      DigitsAreDigits(n / 10);
    }
  }

  lemma DecimalHasNoSeparator(i: int)
    ensures forall c :: c in Decimal(i) ==> !Separator(c)
  {
    DigitsAreDigits(if i < 0 then -i else i);
  }

  function Value(s: string): int {
    if s == [] then 0 else 10 * Value(s[..|s| - 1]) + (s[|s| - 1] as int - '0' as int)
  }

  function Parse(s: string): int {
    if s != [] && s[0] == '-' then -Value(s[1..]) else Value(s)
  }

  lemma {:induction false} ValueOfDigits(n: nat)
    ensures Value(Digits(n)) == n
  {
    var s := Digits(n);
    if n < 10 {
      assert s[..0] == [] && Value(s[..0]) == 0;
    } else {
      ValueOfDigits(n / 10);
      assert s[..|s| - 1] == Digits(n / 10) && s[|s| - 1] == Digit(n % 10);
    }
  }

  /** Reading a number back. */
  lemma ParseDecimal(i: int)
    ensures Parse(Decimal(i)) == i
  {
    hide Digits, Value;
    if i < 0 {
      ValueOfDigits(-i);
      assert Decimal(i)[1..] == Digits(-i);
    } else {
      ValueOfDigits(i);
      DigitsAreDigits(i);
      assert Digits(i)[0] in Digits(i);
    }
  }

  lemma DecimalIsInjective(i: int, j: int)
    ensures Decimal(i) == Decimal(j) <==> i == j
  {
    ParseDecimal(i);
    ParseDecimal(j);
  }

  function First(s: string, c: char): nat {
    if s == [] || s[0] == c then 0 else 1 + First(s[1..], c)
  }

  function Last(s: string, c: char): int {
    if s == [] || s[|s| - 1] == c then |s| - 1 else Last(s[..|s| - 1], c)
  }

  lemma {:induction false} FirstAfter(a: string, c: char, x: string)
    requires c !in a
    ensures First(a + [c] + x, c) == |a|
  {
    if a != [] {
      assert (a + [c] + x)[1..] == a[1..] + [c] + x;
      FirstAfter(a[1..], c, x);
    }
  }

  lemma {:induction false} LastBefore(a: string, c: char, x: string)
    requires c !in x
    ensures Last(a + [c] + x, c) == |a|
  {
    if x != [] {
      var s := a + [c] + x;
      assert s[..|s| - 1] == a + [c] + x[..|x| - 1];
      LastBefore(a, c, x[..|x| - 1]);
    } else {
      assert a + [c] + x == a + [c];
    }
  }

  lemma Parts(a: string, c: char, x: string)
    ensures (a + [c] + x)[..|a|] == a && (a + [c] + x)[|a| + 1..] == x
  {
  }

  /** What two equal texts have before and after their first separator is equal. */
  lemma SplitFirst(c: char, a: string, b: string, x: string, y: string)
    requires c !in a && c !in b && a + [c] + x == b + [c] + y
    ensures a == b && x == y
  {
    FirstAfter(a, c, x);
    FirstAfter(b, c, y);
    Parts(a, c, x);
    Parts(b, c, y);
  }

  /** What two equal texts have before and after their last separator is equal. */
  lemma SplitLast(c: char, a: string, b: string, x: string, y: string)
    requires c !in x && c !in y && a + [c] + x == b + [c] + y
    ensures a == b && x == y
  {
    LastBefore(a, c, x);
    LastBefore(b, c, y);
    Parts(a, c, x);
    Parts(b, c, y);
  }

  /** `x,z`. */
  function PairKey(x: int, z: int): string {
    Decimal(x) + [','] + Decimal(z)
  }

  /** `x,y,z`. */
  function TripleKey(x: int, y: int, z: int): string {
    Decimal(x) + [','] + PairKey(y, z)
  }

  lemma PairKeyIsInjective(x: int, z: int, x': int, z': int)
    ensures PairKey(x, z) == PairKey(x', z') <==> x == x' && z == z'
  {
    if PairKey(x, z) == PairKey(x', z') {
      DecimalHasNoSeparator(x);
      DecimalHasNoSeparator(x');
      SplitFirst(',', Decimal(x), Decimal(x'), Decimal(z), Decimal(z'));
      DecimalIsInjective(x, x');
      DecimalIsInjective(z, z');
    }
  }

  lemma TripleKeyIsInjective(x: int, y: int, z: int, x': int, y': int, z': int)
    ensures TripleKey(x, y, z) == TripleKey(x', y', z') <==> x == x' && y == y' && z == z'
  {
    if TripleKey(x, y, z) == TripleKey(x', y', z') {
      DecimalHasNoSeparator(x);
      DecimalHasNoSeparator(x');
      SplitFirst(',', Decimal(x), Decimal(x'), PairKey(y, z), PairKey(y', z'));
      DecimalIsInjective(x, x');
      PairKeyIsInjective(y, z, y', z');
    }
  }
}
