/** Shared vocabulary: optional values, Java `int` range and arithmetic,
    and counting over sequences. */
module Common {

  /** Java's `null` (or the engine's "null move") is `None`. */
  datatype Option<+T> = None | Some(value: T)

  const MIN_INT: int := -0x8000_0000
  const MAX_INT: int := 0x7FFF_FFFF

  /** The values a Java `int` can hold. */
  type Int32 = x: int | MIN_INT <= x <= MAX_INT

  function Max2(a: int, b: int): int { if a >= b then a else b }
  function Min2(a: int, b: int): int { if a <= b then a else b }

  /** Two's-complement wrap-around of a mathematical integer into a Java `int`. */
  function Wrap32(x: int): (r: Int32)
    ensures (r - x) % 0x1_0000_0000 == 0
    ensures MIN_INT <= x <= MAX_INT ==> r == x
  {
    var m := x % 0x1_0000_0000;
    if m <= MAX_INT then m else m - 0x1_0000_0000
  }

  /** Integers congruent modulo 2^32 wrap to the same Java `int`. */
  lemma WrapCongruent(a: int, b: int)
    requires (a - b) % 0x1_0000_0000 == 0
    ensures Wrap32(a) == Wrap32(b)
  {
    var q := (a - b) / 0x1_0000_0000;
    assert a == b + 0x1_0000_0000 * q;
    assert a % 0x1_0000_0000 == b % 0x1_0000_0000;
  }

  /** Java's `int` `+`, `-` and `*` are arithmetic modulo 2^32: wrapping the
      operands first changes nothing, so wrapping an exact result once is the
      same as wrapping after every operation. */
  lemma JavaIntArithmetic(a: int, b: int)
    ensures Wrap32(Wrap32(a) + Wrap32(b)) == Wrap32(a + b)
    ensures Wrap32(Wrap32(a) - Wrap32(b)) == Wrap32(a - b)
    ensures Wrap32(Wrap32(a) * Wrap32(b)) == Wrap32(a * b)
  {
    WrapSum(a, b);
    WrapProduct(a, b);
  }

  lemma WrapSum(a: int, b: int)
    ensures Wrap32(Wrap32(a) + Wrap32(b)) == Wrap32(a + b)
    ensures Wrap32(Wrap32(a) - Wrap32(b)) == Wrap32(a - b)
  {
    var k := WrapShift(a);
    var l := WrapShift(b);
    MultipleOfModulus(k + l);
    MultipleOfModulus(k - l);
    WrapCongruent(Wrap32(a) + Wrap32(b), a + b);
    WrapCongruent(Wrap32(a) - Wrap32(b), a - b);
  }

  /** Wrapping adds a multiple of 2^32. */
  lemma WrapShift(x: int) returns (k: int)
    ensures Wrap32(x) == x + 0x1_0000_0000 * k
  {
    k := (Wrap32(x) - x) / 0x1_0000_0000;
  }

  lemma WrapProduct(a: int, b: int)
    ensures Wrap32(Wrap32(a) * Wrap32(b)) == Wrap32(a * b)
  {
    var k := WrapShift(a);
    var l := WrapShift(b);
    var wa: int, wb: int := Wrap32(a), Wrap32(b);
    ProductCongruent(a, b, wa, wb, k, l);
    WrapCongruent(wa * wb, a * b);
  }

  /** Shifting both factors by multiples of 2^32 shifts the product by one. */
  lemma ProductCongruent(a: int, b: int, wa: int, wb: int, k: int, l: int)
    requires wa == a + 0x1_0000_0000 * k && wb == b + 0x1_0000_0000 * l
    ensures (wa * wb - a * b) % 0x1_0000_0000 == 0
  {
    ProductShift(a, b, k, l);
    MultipleOfModulus(k * b + l * a + 0x1_0000_0000 * k * l);
  }

  /** Java's unary minus on a difference: `-(x - y)` is `y - x`. */
  lemma WrapNegatedDifference(x: int, y: int)
    ensures Wrap32(y - x) == Wrap32(0 - Wrap32(x - y))
  {
    WrapSum(0, x - y);
  }

  lemma ProductShift(a: int, b: int, k: int, l: int)
    ensures (a + 0x1_0000_0000 * k) * (b + 0x1_0000_0000 * l) - a * b
         == 0x1_0000_0000 * (k * b + l * a + 0x1_0000_0000 * k * l)
  {
  }

  lemma MultipleOfModulus(x: int)
    ensures (0x1_0000_0000 * x) % 0x1_0000_0000 == 0
  {
  }

  /** Java's `/` on `int`: truncates toward zero (Dafny's `/` is Euclidean). */
  function JavaDiv(a: int, b: int): (q: int)
    requires b != 0
    ensures a >= 0 && b > 0 ==> q == a / b
    ensures q * b == a - JavaRem(a, b)
    ensures (a >= 0 ==> 0 <= JavaRem(a, b) < Abs(b)) && (a < 0 ==> -Abs(b) < JavaRem(a, b) <= 0)
  {
    var q0 := Abs(a) / Abs(b);
    if (a >= 0) == (b > 0) then q0 else -q0
  }

  function JavaRem(a: int, b: int): int
    requires b != 0
  {
    var r0 := Abs(a) % Abs(b);
    if a >= 0 then r0 else -r0
  }

  function Abs(a: int): int { if a >= 0 then a else -a }

  /** Number of elements of `s` satisfying `p`, counted left to right. */
  function CountIf<T>(s: seq<T>, p: T -> bool): (n: nat)
    ensures n <= |s|
  {
    if |s| == 0 then 0 else (if p(s[0]) then 1 else 0) + CountIf(s[1..], p)
  }

  /** Counting distributes over concatenation. */
  lemma {:induction false} CountIfAppend<T>(a: seq<T>, b: seq<T>, p: T -> bool)
    ensures CountIf(a + b, p) == CountIf(a, p) + CountIf(b, p)
  {
    if |a| == 0 {
      assert a + b == b;
    } else {
      assert (a + b)[1..] == a[1..] + b;
      CountIfAppend(a[1..], b, p);
    }
  }

  /** The elements of `s` satisfying `p`, in their original order. */
  function Filter<T(!new)>(s: seq<T>, p: T -> bool): (r: seq<T>)
    ensures |r| == CountIf(s, p)
    ensures forall x :: x in r <==> x in s && p(x)
  {
    if |s| == 0 then [] else (if p(s[0]) then [s[0]] else []) + Filter(s[1..], p)
  }

  lemma {:induction false} FilterAppend<T(!new)>(a: seq<T>, b: seq<T>, p: T -> bool)
    ensures Filter(a + b, p) == Filter(a, p) + Filter(b, p)
  {
    if |a| == 0 {
      assert a + b == b;
    } else {
      assert (a + b)[1..] == a[1..] + b;
      FilterAppend(a[1..], b, p);
    }
  }

  /** Concatenation of a sequence of sequences. */
  function Flatten<T>(ss: seq<seq<T>>): seq<T>
  {
    if |ss| == 0 then [] else ss[0] + Flatten(ss[1..])
  }

  lemma {:induction false} FlattenAppend<T>(a: seq<seq<T>>, b: seq<seq<T>>)
    ensures Flatten(a + b) == Flatten(a) + Flatten(b)
  {
    if |a| == 0 {
      assert a + b == b;
    } else {
      assert (a + b)[1..] == a[1..] + b;
      FlattenAppend(a[1..], b);
    }
  }

  function Sum(s: seq<int>): int
  {
    if |s| == 0 then 0 else s[0] + Sum(s[1..])
  }

  /** Sequences with the same multiset have the same elements. */
  lemma SameElements<T>(a: seq<T>, b: seq<T>)
    requires multiset(a) == multiset(b)
    ensures forall x :: x in a <==> x in b
  {
    forall x ensures x in a <==> x in b {
      assert x in a <==> x in multiset(a);
      assert x in b <==> x in multiset(b);
    }
  }
}
