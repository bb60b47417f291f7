/** Runtime values of types.c and the order value_compare gives them. */
module Values {
  import opened Pages

  const TWO63 := 0x8000_0000_0000_0000
  const TWO64 := 0x1_0000_0000_0000_0000

  type Int64 = i: int | -TWO63 <= i < TWO63
  type Bits64 = b: int | 0 <= b < TWO64

  /** A double is its bit pattern in the binary64 format of IEEE 754-2008. */
  datatype Value = Null | Int(i: Int64) | Real(bits: Bits64) | Text(text: seq<Byte>)

  function Sign(i: int): int {
    if i < 0 then -1 else if i > 0 then 1 else 0
  }

  /** memcmp on the common length, then the shorter first: the order of TEXT values
      (src/types.c:61-68) and of index keys (key_compare, src/btree.c:116-128). */
  function ByteCompare(a: seq<Byte>, b: seq<Byte>): (c: int)
    ensures -1 <= c <= 1
  {
    if a == [] || b == [] then Sign(|a| - |b|)
    else if a[0] != b[0] then Sign(a[0] as int - b[0] as int)
    else ByteCompare(a[1..], b[1..])
  }

  lemma {:induction false} ByteCompareSame(a: seq<Byte>, b: seq<Byte>)
    ensures ByteCompare(a, b) == 0 <==> a == b
  {
    if a != [] && b != [] && a[0] == b[0] {
      ByteCompareSame(a[1..], b[1..]);
      assert a == [a[0]] + a[1..] && b == [b[0]] + b[1..];
    }
  }

  lemma {:induction false} ByteCompareFlips(a: seq<Byte>, b: seq<Byte>)
    ensures ByteCompare(b, a) == -ByteCompare(a, b)
  {
    if a != [] && b != [] && a[0] == b[0] {
      ByteCompareFlips(a[1..], b[1..]);
    }
  }

  lemma {:induction false} ByteCompareTransitive(a: seq<Byte>, b: seq<Byte>, c: seq<Byte>)
    requires ByteCompare(a, b) <= 0 && ByteCompare(b, c) <= 0
    ensures ByteCompare(a, c) <= 0
  {
    if a != [] && b != [] && c != [] && a[0] == b[0] == c[0] {
      ByteCompareTransitive(a[1..], b[1..], c[1..]);
    }
  }

  /** A common prefix does not matter. */
  lemma {:induction false} ByteCompareAfter(p: seq<Byte>, a: seq<Byte>, b: seq<Byte>)
    ensures ByteCompare(p + a, p + b) == ByteCompare(a, b)
  {
    if p == [] {
      assert p + a == a && p + b == b;
    } else {
      assert (p + a)[1..] == p[1..] + a && (p + b)[1..] == p[1..] + b;
      ByteCompareAfter(p[1..], a, b);
    }
  }

  /** Where two strings differ before either ends, what follows does not matter. */
  lemma {:induction false} ByteCompareBefore(a: seq<Byte>, b: seq<Byte>, x: seq<Byte>, y: seq<Byte>)
    requires !(a <= b) && !(b <= a)
    ensures ByteCompare(a + x, b + y) == ByteCompare(a, b)
  {
    assert (a + x)[0] == a[0] && (b + y)[0] == b[0];
    if a[0] == b[0] {
      assert a == [a[0]] + a[1..] && b == [b[0]] + b[1..];
      assert (a + x)[1..] == a[1..] + x && (b + y)[1..] == b[1..] + y;
      ByteCompareBefore(a[1..], b[1..], x, y);
    }
  }

  // ---------- doubles ----------

  const MANTISSA := 0x10_0000_0000_0000  // 2^52

  function Pow2(n: nat): (p: nat)
    ensures p > 0
  {
    if n == 0 then 1 else 2 * Pow2(n - 1)
  }

  function Negative(b: Bits64): bool {
    b >= TWO63
  }

  /** The bits without the sign. */
  function Unsigned(b: Bits64): nat {
    if Negative(b) then b - TWO63 else b
  }

  const INFINITY := 2047 * MANTISSA

  predicate IsNan(b: Bits64) {
    Unsigned(b) > INFINITY
  }

  /** |x| in units of the least positive double; an infinity comes out as the first power
      of two that is too large. */
  function Magnitude(u: nat): nat {
    var exponent, fraction := u / MANTISSA, u % MANTISSA;
    if exponent == 0 then fraction else (MANTISSA + fraction) * Pow2(exponent - 1)
  }

  function Number(b: Bits64): int
    requires !IsNan(b)
  {
    var m: int := Magnitude(Unsigned(b));
    if Negative(b) then -m else m
  }

  predicate IsZero(b: Bits64) {
    Unsigned(b) == 0
  }

  /** The C operators: every comparison with a NaN is false, so value_compare says 0. */
  function DoubleCompare(a: Bits64, b: Bits64): int {
    if IsNan(a) || IsNan(b) then 0 else Sign(Number(a) - Number(b))
  }

  lemma MagnitudeStep(u: nat)
    ensures Magnitude(u) < Magnitude(u + 1)
  {
    var e, f := u / MANTISSA, u % MANTISSA;
    assert u == e * MANTISSA + f;
    if f + 1 < MANTISSA {
      assert (u + 1) / MANTISSA == e && (u + 1) % MANTISSA == f + 1;
      if e > 0 {
        assert (MANTISSA + f + 1) * Pow2(e - 1) == (MANTISSA + f) * Pow2(e - 1) + Pow2(e - 1);
      }
    } else {
      assert (u + 1) / MANTISSA == e + 1 && (u + 1) % MANTISSA == 0;
      if e > 0 {
        var p := Pow2(e - 1);
        assert Pow2(e) == 2 * p;
        assert (MANTISSA + f) * p < (MANTISSA + f + 1) * p == MANTISSA * (2 * p);
      }
    }
  }

  /** The bits of non-negative doubles are in the order of the numbers. */
  lemma {:induction false} MagnitudeGrows(u: nat, v: nat)
    requires u < v
    ensures Magnitude(u) < Magnitude(v)
    decreases v - u
  {
    MagnitudeStep(u);
    if u + 1 < v {
      MagnitudeGrows(u + 1, v);
    }
  }

  // ---------- value_compare ----------

  /** value_compare on two values of one type, or one of them NULL. */
  predicate Comparable(a: Value, b: Value) {
    a.Null? || b.Null? || (a.Int? && b.Int?) || (a.Real? && b.Real?) || (a.Text? && b.Text?)
  }

  function ValueCompare(a: Value, b: Value): int
    requires Comparable(a, b)
  {
    if a.Null? && b.Null? then 0
    else if a.Null? then -1
    else if b.Null? then 1
    else if a.Text? then ByteCompare(a.text, b.text)
    else if a.Int? then Sign(a.i - b.i)
    else DoubleCompare(a.bits, b.bits)
  }

  // ---------- what the order is ----------

  /** They agree up to place k, where a ends or has the lesser byte. */
  ghost predicate BelowAt(a: seq<Byte>, b: seq<Byte>, k: nat) {
    k <= |a| && k < |b| && a[..k] == b[..k] && (k < |a| ==> a[k] < b[k])
  }

  /** The first differing byte decides, or else the length. */
  ghost predicate TextLess(a: seq<Byte>, b: seq<Byte>) {
    exists k :: BelowAt(a, b, k)
  }

  /** The order of values of one type, NULL below all. */
  ghost predicate Less(a: Value, b: Value) {
    || (a.Null? && !b.Null?)
    || (a.Int? && b.Int? && a.i < b.i)
    || (a.Real? && b.Real? && !IsNan(a.bits) && !IsNan(b.bits) && Number(a.bits) < Number(b.bits))
    || (a.Text? && b.Text? && TextLess(a.text, b.text))
  }

  /** A NaN is as good as any number. */
  ghost predicate Same(a: Value, b: Value) {
    a == b || (a.Real? && b.Real? && (IsNan(a.bits) || IsNan(b.bits) || Number(a.bits) == Number(b.bits)))
  }

  lemma FirstByte(a: seq<Byte>, b: seq<Byte>, k: nat)
    requires BelowAt(a, b, k)
    ensures a != [] && k > 0 ==> a[0] == b[0]
  {
    if k > 0 {
      assert a[..k][0] == a[0] && b[..k][0] == b[0];
    }
  }

  lemma {:induction false} ByteCompareMeans(a: seq<Byte>, b: seq<Byte>)
    ensures ByteCompare(a, b) < 0 <==> TextLess(a, b)
  {
    if a != [] && b != [] && a[0] == b[0] {
      ByteCompareMeans(a[1..], b[1..]);
      if TextLess(a[1..], b[1..]) {
        var k: nat :| BelowAt(a[1..], b[1..], k);
        assert a[..k + 1] == [a[0]] + a[1..][..k] && b[..k + 1] == [b[0]] + b[1..][..k];
        assert BelowAt(a, b, k + 1);
      }
      if TextLess(a, b) {
        var k: nat :| BelowAt(a, b, k);
        assert a[1..][..k - 1] == a[..k][1..] && b[1..][..k - 1] == b[..k][1..];
        assert BelowAt(a[1..], b[1..], k - 1);
      }
    } else if TextLess(a, b) {
      var k: nat :| BelowAt(a, b, k);
      FirstByte(a, b, k);
    } else if b != [] && (a == [] || a[0] < b[0]) {
      assert BelowAt(a, b, 0);
    }
  }

  /** value_compare on two values of one type or NULL. */
  lemma CompareMeans(a: Value, b: Value)
    requires Comparable(a, b)
    ensures ValueCompare(a, b) < 0 <==> Less(a, b)
    ensures ValueCompare(a, b) > 0 <==> Less(b, a)
    ensures ValueCompare(a, b) == 0 <==> Same(a, b)
  {
    if a.Text? && b.Text? {
      ByteCompareMeans(a.text, b.text);
      ByteCompareMeans(b.text, a.text);
      ByteCompareFlips(a.text, b.text);
      ByteCompareSame(a.text, b.text);
    }
  }
}
