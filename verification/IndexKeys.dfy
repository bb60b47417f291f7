/** The index keys of record.c: a type tag, the value's bytes and the rowid. */
module IndexKeys {
  import opened Pages
  import opened Values

  // ---------- big-endian integers ----------

  function Be(v: nat, n: nat): (s: seq<Byte>)
    ensures |s| == n
  {
    if n == 0 then [] else Be(v / 256, n - 1) + [v % 256]
  }

  function FromBe(s: seq<Byte>): nat {
    if s == [] then 0 else FromBe(s[..|s| - 1]) * 256 + s[|s| - 1] as int
  }

  function Pow256(n: nat): (p: nat)
    ensures p > 0
  {
    if n == 0 then 1 else 256 * Pow256(n - 1)
  }

  lemma Pow256Of8()
    ensures Pow256(8) == TWO64 && Pow256(7) == 0x100_0000_0000_0000
  {
    assert Pow256(4) == 0x1_0000_0000;
    assert Pow256(5) == 256 * Pow256(4) && Pow256(6) == 256 * Pow256(5) && Pow256(7) == 256 * Pow256(6);
  }

  lemma {:induction false} FromBeBound(s: seq<Byte>)
    ensures FromBe(s) < Pow256(|s|)
  {
    if s != [] {
      FromBeBound(s[..|s| - 1]);
    }
  }

  lemma {:induction false} FromBeOfBe(v: nat, n: nat)
    requires v < Pow256(n)
    ensures FromBe(Be(v, n)) == v
  {
    if n > 0 {
      FromBeOfBe(v / 256, n - 1);
      assert Be(v, n)[..n - 1] == Be(v / 256, n - 1);
    }
  }

  lemma {:induction false} FromBeFirst(s: seq<Byte>)
    requires s != []
    ensures FromBe(s) == s[0] as int * Pow256(|s| - 1) + FromBe(s[1..])
  {
    var n := |s|;
    if n > 1 {
      var front, rest := s[..n - 1], s[1..];
      FromBeFirst(front);
      assert front[1..] == rest[..n - 2] && front[0] == s[0] && rest[n - 2] == s[n - 1];
      AnotherDigit(s[0] as int, Pow256(n - 2), FromBe(rest[..n - 2]), s[n - 1] as int);
    }
  }

  lemma AnotherDigit(x: int, p: int, y: int, last: int)
    ensures (x * p + y) * 256 + last == x * (256 * p) + (y * 256 + last)
  {
    assert (x * p) * 256 == x * (256 * p);
  }

  /** A leading digit decides, unless it is the same. */
  lemma DigitsInTurn(x: nat, u: nat, y: nat, v: nat, p: nat)
    requires u < p && v < p
    ensures Sign((x * p + u) - (y * p + v)) == if x != y then Sign(x - y) else Sign(u - v)
  {
    if x < y {
      Times(x + 1, y, p);
      assert (x + 1) * p == x * p + p;
    } else if y < x {
      Times(y + 1, x, p);
      assert (y + 1) * p == y * p + p;
    }
  }

  /** Big-endian numbers of one width are in byte order. */
  lemma {:induction false} BeOrder(a: seq<Byte>, b: seq<Byte>)
    requires |a| == |b|
    ensures ByteCompare(a, b) == Sign(FromBe(a) - FromBe(b))
  {
    if a != [] {
      FromBeFirst(a);
      FromBeFirst(b);
      FromBeBound(a[1..]);
      FromBeBound(b[1..]);
      BeOrder(a[1..], b[1..]);
      DigitsInTurn(a[0], FromBe(a[1..]), b[0], FromBe(b[1..]), Pow256(|a| - 1));
    }
  }

  lemma Times(x: nat, y: nat, p: nat)
    requires x <= y
    ensures x * p <= y * p
  {
    assert y * p == x * p + (y - x) * p;
  }

  /** put_be64 */
  method PutBe64(out: array<Byte>, pos: nat, v: Bits64)
    requires pos + 8 <= out.Length
    modifies out
    ensures out[pos..pos + 8] == Be(v, 8)
    ensures forall k :: 0 <= k < out.Length && !(pos <= k < pos + 8) ==> out[k] == old(out[k])
  {
    var i, shifted: nat := 8, v;
    while i > 0
      invariant 0 <= i <= 8
      invariant Be(v, 8) == Be(shifted, i) + out[pos + i..pos + 8]
      invariant forall k :: 0 <= k < out.Length && !(pos <= k < pos + 8) ==> out[k] == old(out[k])
    {
      i := i - 1;
      ghost var tail := out[pos + i + 1..pos + 8];
      out[pos + i] := shifted % 256;
      assert out[pos + i..pos + 8] == [shifted % 256] + tail;
      assert Be(shifted, i + 1) + tail == Be(shifted / 256, i) + ([shifted % 256] + tail);
      shifted := shifted / 256;
    }
  }

  /** get_be64 */
  method GetBe64(data: seq<Byte>) returns (v: Bits64)
    requires |data| >= 8
    ensures v == Word(data)
  {
    var sum: nat := 0;
    for i := 0 to 8
      invariant sum == FromBe(data[..i])
    {
      assert data[..i + 1][..i] == data[..i];
      sum := sum * 256 + data[i] as int;
    }
    FromBeBound(data[..8]);
    Pow256Of8();
    v := sum;
  }

  // ---------- the encoding ----------

  /** The cast of a signed to an unsigned 64-bit integer. */
  function Unsign(i: Int64): Bits64 {
    if i < 0 then i + TWO64 else i
  }

  function Resign(u: Bits64): Int64 {
    if u >= TWO63 then u - TWO64 else u
  }

  /** Exclusive or with the top bit. */
  function FlipTop(u: Bits64): Bits64 {
    if u >= TWO63 then u - TWO63 else u + TWO63
  }

  /** double_to_ordered_bits */
  function OrderedBits(b: Bits64): Bits64 {
    if b >= TWO63 then TWO64 - 1 - b else b + TWO63
  }

  /** ordered_bits_to_double */
  function DoubleOf(o: Bits64): Bits64 {
    if o >= TWO63 then o - TWO63 else TWO64 - 1 - o
  }

  function Tag(v: Value): Byte {
    match v
    case Null => 0
    case Int(_) => 1
    case Real(_) => 2
    case Text(_) => 3
  }

  function ValueBytes(v: Value): seq<Byte> {
    match v
    case Null => []
    case Int(i) => Be(FlipTop(Unsign(i)), 8)
    case Real(bits) => Be(OrderedBits(bits), 8)
    case Text(text) => text
  }

  /** The bytes an index probe compares: all but the rowid. */
  function Prefix(v: Value): seq<Byte> {
    [Tag(v)] + ValueBytes(v)
  }

  function Encode(v: Value, rowid: Int64): seq<Byte> {
    Prefix(v) + Be(Unsign(rowid), 8)
  }

  /** index_key_encode, filling the caller's buffer. */
  method IndexKeyEncode(v: Value, rowid: Int64, out: array<Byte>) returns (pos: nat)
    requires |Encode(v, rowid)| <= out.Length
    modifies out
    ensures pos == |Encode(v, rowid)| && out[..pos] == Encode(v, rowid)
  {
    out[0] := Tag(v);
    pos := PutValue(v, out);
    assert out[..pos] == [out[0]] + out[1..pos] == Prefix(v);
    var id: Bits64 := Unsign(rowid);
    PutBe64(out, pos, id);
    assert out[..pos] == Prefix(v) && out[..pos + 8] == out[..pos] + out[pos..pos + 8];
    pos := pos + 8;
  }

  method PutValue(v: Value, out: array<Byte>) returns (pos: nat)
    requires 1 + |ValueBytes(v)| <= out.Length
    modifies out
    ensures pos == 1 + |ValueBytes(v)| && out[1..pos] == ValueBytes(v) && out[0] == old(out[0])
  {
    match v {
      case Null =>
        pos := 1;
      case Int(i) =>
        PutBe64(out, 1, FlipTop(Unsign(i)));
        pos := 9;
      case Real(bits) =>
        PutBe64(out, 1, OrderedBits(bits));
        pos := 9;
      case Text(text) =>
        forall k | 0 <= k < |text| {
          out[1 + k] := text[k];
        }
        pos := 1 + |text|;
    }
  }

  predicate Decodable(data: seq<Byte>) {
    |data| >= 9 && data[0] <= 3 && (data[0] in {1, 2} ==> |data| >= 17)
  }

  /** index_key_decode */
  method IndexKeyDecode(data: seq<Byte>) returns (v: Value, rowid: Int64)
    requires Decodable(data)
    ensures forall w, r :: data == Encode(w, r) ==> v == w && rowid == r
  {
    var pos, u: Bits64 := 1, 0;
    match data[0] {
      case 0 =>
        v := Null;
      case 1 =>
        u := GetBe64(data[1..]);
        pos := 9;
        v := Int(Resign(FlipTop(u)));
      case 2 =>
        u := GetBe64(data[1..]);
        pos := 9;
        v := Real(DoubleOf(u));
      case _ =>
        v := Text(data[1..|data| - 8]);
        pos := |data| - 8;
    }
    var o := GetBe64(data[pos..]);
    rowid := Resign(o);
    forall w, r | data == Encode(w, r) ensures v == w && rowid == r {
      EncodedParts(w, r);
    }
  }

  /** get_be64 as a number. */
  function Word(s: seq<Byte>): Bits64
    requires |s| >= 8
  {
    FromBeBound(s[..8]);
    Pow256Of8();
    FromBe(s[..8])
  }

  lemma WordOfBe(v: Bits64, rest: seq<Byte>)
    ensures Word(Be(v, 8) + rest) == v
  {
    Pow256Of8();
    FromBeOfBe(v, 8);
    assert (Be(v, 8) + rest)[..8] == Be(v, 8);
  }

  /** What the parts of an encoded key decode to. */
  lemma EncodedParts(v: Value, rowid: Int64)
    ensures var e := Encode(v, rowid);
            && Decodable(e) && e[0] == Tag(v)
            && (v.Null? ==> |e| == 9)
            && (v.Int? ==> |e| == 17 && Resign(FlipTop(Word(e[1..]))) == v.i)
            && (v.Real? ==> |e| == 17 && DoubleOf(Word(e[1..])) == v.bits)
            && (v.Text? ==> e[1..|e| - 8] == v.text)
            && Resign(Word(e[|e| - 8..])) == rowid
  {
    var e, rid := Encode(v, rowid), Be(Unsign(rowid), 8);
    assert e[|e| - 8..] == rid + [];
    WordOfBe(Unsign(rowid), []);
    assert e[1..] == ValueBytes(v) + rid;
    match v {
      case Null =>
      case Int(i) =>
        WordOfBe(FlipTop(Unsign(i)), rid);
      case Real(bits) =>
        WordOfBe(OrderedBits(bits), rid);
      case Text(text) =>
        assert e[1..|e| - 8] == text;
    }
  }

  /** No two (value, rowid) pairs share a key. */
  lemma EncodeInjective(v: Value, r: Int64, w: Value, s: Int64)
    requires Encode(v, r) == Encode(w, s)
    ensures v == w && r == s
  {
    EncodedParts(v, r);
    EncodedParts(w, s);
  }

  // ---------- the order of keys ----------

  /** totalOrder of section 5.10 of IEEE 754-2008 on the binary64 format: negative below
      positive, then by magnitude, reversed for negative numbers. */
  function TotalOrder(a: Bits64, b: Bits64): int {
    if Negative(a) != Negative(b) then if Negative(a) then -1 else 1
    else if Negative(a) then Sign(Unsigned(b) - Unsigned(a))
    else Sign(Unsigned(a) - Unsigned(b))
  }

  /** On numbers, totalOrder is numeric order except that it tells the zeros apart. */
  lemma TotalOrderIsNumeric(a: Bits64, b: Bits64)
    requires !IsNan(a) && !IsNan(b)
    ensures TotalOrder(a, b) == DoubleCompare(a, b) <==> !(IsZero(a) && IsZero(b) && a != b)
  {
    var u, v := Unsigned(a), Unsigned(b);
    if u < v {
      MagnitudeGrows(u, v);
    } else if v < u {
      MagnitudeGrows(v, u);
    }
    if u > 0 {
      MagnitudeGrows(0, u);
    }
    if v > 0 {
      MagnitudeGrows(0, v);
    }
    assert Magnitude(0) == 0;
  }

  /** The order that key bytes give two values of one type, INT or REAL or NULL. */
  function KeyOrder(a: Value, b: Value): int
    requires Tag(a) == Tag(b) && !a.Text?
  {
    match a
    case Null => 0
    case Int(i) => Sign(i - b.i)
    case Real(bits) => TotalOrder(bits, b.bits)
  }

  lemma WordsInOrder(u: Bits64, v: Bits64)
    ensures ByteCompare(Be(u, 8), Be(v, 8)) == Sign(u - v)
  {
    Pow256Of8();
    FromBeOfBe(u, 8);
    FromBeOfBe(v, 8);
    BeOrder(Be(u, 8), Be(v, 8));
  }

  lemma RowidOrder(r: Int64, s: Int64)
    ensures ByteCompare(Be(Unsign(r), 8), Be(Unsign(s), 8)) == Sign(Unsign(r) - Unsign(s))
  {
    WordsInOrder(Unsign(r), Unsign(s));
  }

  /** Parts of equal length are compared one after the other. */
  lemma {:induction false} PartsInTurn(a: seq<Byte>, b: seq<Byte>, x: seq<Byte>, y: seq<Byte>)
    requires |a| == |b|
    ensures ByteCompare(a + x, b + y) == if a == b then ByteCompare(x, y) else ByteCompare(a, b)
  {
    if a == b {
      ByteCompareAfter(a, x, y);
    } else {
      ByteCompareBefore(a, b, x, y);
    }
  }

  lemma ValueBytesOrder(a: Value, b: Value)
    requires Tag(a) == Tag(b) && !a.Text?
    ensures |Prefix(a)| == |Prefix(b)|
    ensures ByteCompare(Prefix(a), Prefix(b)) == KeyOrder(a, b)
    ensures Prefix(a) == Prefix(b) <==> a == b
  {
    ByteCompareAfter([Tag(a)], ValueBytes(a), ValueBytes(b));
    match a {
      case Null =>
      case Int(i) =>
        WordsInOrder(FlipTop(Unsign(i)), FlipTop(Unsign(b.i)));
      case Real(bits) =>
        WordsInOrder(OrderedBits(bits), OrderedBits(b.bits));
    }
    ByteCompareSame(Prefix(a), Prefix(b));
  }

  /** Byte order of keys of one type: the values, then the rowids as unsigned numbers. */
  lemma KeysInOrder(a: Value, r: Int64, b: Value, s: Int64)
    requires Tag(a) == Tag(b) && !a.Text?
    ensures ByteCompare(Encode(a, r), Encode(b, s)) == if a != b then KeyOrder(a, b) else Sign(Unsign(r) - Unsign(s))
    ensures a != b ==> KeyOrder(a, b) != 0
  {
    ValueBytesOrder(a, b);
    ByteCompareSame(Prefix(a), Prefix(b));
    PartsInTurn(Prefix(a), Prefix(b), Be(Unsign(r), 8), Be(Unsign(s), 8));
    RowidOrder(r, s);
  }

  /** The order the header of record.h promises: value_compare, then rowid. */
  function PromisedOrder(a: Value, r: Int64, b: Value, s: Int64): int
    requires Comparable(a, b)
  {
    if ValueCompare(a, b) != 0 then ValueCompare(a, b) else Sign(r - s)
  }

  /** When the keys of two comparable values are in the promised order: for equal values if
      both rowids or none is negative; for REAL values that value_compare takes for equal
      (the zeros, or one a NaN) if the rowids happen to be in the order of the bits; for a
      text and a longer one that starts with it if the shorter one's rowid is at most the
      number in the eight bytes that follow the common part in the other key. */
  predicate Orderly(a: Value, r: Int64, b: Value, s: Int64)
    requires Comparable(a, b)
  {
    if a == b then r < 0 <==> s < 0
    else if a.Real? && b.Real? && ValueCompare(a, b) == 0 then Sign(r - s) == TotalOrder(a.bits, b.bits)
    else if a.Text? && b.Text? && a.text <= b.text then Unsign(r) <= Word(b.text[|a.text|..] + Be(Unsign(s), 8))
    else if a.Text? && b.Text? && b.text <= a.text then Unsign(s) <= Word(a.text[|b.text|..] + Be(Unsign(r), 8))
    else true
  }

  /** The promise is kept for exactly these pairs. */
  lemma KeysOrderedAsPromised(a: Value, r: Int64, b: Value, s: Int64)
    requires Comparable(a, b)
    ensures ByteCompare(Encode(a, r), Encode(b, s)) == PromisedOrder(a, r, b, s) <==> Orderly(a, r, b, s)
  {
    if a.Text? && b.Text? {
      TextKeysOrderedAsPromised(a.text, r, b.text, s);
    } else if Tag(a) == Tag(b) {
      KeysInOrder(a, r, b, s);
      if a.Real? && !IsNan(a.bits) && !IsNan(b.bits) {
        TotalOrderIsNumeric(a.bits, b.bits);
      }
    }
  }

  lemma TextKeysOrderedAsPromised(a: seq<Byte>, r: Int64, b: seq<Byte>, s: Int64)
    ensures ByteCompare(Encode(Text(a), r), Encode(Text(b), s)) == PromisedOrder(Text(a), r, Text(b), s)
      <==> Orderly(Text(a), r, Text(b), s)
  {
    ByteCompareSame(a, b);
    if b < a {
      ByteCompareFlips(a, b);
      ByteCompareFlips(Encode(Text(a), r), Encode(Text(b), s));
      UnequalTextKeys(b, s, a, r);
    } else if a != b {
      UnequalTextKeys(a, r, b, s);
    } else {
      PartsInTurn(Prefix(Text(a)), Prefix(Text(a)), Be(Unsign(r), 8), Be(Unsign(s), 8));
      RowidOrder(r, s);
    }
  }

  lemma UnequalTextKeys(a: seq<Byte>, r: Int64, b: seq<Byte>, s: Int64)
    requires a != b && !(b <= a)
    ensures ByteCompare(Encode(Text(a), r), Encode(Text(b), s)) == ByteCompare(a, b)
      <==> (a <= b ==> Unsign(r) <= Word(b[|a|..] + Be(Unsign(s), 8)))
  {
    var x, y := Be(Unsign(r), 8), Be(Unsign(s), 8);
    TextKeysAfterTag(a, r, b, s);
    if a <= b {
      AfterPrefix(a, b, x, y);
      WordDecides(Unsign(r), b[|a|..] + y);
    } else {
      ByteCompareBefore(a, b, x, y);
    }
  }

  lemma TextKeysAfterTag(a: seq<Byte>, r: Int64, b: seq<Byte>, s: Int64)
    ensures ByteCompare(Encode(Text(a), r), Encode(Text(b), s)) == ByteCompare(a + Be(Unsign(r), 8), b + Be(Unsign(s), 8))
  {
    var x, y := Be(Unsign(r), 8), Be(Unsign(s), 8);
    assert Encode(Text(a), r) == [3] + (a + x) && Encode(Text(b), s) == [3] + (b + y);
    ByteCompareAfter([3], a + x, b + y);
  }

  lemma AfterPrefix(a: seq<Byte>, b: seq<Byte>, x: seq<Byte>, y: seq<Byte>)
    requires a < b
    ensures ByteCompare(a + x, b + y) == ByteCompare(x, b[|a|..] + y) && ByteCompare(a, b) == -1
  {
    var rest := b[|a|..];
    assert b == a + rest && b + y == a + (rest + y) && a + [] == a;
    ByteCompareAfter(a, x, rest + y);
    ByteCompareAfter(a, [], rest);
  }

  /** Eight bytes against more than eight. */
  lemma WordDecides(v: Bits64, rest: seq<Byte>)
    requires |rest| > 8
    ensures ByteCompare(Be(v, 8), rest) == if v <= Word(rest) then -1 else 1
  {
    var x, h := Be(v, 8), rest[..8];
    assert rest == h + rest[8..] && x + [] == x;
    PartsInTurn(x, h, [], rest[8..]);
    BeOrder(x, h);
    ByteCompareSame(x, h);
    Pow256Of8();
    FromBeOfBe(v, 8);
  }

  /** A text and the same text with a zero byte appended: their keys are in order exactly
      when the first rowid is at most the second divided by 256. */
  lemma TextAndZeroAppended(a: seq<Byte>, r: Int64, s: Int64)
    requires r >= 0 && s >= 0
    ensures PromisedOrder(Text(a), r, Text(a + [0]), s) == -1
    ensures ByteCompare(Encode(Text(a), r), Encode(Text(a + [0]), s)) == -1 <==> r <= s / 256
  {
    ZeroAppended(a);
    TextKeysOrderedAsPromised(a, r, a + [0], s);
    WordAfterZero(s);
  }

  lemma ZeroAppended(a: seq<Byte>)
    ensures a < a + [0] && (a + [0])[|a|..] == [0] && ByteCompare(a, a + [0]) == -1
  {
    AfterPrefix(a, a + [0], [], []);
  }

  lemma WordAfterZero(s: Int64)
    requires s >= 0
    ensures Word([0] + Be(s, 8)) == s / 256
  {
    Pow256Of8();
    BeLeadingZero(s / 256, 7);
    assert [0] + Be(s, 8) == Be(s / 256, 8) + [s % 256];
    WordOfBe(s / 256, [s % 256]);
  }

  /** "a" sorts before "a\0", but its key with rowid 5 does not sort before that of "a\0"
      with rowid 3. */
  lemma TextKeysOutOfOrder()
    ensures exists a, b, r, s :: r >= 0 && s >= 0 &&
              PromisedOrder(Text(a), r, Text(b), s) < 0 <= ByteCompare(Encode(Text(a), r), Encode(Text(b), s))
  {
    var a, b: seq<Byte> := [97], [97] + [0];
    var r: Int64, s: Int64 := 5, 3;
    TextAndZeroAppended(a, r, s);
    assert PromisedOrder(Text(a), r, Text(b), s) < 0 <= ByteCompare(Encode(Text(a), r), Encode(Text(b), s));
  }

  lemma {:induction false} BeLeadingZero(v: nat, n: nat)
    requires v < Pow256(n)
    ensures Be(v, n + 1) == [0] + Be(v, n)
  {
    if n > 0 {
      BeLeadingZero(v / 256, n - 1);
    }
  }

  // ---------- the keys a probe visits ----------

  /** Keys with a given prefix: of the same value, or, for TEXT, of a longer text. */
  lemma PrefixMatches(v: Value, w: Value, s: Int64)
    ensures Prefix(v) <= Encode(w, s) <==>
      if v.Text? then w.Text? && v.text <= (w.text + Be(Unsign(s), 8)) else v == w
  {
    var e, p := Encode(w, s), Prefix(v);
    if p <= e {
      assert Tag(v) == p[0] == e[0] == Tag(w);
    }
    if Tag(v) == Tag(w) {
      if v.Text? {
        assert e[1..] == w.text + Be(Unsign(s), 8);
        assert p == [Tag(v)] + v.text && e == [Tag(v)] + e[1..];
        assert p <= e ==> v.text == p[1..] == e[1..|p|] == e[1..][..|v.text|];
      } else {
        ValueBytesOrder(v, w);
        assert e[..|p|] == Prefix(w);
      }
    }
  }

  /** A key with the probe's prefix is not below the seek key, which has rowid 0. */
  lemma SeekKeyIsLeast(p: seq<Byte>, key: seq<Byte>)
    requires p <= key && |key| >= |p| + 8
    ensures ByteCompare(key, p + Be(0, 8)) >= 0
  {
    var rest := key[|p|..];
    assert key == p + rest;
    ByteCompareAfter(p, rest, Be(0, 8));
    if |rest| > 8 {
      WordDecides(0, rest);
      ByteCompareFlips(Be(0, 8), rest);
    } else {
      BeOrder(rest, Be(0, 8));
      Pow256Of8();
      FromBeOfBe(0, 8);
    }
  }

  /** The keys with a given prefix are next to each other. */
  lemma {:induction false} PrefixIsContiguous(p: seq<Byte>, a: seq<Byte>, m: seq<Byte>, c: seq<Byte>)
    requires p <= a && p <= c && ByteCompare(a, m) <= 0 && ByteCompare(m, c) <= 0
    ensures p <= m
  {
    if p != [] {
      assert a[0] == p[0] == c[0] && m != [] && m[0] == p[0];
      assert p[1..] <= a[1..] && p[1..] <= c[1..];
      PrefixIsContiguous(p[1..], a[1..], m[1..], c[1..]);
      assert m == [m[0]] + m[1..] && p == [p[0]] + p[1..];
    }
  }

  // ---------- the rank of a key ----------

  const MAX_INDEX_KEY_LEN := 512

  function Pow257(n: nat): (p: nat)
    ensures p > 0
  {
    if n == 0 then 1 else 257 * Pow257(n - 1)
  }

  /** The number whose n digits to base 257 are the bytes plus one, then zeros. */
  function RankIn(key: seq<Byte>, n: nat): nat {
    if n == 0 || key == [] then 0 else (key[0] as int + 1) * Pow257(n - 1) + RankIn(key[1..], n - 1)
  }

  lemma {:induction false} RankBound(key: seq<Byte>, n: nat)
    requires |key| <= n
    ensures RankIn(key, n) < Pow257(n)
    ensures key != [] ==> Pow257(n - 1) <= (key[0] as int + 1) * Pow257(n - 1) <= RankIn(key, n)
  {
    if key != [] {
      RankBound(key[1..], n - 1);
      var p, x := Pow257(n - 1), key[0] as int;
      Times(1, x + 1, p);
      Times(x + 1, 256, p);
    }
  }

  /** key_compare on two keys is the order of their ranks, so trees of ranks are the trees
      the code builds. */
  lemma {:induction false} RankOrder(a: seq<Byte>, b: seq<Byte>, n: nat)
    requires |a| <= n && |b| <= n
    ensures ByteCompare(a, b) == Sign(RankIn(a, n) - RankIn(b, n))
  {
    if a == [] || b == [] {
      RankBound(a, n);
      RankBound(b, n);
    } else {
      RankOrder(a[1..], b[1..], n - 1);
      RankBound(a[1..], n - 1);
      RankBound(b[1..], n - 1);
      DigitsInTurn(a[0] as int + 1, RankIn(a[1..], n - 1), b[0] as int + 1, RankIn(b[1..], n - 1), Pow257(n - 1));
    }
  }

  function Rank(key: seq<Byte>): nat {
    RankIn(key, MAX_INDEX_KEY_LEN)
  }

  /** The tree key of an index entry. */
  function IndexKey(key: seq<Byte>): Key {
    Key(Rank(key), |key|)
  }

  lemma RankInjective(a: seq<Byte>, b: seq<Byte>)
    requires |a| <= MAX_INDEX_KEY_LEN && |b| <= MAX_INDEX_KEY_LEN
    ensures Rank(a) == Rank(b) <==> a == b
  {
    RankOrder(a, b, MAX_INDEX_KEY_LEN);
    ByteCompareSame(a, b);
  }
}
