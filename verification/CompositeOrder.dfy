/** What the composite key codec's order is an order of: integers as integers, booleans false
    first, byte strings bytewise, and floats by the real numbers their IEEE 754 patterns
    stand for, with the infinities at the ends. */
module CompositeOrder {
  import opened ByteStrings
  import opened CompositeKeys

  // ---------------------------------------------------------------- IEEE 754 numbers

  function PowerOfTwo(e: int): (r: real)
    ensures r > 0.0
    decreases if e < 0 then -e else e
  {
    if e == 0 then 1.0 else if e > 0 then 2.0 * PowerOfTwo(e - 1) else PowerOfTwo(e + 1) / 2.0
  }

  /** 2 to the number of fraction bits: 23 in binary32, 52 in binary64. */
  function FractionSize(w: nat): nat {
    if w == 4 then 0x80_0000 else 0x10_0000_0000_0000
  }

  /** 2 to the number of exponent bits: 8 and 11. */
  function ExponentSize(w: nat): nat {
    if w == 4 then 256 else 2048
  }

  function Bias(w: nat): int {
    if w == 4 then 127 else 1023
  }

  function Exponent(bits: nat, w: nat): nat {
    bits / FractionSize(w) % ExponentSize(w)
  }

  function FractionField(bits: nat, w: nat): nat {
    bits % FractionSize(w)
  }

  function Ratio(field: nat, w: nat): real {
    field as real / FractionSize(w) as real
  }

  function Fraction(bits: nat, w: nat): real {
    Ratio(FractionField(bits, w), w)
  }

  predicate Negative(bits: nat, w: nat) {
    bits >= ExponentSize(w) * FractionSize(w)
  }

  /** Section 3.4 of IEEE 754: 1.f times 2 to the unbiased exponent, and 0.f times 2 to the
      smallest one where the exponent field is zero. */
  function Scaled(exponent: nat, fraction: real, bias: int): real {
    if exponent == 0 then fraction * PowerOfTwo(1 - bias) else (1.0 + fraction) * PowerOfTwo(exponent - bias)
  }

  function Size(bits: nat, w: nat): real {
    Scaled(Exponent(bits, w), Fraction(bits, w), Bias(w))
  }

  function FloatValue(bits: nat, w: nat): real {
    if Negative(bits, w) then -Size(bits, w) else Size(bits, w)
  }

  predicate IsFinite(bits: nat, w: nat) {
    Exponent(bits, w) != ExponentSize(w) - 1
  }

  lemma PowerSteps()
    ensures PowerOfTwo(0) == 1.0 && PowerOfTwo(1) == 2.0 && PowerOfTwo(-1) == 0.5 && PowerOfTwo(2) == 4.0
  {
    assert PowerOfTwo(1) == 2.0 * PowerOfTwo(0);
    assert PowerOfTwo(2) == 2.0 * PowerOfTwo(1);
    assert PowerOfTwo(-1) == PowerOfTwo(0) / 2.0;
  }

  /** Some patterns and their numbers. */
  lemma KnownSingles()
    ensures FloatValue(0x3F80_0000, 4) == 1.0 && FloatValue(0xBF80_0000, 4) == -1.0
    ensures FloatValue(0xC000_0000, 4) == -2.0 && FloatValue(0x3F00_0000, 4) == 0.5
    ensures FloatValue(0x3FC0_0000, 4) == 1.5
    ensures FloatValue(0, 4) == FloatValue(0x8000_0000, 4) == 0.0
  {
    PowerSteps();
    hide PowerOfTwo;
  }

  lemma KnownDoubles()
    ensures FloatValue(0x3FF0_0000_0000_0000, 8) == 1.0 && FloatValue(0xBFF0_0000_0000_0000, 8) == -1.0
    ensures FloatValue(0xC000_0000_0000_0000, 8) == -2.0 && FloatValue(0x3FE0_0000_0000_0000, 8) == 0.5
    ensures FloatValue(0x3FF8_0000_0000_0000, 8) == 1.5
    ensures FloatValue(0, 8) == FloatValue(0x8000_0000_0000_0000, 8) == 0.0
  {
    PowerSteps();
    hide PowerOfTwo;
  }

  // ---------------------------------------------------------------- size grows with the bits

  /** No multiple of d lies strictly between -d and d but zero. */
  lemma Multiples(k: int, d: nat)
    ensures k >= 1 ==> k * d >= d
    ensures k <= -1 ==> k * d + d <= 0
  {
    if k >= 1 {
      Product(k - 1, d);
      assert k * d == (k - 1) * d + d;
    } else if k <= -1 {
      Product(-k - 1, d);
      assert k * d == -((-k - 1) * d) - d;
    }
  }

  lemma Product(a: nat, b: nat)
    ensures a * b >= 0
  {
  }

  lemma Divided(n: nat, d: nat, q: nat, r: nat)
    requires r < d && n == q * d + r
    ensures n / d == q && n % d == r
  {
    var k := n / d - q;
    Multiples(k, d);
    assert n == d * (n / d) + n % d;
    assert k * d == d * (n / d) - q * d;
  }

  /** The next pattern: one more in the fraction, or the next exponent with fraction zero. */
  lemma NextFields(m: nat, f: nat, e: nat)
    requires f > 0 && m + 1 < e * f
    ensures m / f < e && (m + 1) / f < e
    ensures if m % f + 1 < f then (m + 1) / f == m / f && (m + 1) % f == m % f + 1
            else (m + 1) / f == m / f + 1 && (m + 1) % f == 0
  {
    var q, r := m / f, m % f;
    if r + 1 < f {
      Divided(m + 1, f, q, r + 1);
    } else {
      assert (q + 1) * f == q * f + f;
      Divided(m + 1, f, q + 1, 0);
    }
    QuotientBelow(m, f, e);
    QuotientBelow(m + 1, f, e);
  }

  lemma QuotientBelow(n: nat, d: nat, e: nat)
    requires d > 0 && n < e * d
    ensures n / d < e
  {
    var k := n / d - e;
    Multiples(k + 1, d);
    assert n == d * (n / d) + n % d;
    assert (k + 1) * d == d * (n / d) - e * d + d;
  }

  lemma NextPattern(m: nat, w: nat)
    requires m + 1 < ExponentSize(w) * FractionSize(w)
    ensures || (Exponent(m + 1, w) == Exponent(m, w) && FractionField(m, w) < FractionField(m + 1, w))
            || (Exponent(m + 1, w) == Exponent(m, w) + 1 && FractionField(m + 1, w) == 0)
  {
    var f, e := FractionSize(w), ExponentSize(w);
    NextFields(m, f, e);
    hide FractionSize, ExponentSize;
    Divided(m / f, e, 0, m / f);
    Divided((m + 1) / f, e, 0, (m + 1) / f);
  }

  lemma Ratios(t: nat, u: nat, w: nat)
    ensures Ratio(0, w) == 0.0 && (t < u ==> Ratio(t, w) < Ratio(u, w)) && Ratio(FractionSize(w), w) == 1.0
  {
  }

  lemma ScaleLess(a: real, b: real, c: real)
    requires a < b && c > 0.0
    ensures a * c < b * c
  {
  }

  lemma ScaledFraction(e: nat, f: real, g: real, bias: int)
    requires f < g
    ensures Scaled(e, f, bias) < Scaled(e, g, bias)
  {
    hide PowerOfTwo;
    if e == 0 {
      ScaleLess(f, g, PowerOfTwo(1 - bias));
    } else {
      ScaleLess(1.0 + f, 1.0 + g, PowerOfTwo(e - bias));
    }
  }

  lemma ScaledExponent(e: nat, f: real, bias: int)
    requires f < 1.0
    ensures Scaled(e, f, bias) < Scaled(e + 1, 0.0, bias)
  {
    hide PowerOfTwo;
    if e == 0 {
      ScaleLess(f, 1.0, PowerOfTwo(1 - bias));
    } else {
      ScaleLess(1.0 + f, 2.0, PowerOfTwo(e - bias));
      Doubles(e - bias);
    }
  }

  lemma SizeStep(m: nat, w: nat)
    requires m + 1 < ExponentSize(w) * FractionSize(w)
    ensures Size(m, w) < Size(m + 1, w)
  {
    NextPattern(m, w);
    Ratios(FractionField(m, w), FractionField(m + 1, w), w);
    Ratios(FractionField(m, w), FractionSize(w), w);
    hide Exponent, Ratio, Bias, Scaled, ExponentSize, FractionSize;
    var e, f := Exponent(m, w), Fraction(m, w);
    if Exponent(m + 1, w) == e {
      ScaledFraction(e, f, Fraction(m + 1, w), Bias(w));
    } else {
      ScaledExponent(e, f, Bias(w));
    }
  }

  lemma Doubles(e: int)
    ensures PowerOfTwo(e + 1) == 2.0 * PowerOfTwo(e)
  {
  }

  lemma {:induction false} SizeGrows(m: nat, n: nat, w: nat)
    requires m < n < ExponentSize(w) * FractionSize(w)
    ensures Size(m, w) < Size(n, w)
    decreases n - m
  {
    hide Size;
    SizeStep(m, w);
    if m + 1 < n { SizeGrows(m + 1, n, w); }
  }

  // ---------------------------------------------------------------- patterns and numbers

  /** The sign bit has no part in the size. */
  lemma SignAside(m: nat, w: nat)
    requires (w == 4 || w == 8) && m < Half(w)
    ensures Half(w) == ExponentSize(w) * FractionSize(w)
    ensures Size(m + Half(w), w) == Size(m, w) && !Negative(m, w) && Negative(m + Half(w), w)
  {
    FloatWidths(w);
    var f, e := FractionSize(w), ExponentSize(w);
    assert Half(w) == e * f;
    hide FractionSize, ExponentSize, Scaled, Half;
    SignFields(m, f, e);
    assert Exponent(m + e * f, w) == Exponent(m, w);
  }

  lemma SignFields(m: nat, f: nat, e: nat)
    requires f > 0 && e > 0 && m < e * f
    ensures (m + e * f) % f == m % f && (m + e * f) / f % e == m / f % e
  {
    var q, r := m / f, m % f;
    assert m + e * f == (q + e) * f + r;
    Divided(m + e * f, f, q + e, r);
    QuotientBelow(m, f, e);
    Divided(q + e, e, 1, q);
    Divided(q, e, 0, q);
  }

  lemma SizePositive(m: nat, w: nat)
    requires m < ExponentSize(w) * FractionSize(w)
    ensures Size(0, w) == 0.0 && (m > 0 ==> Size(m, w) > 0.0)
  {
    if m > 0 { SizeGrows(0, m, w); }
    Ratios(0, 0, w);
    assert Exponent(0, w) == 0 && FractionField(0, w) == 0;
    hide PowerOfTwo;
  }

  /** A float's size and sign, from its pattern. */
  lemma ValueOfPattern(bits: nat, w: nat)
    requires (w == 4 || w == 8) && bits < Pow256(w)
    ensures Magnitude(bits, w) < Half(w) == ExponentSize(w) * FractionSize(w)
    ensures FloatValue(bits, w) == if bits >= Half(w) then -Size(Magnitude(bits, w), w) else Size(bits, w)
  {
    FloatWidths(w);
    SignAside(Magnitude(bits, w), w);
  }

  /** Comparing sizes and signs is comparing the numbers. */
  lemma PatternOrder(a: nat, b: nat, w: nat)
    requires (w == 4 || w == 8) && a < Pow256(w) && b < Pow256(w)
    ensures FloatOrder(a, w) < FloatOrder(b, w) <==> FloatValue(a, w) < FloatValue(b, w)
  {
    ValueOfPattern(a, w);
    ValueOfPattern(b, w);
    var m, n := Magnitude(a, w), Magnitude(b, w);
    SizePositive(m, w);
    SizePositive(n, w);
    if m < n {
      SizeGrows(m, n, w);
    } else if n < m {
      SizeGrows(n, m, w);
    }
    hide Size, FloatValue, Half, ExponentSize, FractionSize, Pow256;
  }

  /** NaN has the largest exponent and a fraction; without one that is an infinity. */
  lemma FloatClasses(bits: nat, w: nat)
    requires (w == 4 || w == 8) && bits < Pow256(w)
    ensures IsNan(bits, w) <==> !IsFinite(bits, w) && FractionField(bits, w) != 0
    ensures !IsNan(bits, w) && !IsFinite(bits, w) ==>
              if w == 4 then bits == 0x7F80_0000 || bits == 0xFF80_0000
              else bits == 0x7FF0_0000_0000_0000 || bits == 0xFFF0_0000_0000_0000
  {
    FloatWidths(w);
    var m, f, e := Magnitude(bits, w), FractionSize(w), ExponentSize(w);
    assert e * f == Half(w) && (e - 1) * f == Infinity(w);
    SignFields(m, f, e);
    QuotientBelow(m, f, e);
    Divided(m / f, e, 0, m / f);
    assert Exponent(bits, w) == m / f && FractionField(bits, w) == m % f;
    hide Exponent, FractionField, FractionSize, ExponentSize, Pow256;
    TopExponent(m, f, e);
  }

  lemma TopExponent(m: nat, f: nat, e: nat)
    requires f > 0 && e > 0 && m < e * f
    ensures m / f == e - 1 <==> m >= (e - 1) * f
    ensures m >= (e - 1) * f ==> m % f == m - (e - 1) * f
  {
    var q, r := m / f, m % f;
    if m >= (e - 1) * f {
      assert e * f == (e - 1) * f + f;
      Divided(m, f, e - 1, m - (e - 1) * f);
    } else if q == e - 1 {
      assert false;
    }
  }

  // ---------------------------------------------------------------- components

  lemma PartBytes(sh: Shape, p: Part, q: Part)
    requires ValidShape(sh) && Encodable(sh, p) && Encodable(sh, q)
    ensures LexLess(EncodePart(sh, p), EncodePart(sh, q)) <==> PartLess(sh, p, q)
    ensures EncodePart(sh, p) == EncodePart(sh, q) <==> !PartLess(sh, p, q) && !PartLess(sh, q, p)
  {
    hide EncodePart, PartLess, LexLess, Encodable, Canonical;
    var a, b := EncodePart(sh, p), EncodePart(sh, q);
    PartOrder(sh, p, q, [], []);
    PartOrder(sh, q, p, [], []);
    assert a + [] == a && b + [] == b;
    LexIrreflexive(a);
  }

  /** Encoded integers, booleans and byte strings sort as the values do. */
  lemma PlainOrder(sh: Shape, p: Part, q: Part)
    requires !sh.Floating? && ValidShape(sh) && Encodable(sh, p) && Encodable(sh, q)
    ensures EncodePart(sh, p) == EncodePart(sh, q) <==> p == q
    ensures LexLess(EncodePart(sh, p), EncodePart(sh, q)) <==>
            match sh
            case Integral(_, _, _) => p.n < q.n
            case Boolean => !p.b && q.b
            case ByteString => LexLess(p.bytes, q.bytes)
            case Floating(_) => false
  {
    hide EncodePart, LexLess;
    PartBytes(sh, p, q);
    if sh.ByteString? {
      LexIrreflexive(p.bytes);
      LexTotal(p.bytes, q.bytes);
    }
  }

  /** Encoded finite floats sort as the real numbers they stand for, equal ones having equal
      bytes; positive infinity comes after everything else and negative infinity before. */
  lemma FloatOrderIsNumeric(w: nat, a: nat, b: nat)
    requires ValidShape(Floating(w)) && Encodable(Floating(w), FloatPart(a)) && Encodable(Floating(w), FloatPart(b))
    ensures var x, y := EncodePart(Floating(w), FloatPart(a)), EncodePart(Floating(w), FloatPart(b));
            && (IsFinite(a, w) && IsFinite(b, w) ==>
                  (LexLess(x, y) <==> FloatValue(a, w) < FloatValue(b, w)) && (x == y <==> FloatValue(a, w) == FloatValue(b, w)))
            && (!IsFinite(a, w) && a != b ==> if Negative(a, w) then LexLess(x, y) else LexLess(y, x))
  {
    var sh, p, q := Floating(w), FloatPart(a), FloatPart(b);
    PartBytes(sh, p, q);
    PartBytes(sh, q, p);
    PatternOrder(a, b, w);
    PatternOrder(b, a, w);
    if !IsFinite(a, w) && a != b { InfinityIsLast(a, b, w); }
    hide EncodePart, LexLess, FloatOrder, FloatValue, IsFinite, Negative;
  }

  lemma InfinityIsLast(a: nat, b: nat, w: nat)
    requires (w == 4 || w == 8) && a < Pow256(w) && b < Pow256(w) && !IsNan(a, w) && !IsNan(b, w)
    requires !IsFinite(a, w) && a != b
    ensures if Negative(a, w) then FloatOrder(a, w) < FloatOrder(b, w) else FloatOrder(b, w) < FloatOrder(a, w)
  {
    FloatWidths(w);
    FloatClasses(a, w);
  }

  // ---------------------------------------------------------------- formats

  /** Integers are big-endian in their storage width, signed ones moved up by half its range;
      booleans are four bytes. */
  lemma IntegerFormat(sh: Shape, p: Part)
    requires !sh.Floating? && !sh.ByteString? && ValidShape(sh) && Encodable(sh, p)
    ensures var b := EncodePart(sh, p);
            match sh
            case Integral(w, _, signed) =>
              && |b| == w
              && (!signed ==> BigEndianValue(b) == p.n)
              && (signed && w == 4 ==> BigEndianValue(b) == p.n + 0x8000_0000)
              && (signed && w == 8 ==> BigEndianValue(b) == p.n + 0x8000_0000_0000_0000)
            case Boolean => |b| == 4 && BigEndianValue(b) == if p.b then 1 else 0
            case _ => true
  {
    hide BigEndian, BigEndianValue;
    FloatWidths(4);
    Pow256Widths();
    if sh.Integral? {
      HalfMonotone(sh.size, sh.storage);
      if sh.signed { SignedRankShifts(p.n, sh.storage); }
      BigEndianRoundTrip(if sh.signed then SignedRank(p.n, sh.storage) else p.n, sh.storage);
    } else {
      BigEndianRoundTrip(if p.b then 1 else 0, 4);
    }
  }

  /** A negative pattern is complemented, any other gets its sign bit set; both zeros are
      the same. */
  lemma FloatFormat(w: nat, bits: nat)
    requires ValidShape(Floating(w)) && Encodable(Floating(w), FloatPart(bits))
    ensures var b := EncodePart(Floating(w), FloatPart(bits));
            var top := if w == 4 then 0x8000_0000 else 0x8000_0000_0000_0000;
            |b| == w && BigEndianValue(b) == if bits > top then 2 * top - 1 - bits else if bits == top then top else bits + top
  {
    hide BigEndian, BigEndianValue;
    FloatWidths(w);
    BigEndianRoundTrip(FloatRank(bits, w), w);
  }

  /** Byte strings are written byte by byte, a zero byte as 00 FF, and end in 00 00. */
  lemma {:induction false} StringFormat(a: Bytes, x: byte)
    ensures EncodePart(ByteString, BytesPart([])) == [0, 0]
    ensures EncodePart(ByteString, BytesPart([x] + a)) ==
            (if x == 0 then [0, 255] else [x]) + EncodePart(ByteString, BytesPart(a))
  {
    assert ([x] + a)[1..] == a;
  }

  /** The range of the integer types. */
  lemma IntegerRanges(n: int, storage: nat, size: nat)
    requires size == 1 || size == 2 || size == 4 || size == 8
    ensures var top := if size == 1 then 0x80 else if size == 2 then 0x8000 else if size == 4 then 0x8000_0000
                       else 0x8000_0000_0000_0000;
            && (Admits(Integral(storage, size, true), IntPart(n)) <==> -top <= n < top)
            && (Admits(Integral(storage, size, false), IntPart(n)) <==> 0 <= n < 2 * top)
  {
    FloatWidths(4);
    assert Pow256(1) == 256 && Pow256(2) == 65536;
    Pow256Widths();
  }

  // ---------------------------------------------------------------- keys

  /** The first component whose bytes differ decides: keys sort by their components in turn,
      each as PlainOrder and FloatOrderIsNumeric say. */
  lemma {:induction false} FirstDifferenceDecides(shapes: seq<Shape>, ps: seq<Part>, qs: seq<Part>, i: nat)
    requires AllEncodable(shapes, ps) && AllEncodable(shapes, qs) && i < |ps|
    requires forall j :: 0 <= j < i ==> EncodePart(shapes[j], ps[j]) == EncodePart(shapes[j], qs[j])
    requires EncodePart(shapes[i], ps[i]) != EncodePart(shapes[i], qs[i])
    ensures LexLess(Encode(shapes, ps), Encode(shapes, qs)) <==>
            LexLess(EncodePart(shapes[i], ps[i]), EncodePart(shapes[i], qs[i]))
  {
    hide EncodePart, LexLess, Encodable;
    var x, y := Encode(shapes[1..], ps[1..]), Encode(shapes[1..], qs[1..]);
    if i == 0 {
      PartBytes(shapes[0], ps[0], qs[0]);
      PartOrder(shapes[0], ps[0], qs[0], x, y);
      hide PartLess, Canonical;
    } else {
      forall j | 0 <= j < i - 1 ensures EncodePart(shapes[1..][j], ps[1..][j]) == EncodePart(shapes[1..][j], qs[1..][j]) {
        assert EncodePart(shapes[j + 1], ps[j + 1]) == EncodePart(shapes[j + 1], qs[j + 1]);
      }
      FirstDifferenceDecides(shapes[1..], ps[1..], qs[1..], i - 1);
      assert EncodePart(shapes[0], ps[0]) == EncodePart(shapes[0], qs[0]);
      LexCommonPrefix(EncodePart(shapes[0], ps[0]), x, y);
    }
  }

  /** And without one the keys have the same bytes. */
  lemma {:induction false} NoDifference(shapes: seq<Shape>, ps: seq<Part>, qs: seq<Part>)
    requires AllEncodable(shapes, ps) && AllEncodable(shapes, qs)
    ensures Encode(shapes, ps) == Encode(shapes, qs) <==>
            forall i :: 0 <= i < |ps| ==> EncodePart(shapes[i], ps[i]) == EncodePart(shapes[i], qs[i])
  {
    hide EncodePart, Encodable;
    if ps != [] {
      var a, b := EncodePart(shapes[0], ps[0]), EncodePart(shapes[0], qs[0]);
      var s, t, u := shapes[1..], ps[1..], qs[1..];
      NoDifference(s, t, u);
      if Encode(shapes, ps) == Encode(shapes, qs) {
        PartPrefixFree(shapes[0], ps[0], qs[0], Encode(s, t), Encode(s, u));
        PartOrder(shapes[0], ps[0], qs[0], [], []);
        assert a == b;
        forall i | 0 <= i < |ps| ensures EncodePart(shapes[i], ps[i]) == EncodePart(shapes[i], qs[i]) {
          if i > 0 { assert EncodePart(s[i - 1], t[i - 1]) == EncodePart(s[i - 1], u[i - 1]); }
        }
      }
      if forall i :: 0 <= i < |ps| ==> EncodePart(shapes[i], ps[i]) == EncodePart(shapes[i], qs[i]) {
        forall i | 0 <= i < |t| ensures EncodePart(s[i], t[i]) == EncodePart(s[i], u[i]) {
          assert EncodePart(shapes[i + 1], ps[i + 1]) == EncodePart(shapes[i + 1], qs[i + 1]);
        }
        assert a == b;
      }
    }
  }
}
