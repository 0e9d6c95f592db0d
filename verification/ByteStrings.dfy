/** Byte strings: the bytewise order MDBX uses for keys and duplicates, and the
    fixed-width integer encodings the tables put in front of their data. */
module ByteStrings {

  type byte = x: int | 0 <= x < 256
  type Bytes = seq<byte>

  const TWO_TO_THE_32: nat := 0x1_0000_0000
  const TWO_TO_THE_64: nat := 0x1_0000_0000_0000_0000

  type uint64 = x: int | 0 <= x < TWO_TO_THE_64

  const MAX_UINT64: uint64 := 0xFFFF_FFFF_FFFF_FFFF

  datatype Option<+T> = None | Some(value: T)

  // ---------------------------------------------------------------- bytewise order

  /** memcmp on the common prefix, then the shorter string first. */
  predicate LexLess(a: Bytes, b: Bytes) {
    if b == [] then false
    else if a == [] then true
    else a[0] < b[0] || (a[0] == b[0] && LexLess(a[1..], b[1..]))
  }

  lemma {:induction false} LexIrreflexive(a: Bytes)
    ensures !LexLess(a, a)
  {
    if a != [] { LexIrreflexive(a[1..]); }
  }

  lemma {:induction false} LexTransitive(a: Bytes, b: Bytes, c: Bytes)
    requires LexLess(a, b) && LexLess(b, c)
    ensures LexLess(a, c)
  {
    if a != [] && a[0] == b[0] && b[0] == c[0] { LexTransitive(a[1..], b[1..], c[1..]); }
  }

  lemma {:induction false} LexTotal(a: Bytes, b: Bytes)
    ensures a == b || LexLess(a, b) || LexLess(b, a)
  {
    if a != [] && b != [] && a[0] == b[0] {
      LexTotal(a[1..], b[1..]);
      assert a == [a[0]] + a[1..] && b == [b[0]] + b[1..];
    }
  }

  lemma LexAsymmetric(a: Bytes, b: Bytes)
    requires LexLess(a, b)
    ensures !LexLess(b, a) && a != b
  {
    LexIrreflexive(a);
    if LexLess(b, a) { LexTransitive(a, b, a); }
  }

  /** The order, without recursion: up to some place the strings are equal, and there the
      first one ends or has the smaller byte. */
  lemma {:induction false} LexLessExact(a: Bytes, b: Bytes)
    ensures LexLess(a, b) <==>
            exists i :: 0 <= i <= |a| && i < |b| && a[..i] == b[..i] && (i == |a| || a[i] < b[i])
  {
    if b != [] && (a == [] || a[0] != b[0]) {
      assert a[..0] == b[..0];
      forall i | 0 < i <= |a| && i < |b| ensures a[..i] != b[..i] {
        assert a[..i][0] == a[0] && b[..i][0] == b[0];
      }
    } else if a != [] && b != [] {
      LexLessExact(a[1..], b[1..]);
      if LexLess(a, b) {
        var i :| 0 <= i <= |a| - 1 && i < |b| - 1 && a[1..][..i] == b[1..][..i] && (i == |a| - 1 || a[1..][i] < b[1..][i]);
        assert a[..i + 1] == [a[0]] + a[1..][..i] && b[..i + 1] == [b[0]] + b[1..][..i];
      }
      if i :| 0 <= i <= |a| && i < |b| && a[..i] == b[..i] && (i == |a| || a[i] < b[i]) {
        assert a[1..][..i - 1] == a[..i][1..] && b[1..][..i - 1] == b[..i][1..];
      }
    }
  }

  /** A common prefix does not take part in the comparison. */
  lemma {:induction false} LexCommonPrefix(p: Bytes, a: Bytes, b: Bytes)
    ensures LexLess(p + a, p + b) == LexLess(a, b)
  {
    if p == [] {
      assert p + a == a && p + b == b;
    } else {
      assert (p + a)[1..] == p[1..] + a && (p + b)[1..] == p[1..] + b;
      LexCommonPrefix(p[1..], a, b);
    }
  }

  /** Two different heads of one length decide, whatever follows them. */
  lemma {:induction false} LexHeadsDecide(p: Bytes, q: Bytes, a: Bytes, b: Bytes)
    requires |p| == |q| && p != q
    ensures LexLess(p + a, q + b) == LexLess(p, q)
  {
    assert (p + a)[1..] == p[1..] + a && (q + b)[1..] == q[1..] + b;
    if p[0] == q[0] {
      assert p == [p[0]] + p[1..] && q == [q[0]] + q[1..];
      LexHeadsDecide(p[1..], q[1..], a, b);
    }
  }

  // ---------------------------------------------------------------- reversal

  function Reversed<T>(s: seq<T>): (r: seq<T>)
    ensures |r| == |s|
    ensures forall i :: 0 <= i < |s| ==> r[i] == s[|s| - 1 - i]
  {
    if s == [] then [] else Reversed(s[1..]) + [s[0]]
  }

  lemma ReversedInjective<T>(a: seq<T>, b: seq<T>)
    requires Reversed(a) == Reversed(b)
    ensures a == b
  {
    assert |a| == |b|;
    forall i | 0 <= i < |a| ensures a[i] == b[i] {
      assert a[i] == Reversed(a)[|a| - 1 - i];
    }
  }

  // ---------------------------------------------------------------- fixed-width integers

  function Pow256(k: nat): (r: nat)
    ensures r > 0
  {
    if k == 0 then 1 else 256 * Pow256(k - 1)
  }

  lemma Pow256Widths()
    ensures Pow256(4) == TWO_TO_THE_32 && Pow256(8) == TWO_TO_THE_64
  {
    assert Pow256(2) == 65536;
    assert Pow256(4) == 256 * 256 * Pow256(2);
    assert Pow256(6) == 256 * 256 * Pow256(4);
    assert Pow256(8) == 256 * 256 * Pow256(6);
  }

  /** The low `w` bytes of `n`, most significant first. */
  function BigEndian(n: nat, w: nat): (r: Bytes)
    ensures |r| == w
  {
    if w == 0 then [] else BigEndian(n / 256, w - 1) + [n % 256]
  }

  function BigEndianValue(b: Bytes): nat {
    if b == [] then 0 else 256 * BigEndianValue(b[..|b| - 1]) + b[|b| - 1]
  }

  /** The low `w` bytes of `n`, least significant first. */
  function LittleEndian(n: nat, w: nat): (r: Bytes)
    ensures |r| == w
  {
    if w == 0 then [] else [n % 256] + LittleEndian(n / 256, w - 1)
  }

  function LittleEndianValue(b: Bytes): nat {
    if b == [] then 0 else b[0] + 256 * LittleEndianValue(b[1..])
  }

  lemma {:induction false} BigEndianRoundTrip(n: nat, w: nat)
    requires n < Pow256(w)
    ensures BigEndianValue(BigEndian(n, w)) == n
  {
    if w > 0 {
      BigEndianRoundTrip(n / 256, w - 1);
      var b := BigEndian(n, w);
      assert b[..|b| - 1] == BigEndian(n / 256, w - 1);
    }
  }

  lemma {:induction false} BigEndianOfValue(b: Bytes)
    ensures BigEndianValue(b) < Pow256(|b|)
    ensures BigEndian(BigEndianValue(b), |b|) == b
  {
    if b != [] {
      BigEndianOfValue(b[..|b| - 1]);
      assert b == b[..|b| - 1] + [b[|b| - 1]];
    }
  }

  lemma {:induction false} LittleEndianRoundTrip(n: nat, w: nat)
    requires n < Pow256(w)
    ensures LittleEndianValue(LittleEndian(n, w)) == n
  {
    if w > 0 {
      LittleEndianRoundTrip(n / 256, w - 1);
      assert LittleEndian(n, w)[1..] == LittleEndian(n / 256, w - 1);
    }
  }

  lemma {:induction false} LittleEndianOfValue(b: Bytes)
    ensures LittleEndianValue(b) < Pow256(|b|)
    ensures LittleEndian(LittleEndianValue(b), |b|) == b
  {
    if b != [] {
      LittleEndianOfValue(b[1..]);
      assert b == [b[0]] + b[1..];
      assert LittleEndianValue(b) % 256 == b[0] && LittleEndianValue(b) / 256 == LittleEndianValue(b[1..]);
    }
  }

  /** Eight bytes, digit by digit. */
  lemma LittleEndianDigits(b: Bytes)
    requires |b| == 8
    ensures var d: seq<int> := b;
            LittleEndianValue(b) ==
            d[0] + 0x100 * d[1] + 0x1_0000 * d[2] + 0x100_0000 * d[3] + 0x1_0000_0000 * d[4]
            + 0x100_0000_0000 * d[5] + 0x1_0000_0000_0000 * d[6] + 0x100_0000_0000_0000 * d[7]
  {
    var t := b[4..];
    FourDigits(b);
    FourDigits(t);
    assert t[4..] == [];
  }

  lemma FourDigits(b: Bytes)
    requires |b| >= 4
    ensures var d: seq<int> := b;
            LittleEndianValue(b) ==
            d[0] + 0x100 * d[1] + 0x1_0000 * d[2] + 0x100_0000 * d[3] + 0x1_0000_0000 * LittleEndianValue(b[4..])
  {
    assert b[1..][1..] == b[2..] && b[2..][1..] == b[3..] && b[3..][1..] == b[4..];
    assert LittleEndianValue(b) == b[0] + 256 * LittleEndianValue(b[1..]);
    assert LittleEndianValue(b[1..]) == b[1] + 256 * LittleEndianValue(b[2..]);
    assert LittleEndianValue(b[2..]) == b[2] + 256 * LittleEndianValue(b[3..]);
    assert LittleEndianValue(b[3..]) == b[3] + 256 * LittleEndianValue(b[4..]);
  }

  /** The big-endian digits are the same, from the other end. */
  lemma {:induction false} BigEndianReversed(b: Bytes)
    ensures BigEndianValue(b) == LittleEndianValue(Reversed(b))
  {
    if b != [] {
      var n := |b| - 1;
      BigEndianReversed(b[..n]);
      assert Reversed(b)[1..] == Reversed(b[..n]);
    }
  }

  lemma LittleEndianInjective(n: nat, m: nat, w: nat)
    requires n < Pow256(w) && m < Pow256(w)
    requires LittleEndian(n, w) == LittleEndian(m, w)
    ensures n == m
  {
    LittleEndianRoundTrip(n, w);
    LittleEndianRoundTrip(m, w);
  }

  /** Big-endian bytes sort as the numbers do. */
  lemma {:induction false} BigEndianOrder(n: nat, m: nat, w: nat)
    requires n < Pow256(w) && m < Pow256(w)
    ensures LexLess(BigEndian(n, w), BigEndian(m, w)) <==> n < m
    ensures BigEndian(n, w) == BigEndian(m, w) <==> n == m
  {
    if w > 0 {
      var p, q := BigEndian(n / 256, w - 1), BigEndian(m / 256, w - 1);
      BigEndianOrder(n / 256, m / 256, w - 1);
      if p == q {
        LexCommonPrefix(p, [n % 256], [m % 256]);
        assert BigEndian(n, w)[w - 1] == n % 256 && BigEndian(m, w)[w - 1] == m % 256;
      } else {
        LexHeadsDecide(p, q, [n % 256], [m % 256]);
        var x, y := BigEndian(n, w), BigEndian(m, w);
        assert x[..w - 1] == p && y[..w - 1] == q;
      }
    }
  }

  /** Little-endian bytes do not: 256 sorts before 1. */
  lemma LittleEndianIsNotOrdered()
    ensures LexLess(LittleEndian(256, 8), LittleEndian(1, 8))
  {
    assert LittleEndian(256, 8)[0] == 0 && LittleEndian(1, 8)[0] == 1;
  }

  /** Reading little-endian bytes from the far end is reading big-endian ones. */
  lemma {:induction false} ReversedLittleEndian(n: nat, w: nat)
    ensures Reversed(LittleEndian(n, w)) == BigEndian(n, w)
  {
    if w > 0 {
      ReversedLittleEndian(n / 256, w - 1);
      assert LittleEndian(n, w)[1..] == LittleEndian(n / 256, w - 1);
    }
  }

  /** `n >> 8*k`. */
  function ShiftRight(n: nat, k: nat): nat {
    if k == 0 then n else ShiftRight(n, k - 1) / 256
  }

  lemma {:induction false} ShiftRightFirst(n: nat, k: nat)
    ensures ShiftRight(n / 256, k) == ShiftRight(n, k + 1)
  {
    if k > 0 { ShiftRightFirst(n, k - 1); }
  }

  // ---------------------------------------------------------------- the loops that do it

  /** encode_sequence / encode_order / composite_key_append_big_endian: byte i is
      the value shifted right by the bytes that come after it. */
  method EncodeBigEndian(value: nat, w: nat) returns (out: Bytes)
    ensures out == BigEndian(value, w)
  {
    out := [];
    for i := 0 to w
      invariant |out| == i
      invariant out == BigEndian(ShiftRight(value, w - i), i)
    {
      out := out + [ShiftRight(value, w - 1 - i) % 256];
    }
  }

  /** decode_sequence / decode_order / composite_key_read_big_endian: shift left, add the next byte. */
  method DecodeBigEndian(b: Bytes) returns (value: nat)
    ensures value == BigEndianValue(b)
    ensures value < Pow256(|b|)
  {
    value := 0;
    for i := 0 to |b|
      invariant value == BigEndianValue(b[..i])
    {
      assert b[..i + 1][..i] == b[..i];
      value := 256 * value + b[i];
    }
    assert b[..|b|] == b;
    BigEndianOfValue(b);
  }

  lemma {:induction false} LittleEndianSnoc(n: nat, w: nat)
    ensures LittleEndian(n, w + 1) == LittleEndian(n, w) + [ShiftRight(n, w) % 256]
  {
    if w > 0 {
      LittleEndianSnoc(n / 256, w - 1);
      ShiftRightFirst(n, w - 1);
    }
  }

  lemma {:induction false} LittleEndianValueSnoc(b: Bytes, x: byte)
    ensures LittleEndianValue(b + [x]) == LittleEndianValue(b) + x * Pow256(|b|)
  {
    if b == [] {
      assert (b + [x])[1..] == [];
    } else {
      assert (b + [x])[1..] == b[1..] + [x];
      LittleEndianValueSnoc(b[1..], x);
      assert 256 * (x * Pow256(|b| - 1)) == x * (256 * Pow256(|b| - 1));
    }
  }

  /** write_u64_le / append_le32: byte i is the value shifted right by 8*i. */
  method WriteLittleEndian(value: nat, w: nat) returns (out: Bytes)
    ensures out == LittleEndian(value, w)
  {
    out := [];
    for i := 0 to w
      invariant out == LittleEndian(value, i)
    {
      LittleEndianSnoc(value, i);
      out := out + [ShiftRight(value, i) % 256];
    }
  }

  /** read_u64_le / read_le32: or in each byte shifted left by 8*i. */
  method ReadLittleEndian(b: Bytes) returns (value: nat)
    ensures value == LittleEndianValue(b)
    ensures value < Pow256(|b|)
  {
    value := 0;
    for i := 0 to |b|
      invariant value == LittleEndianValue(b[..i])
    {
      LittleEndianValueSnoc(b[..i], b[i]);
      assert b[..i + 1] == b[..i] + [b[i]];
      value := value + b[i] * Pow256(i);
    }
    assert b[..|b|] == b;
    LittleEndianOfValue(b);
  }
}
