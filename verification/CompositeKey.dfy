/** CompositeKey: typed tuples whose canonical bytes sort as the tuples do. */
module CompositeKeys {
  import opened ByteStrings

  /** A component type. `storage` is the 4 or 8 bytes an integral part is widened to,
      `size` its own width in bytes; a float is 4 or 8 bytes wide. */
  datatype Shape =
    | Integral(storage: nat, size: nat, signed: bool)
    | Boolean
    | Floating(width: nat)
    | ByteString

  /** A component value. A float is its IEEE 754 bit pattern. */
  datatype Part = IntPart(n: int) | BoolPart(b: bool) | FloatPart(bits: nat) | BytesPart(bytes: Bytes)

  predicate ValidShape(sh: Shape) {
    match sh
    case Integral(storage, size, _) => 1 <= size <= storage
    case Floating(width) => width == 4 || width == 8
    case _ => true
  }

  function Half(w: nat): nat {
    Pow256(w) / 2
  }

  lemma {:induction false} HalfTwice(w: nat)
    requires w >= 1
    ensures Pow256(w) == 2 * Half(w) && Half(w) >= 128
  {
    var x := Pow256(w - 1);
    EvenHalf(x);
    assert Pow256(w) == 256 * x;
  }

  lemma EvenHalf(x: nat)
    ensures 256 * x / 2 == 128 * x
  {
  }

  lemma {:induction false} HalfMonotone(size: nat, storage: nat)
    requires 1 <= size <= storage
    ensures Half(size) <= Half(storage) && Pow256(size) <= Pow256(storage)
  {
    if size < storage { HalfMonotone(size, storage - 1); }
  }

  // ---------------------------------------------------------------- sortable ranks

  /** Two's complement bits of `n` in `w` bytes. */
  function RawBits(n: int, w: nat): int {
    if n < 0 then n + Pow256(w) else n
  }

  /** `raw ^ 0x80..0`. */
  function FlipTop(raw: int, w: nat): int {
    if raw >= Half(w) then raw - Half(w) else raw + Half(w)
  }

  /** sortable_key_from_signed_int32/64. */
  function SignedRank(n: int, w: nat): int {
    FlipTop(RawBits(n, w), w)
  }

  /** Flipping the sign bit moves the signed range up by half the unsigned one. */
  lemma SignedRankShifts(n: int, w: nat)
    requires w >= 1 && -(Half(w) as int) <= n < Half(w)
    ensures SignedRank(n, w) == n + Half(w) && 0 <= SignedRank(n, w) < Pow256(w)
  {
    HalfTwice(w);
  }

  /** signed_int32/64_from_sortable_key. */
  function SignedFromRank(rank: int, w: nat): int {
    var raw := FlipTop(rank, w);
    if raw >= Half(w) then raw - Pow256(w) else raw
  }

  lemma SignedFromRankShifts(rank: int, w: nat)
    requires w >= 1 && 0 <= rank < Pow256(w)
    ensures SignedFromRank(rank, w) == rank - Half(w)
  {
    HalfTwice(w);
  }

  function Infinity(w: nat): nat {
    if w == 4 then 0x7F80_0000 else 0x7FF0_0000_0000_0000
  }

  /** The bits without the sign bit. */
  function Magnitude(bits: nat, w: nat): nat {
    if bits >= Half(w) then bits - Half(w) else bits
  }

  predicate IsNan(bits: nat, w: nat) {
    Magnitude(bits, w) > Infinity(w)
  }

  /** sortable_key_from_float/double: zeros of either sign rank as +0, negative patterns
      are complemented, the others get their sign bit set. */
  function FloatRank(bits: nat, w: nat): int {
    var u := if Magnitude(bits, w) == 0 then 0 else bits;
    if u >= Half(w) then Pow256(w) - 1 - u else u + Half(w)
  }

  /** float/double_from_sortable_key. */
  function FloatFromRank(rank: nat, w: nat): int {
    if rank >= Half(w) then rank - Half(w) else Pow256(w) - 1 - rank
  }

  /** IEEE order of the numbers: sign and magnitude, both zeros equal. */
  function FloatOrder(bits: nat, w: nat): int {
    if bits >= Half(w) then Half(w) - bits else bits
  }

  lemma FloatWidths(w: nat)
    requires w == 4 || w == 8
    ensures Half(4) == 0x8000_0000 && Half(8) == 0x8000_0000_0000_0000
    ensures Infinity(w) < Half(w) && Pow256(w) == 2 * Half(w)
  {
    Pow256Widths();
  }

  // ---------------------------------------------------------------- values a shape admits

  /** The value exists in the component type. */
  predicate Admits(sh: Shape, p: Part) {
    match sh
    case Integral(_, size, signed) =>
      p.IntPart? && (if signed then -(Half(size) as int) <= p.n < Half(size) else 0 <= p.n < Pow256(size))
    case Boolean => p.BoolPart?
    case Floating(w) => p.FloatPart? && p.bits < Pow256(w)
    case ByteString => p.BytesPart?
  }

  /** Everything but NaN can be encoded. */
  predicate Encodable(sh: Shape, p: Part) {
    Admits(sh, p) && (sh.Floating? ==> !IsNan(p.bits, sh.width))
  }

  /** The value its encoding decodes to: -0.0 becomes +0.0, all else stays. */
  function Canonical(sh: Shape, p: Part): Part {
    if sh.Floating? && p.FloatPart? && Magnitude(p.bits, sh.width) == 0 then FloatPart(0) else p
  }

  /** The order of the component type. */
  predicate PartLess(sh: Shape, p: Part, q: Part)
    requires Admits(sh, p) && Admits(sh, q)
  {
    match sh
    case Integral(_, _, _) => p.n < q.n
    case Boolean => !p.b && q.b
    case Floating(w) => FloatOrder(p.bits, w) < FloatOrder(q.bits, w)
    case ByteString => LexLess(p.bytes, q.bytes)
  }

  // ---------------------------------------------------------------- encoding

  /** Zero bytes become 00 FF. */
  function Escaped(b: Bytes): Bytes {
    if b == [] then [] else (if b[0] == 0 then [0, 255] else [b[0]]) + Escaped(b[1..])
  }

  /** composite_key_append_terminated_bytes: escape, then 00 00. */
  function Terminated(b: Bytes): Bytes {
    Escaped(b) + [0, 0]
  }

  /** CompositeKeyPartCodec::append. */
  function EncodePart(sh: Shape, p: Part): Bytes
    requires ValidShape(sh) && Encodable(sh, p)
  {
    match sh
    case Integral(w, size, signed) =>
      HalfMonotone(size, w);
      if signed then
        SignedRankShifts(p.n, w);
        BigEndian(SignedRank(p.n, w), w)
      else BigEndian(p.n, w)
    case Boolean => BigEndian(if p.b then 1 else 0, 4)
    case Floating(w) =>
      FloatWidths(w);
      BigEndian(FloatRank(p.bits, w), w)
    case ByteString => Terminated(p.bytes)
  }

  predicate AllEncodable(shapes: seq<Shape>, parts: seq<Part>) {
    |shapes| == |parts| && forall i :: 0 <= i < |parts| ==> ValidShape(shapes[i]) && Encodable(shapes[i], parts[i])
  }

  /** CompositeKeyCodec::append: the components one after the other. */
  function Encode(shapes: seq<Shape>, parts: seq<Part>): Bytes
    requires AllEncodable(shapes, parts)
  {
    if parts == [] then [] else EncodePart(shapes[0], parts[0]) + Encode(shapes[1..], parts[1..])
  }

  function CanonicalParts(shapes: seq<Shape>, parts: seq<Part>): (r: seq<Part>)
    requires |shapes| == |parts|
    ensures |r| == |parts|
    ensures forall i {:trigger r[i]} :: 0 <= i < |r| ==> r[i] == Canonical(shapes[i], parts[i])
  {
    seq(|parts|, i requires 0 <= i < |parts| => Canonical(shapes[i], parts[i]))
  }

  // ---------------------------------------------------------------- decoding

  /** composite_key_read_terminated_bytes: the bytes and what follows the terminator. */
  function ReadTerminated(b: Bytes): Option<(Bytes, Bytes)>
    decreases |b|
  {
    if b == [] then None
    else if b[0] != 0 then Prepended(b[0], ReadTerminated(b[1..]))
    else if |b| == 1 then None
    else if b[1] == 0 then Some(([], b[2..]))
    else if b[1] == 255 then Prepended(0, ReadTerminated(b[2..]))
    else None
  }

  function Prepended(x: byte, r: Option<(Bytes, Bytes)>): Option<(Bytes, Bytes)> {
    match r
    case None => None
    case Some((bytes, rest)) => Some(([x] + bytes, rest))
  }

  /** CompositeKeyPartCodec::read: the value and the unread bytes. */
  function ReadPart(sh: Shape, b: Bytes): Option<(Part, Bytes)>
    requires ValidShape(sh)
  {
    match sh
    case Integral(w, size, signed) =>
      if |b| < w then None
      else
        var raw := BigEndianValue(b[..w]);
        var n := if signed then SignedFromRank(raw, w) else raw;
        if Admits(sh, IntPart(n)) then Some((IntPart(n), b[w..])) else None
    case Boolean =>
      if |b| < 4 then None
      else
        var raw := BigEndianValue(b[..4]);
        if raw > 1 then None else Some((BoolPart(raw != 0), b[4..]))
    case Floating(w) =>
      if |b| < w then None
      else
        BigEndianOfValue(b[..w]);
        var raw := BigEndianValue(b[..w]);
        FloatWidths(w);
        var bits := FloatFromRank(raw, w);
        if !IsNan(bits, w) && FloatRank(bits, w) == raw then Some((FloatPart(bits), b[w..])) else None
    case ByteString =>
      match ReadTerminated(b)
      case None => None
      case Some((bytes, rest)) => Some((BytesPart(bytes), rest))
  }

  predicate ValidShapes(shapes: seq<Shape>) {
    forall i :: 0 <= i < |shapes| ==> ValidShape(shapes[i])
  }

  function ReadParts(shapes: seq<Shape>, b: Bytes): Option<(seq<Part>, Bytes)>
    requires ValidShapes(shapes)
  {
    if shapes == [] then Some(([], b))
    else
      match ReadPart(shapes[0], b)
      case None => None
      case Some((p, rest)) =>
        match ReadParts(shapes[1..], rest)
        case None => None
        case Some((ps, tail)) => Some(([p] + ps, tail))
  }

  /** from_bytes: every component, then nothing left over. None is any of its exceptions. */
  function FromBytes(shapes: seq<Shape>, b: Bytes): Option<seq<Part>>
    requires ValidShapes(shapes)
  {
    match ReadParts(shapes, b)
    case None => None
    case Some((parts, rest)) => if rest == [] then Some(parts) else None
  }

  // ---------------------------------------------------------------- reading undoes writing, exactly

  lemma {:induction false} ReadEscaped(b: Bytes, rest: Bytes)
    ensures ReadTerminated(Terminated(b) + rest) == Some((b, rest))
  {
    if b == [] {
      assert Terminated(b) + rest == [0, 0] + rest;
    } else {
      ReadEscaped(b[1..], rest);
      var t := Terminated(b[1..]) + rest;
      assert b == [b[0]] + b[1..];
      if b[0] == 0 {
        assert Terminated(b) + rest == [0, 255] + t;
        assert ([0, 255] + t)[2..] == t;
      } else {
        assert Terminated(b) + rest == [b[0]] + t;
        assert ([b[0]] + t)[1..] == t;
      }
    }
  }

  /** Whatever the reader accepts is the escaped form of what it returns. */
  lemma {:induction false} ReadTerminatedExact(b: Bytes)
    ensures match ReadTerminated(b) case None => true case Some((bytes, rest)) => b == Terminated(bytes) + rest
    decreases |b|
  {
    if |b| >= 1 && b[0] != 0 {
      ReadTerminatedExact(b[1..]);
      var r := ReadTerminated(b[1..]);
      if r.Some? {
        var bytes, rest := r.value.0, r.value.1;
        assert ([b[0]] + bytes)[1..] == bytes;
        assert b == [b[0]] + (Terminated(bytes) + rest);
        assert Terminated([b[0]] + bytes) == [b[0]] + Terminated(bytes);
      }
    } else if |b| >= 2 && b[1] == 0 {
      assert b == Terminated([]) + b[2..];
    } else if |b| >= 2 && b[1] == 255 {
      ReadTerminatedExact(b[2..]);
      var r := ReadTerminated(b[2..]);
      if r.Some? {
        var bytes, rest := r.value.0, r.value.1;
        assert ([0] + bytes)[1..] == bytes;
        assert b == [0, 255] + (Terminated(bytes) + rest);
        assert Terminated([0] + bytes) == [0, 255] + Terminated(bytes);
      }
    }
  }

  lemma HeadOfConcat(a: Bytes, rest: Bytes)
    ensures (a + rest)[..|a|] == a && (a + rest)[|a|..] == rest
  {
  }

  /** A written component reads back as its canonical value, leaving what follows. */
  lemma ReadEncoded(sh: Shape, p: Part, rest: Bytes)
    requires ValidShape(sh) && Encodable(sh, p)
    ensures ReadPart(sh, EncodePart(sh, p) + rest) == Some((Canonical(sh, p), rest))
  {
    hide BigEndian, BigEndianValue, Terminated, ReadTerminated;
    HeadOfConcat(EncodePart(sh, p), rest);
    match sh
    case Integral(w, size, signed) =>
      HalfMonotone(size, w);
      if signed {
        SignedRankShifts(p.n, w);
        BigEndianRoundTrip(SignedRank(p.n, w), w);
        SignedFromRankShifts(SignedRank(p.n, w), w);
      } else {
        BigEndianRoundTrip(p.n, w);
      }
    case Boolean =>
      Pow256Widths();
      BigEndianRoundTrip(if p.b then 1 else 0, 4);
    case Floating(w) =>
      FloatWidths(w);
      BigEndianRoundTrip(FloatRank(p.bits, w), w);
    case ByteString =>
      ReadEscaped(p.bytes, rest);
  }

  /** What is read is a value the shape admits, already canonical, and the bytes are
      exactly its encoding. */
  lemma ReadPartExact(sh: Shape, b: Bytes)
    requires ValidShape(sh)
    ensures match ReadPart(sh, b)
            case None => true
            case Some((p, rest)) => Encodable(sh, p) && Canonical(sh, p) == p && b == EncodePart(sh, p) + rest
  {
    if ReadPart(sh, b).Some? {
      match sh
      case Integral(w, size, signed) =>
        ReadIntegralExact(sh, b);
      case Boolean =>
        BigEndianOfValue(b[..4]);
        assert b == b[..4] + b[4..];
      case Floating(w) =>
        ReadFloatExact(w, b);
      case ByteString =>
        ReadTerminatedExact(b);
    }
  }

  lemma ReadIntegralExact(sh: Shape, b: Bytes)
    requires sh.Integral? && ValidShape(sh) && ReadPart(sh, b).Some?
    ensures var r := ReadPart(sh, b).value; Encodable(sh, r.0) && b == EncodePart(sh, r.0) + r.1
  {
    hide BigEndian, BigEndianValue;
    var w := sh.storage;
    BigEndianOfValue(b[..w]);
    assert b == b[..w] + b[w..];
    HalfMonotone(sh.size, w);
    var raw := BigEndianValue(b[..w]);
    if sh.signed {
      SignedFromRankShifts(raw, w);
      SignedRankShifts(SignedFromRank(raw, w), w);
    }
  }

  lemma ReadFloatExact(w: nat, b: Bytes)
    requires ValidShape(Floating(w)) && ReadPart(Floating(w), b).Some?
    ensures var sh, r := Floating(w), ReadPart(Floating(w), b).value;
            Encodable(sh, r.0) && Canonical(sh, r.0) == r.0 && b == EncodePart(sh, r.0) + r.1
  {
    hide BigEndian, BigEndianValue;
    BigEndianOfValue(b[..w]);
    assert b == b[..w] + b[w..];
    FloatWidths(w);
  }

  /** from_bytes after to_bytes gives the canonical key. */
  lemma {:induction false} ReadPartsEncoded(shapes: seq<Shape>, parts: seq<Part>, rest: Bytes)
    requires AllEncodable(shapes, parts)
    ensures ValidShapes(shapes)
    ensures ReadParts(shapes, Encode(shapes, parts) + rest) == Some((CanonicalParts(shapes, parts), rest))
  {
    hide ReadPart, EncodePart;
    if parts == [] {
      assert Encode(shapes, parts) + rest == rest;
    } else {
      var head, tail := EncodePart(shapes[0], parts[0]), Encode(shapes[1..], parts[1..]);
      assert (head + tail) + rest == head + (tail + rest);
      ReadEncoded(shapes[0], parts[0], tail + rest);
      ReadPartsEncoded(shapes[1..], parts[1..], rest);
      assert CanonicalParts(shapes, parts) ==
             [Canonical(shapes[0], parts[0])] + CanonicalParts(shapes[1..], parts[1..]);
    }
  }

  lemma {:induction false} ReadPartsExact(shapes: seq<Shape>, b: Bytes)
    requires ValidShapes(shapes)
    ensures match ReadParts(shapes, b)
            case None => true
            case Some((parts, rest)) =>
              && AllEncodable(shapes, parts) && CanonicalParts(shapes, parts) == parts
              && b == Encode(shapes, parts) + rest
  {
    hide ReadPart, EncodePart, Encodable, Canonical;
    if shapes != [] {
      ReadPartExact(shapes[0], b);
      var r := ReadPart(shapes[0], b);
      if r.Some? {
        ReadPartsExact(shapes[1..], r.value.1);
        var t := ReadParts(shapes[1..], r.value.1);
        if t.Some? {
          var parts := [r.value.0] + t.value.0;
          assert parts[1..] == t.value.0;
          assert CanonicalParts(shapes, parts)[1..] == CanonicalParts(shapes[1..], parts[1..]);
          assert CanonicalParts(shapes, parts) == parts;
          assert b == EncodePart(shapes[0], parts[0]) + (Encode(shapes[1..], parts[1..]) + t.value.1);
        }
      }
    }
  }

  /** from_bytes accepts a byte string exactly when it is the encoding of a key of the
      shape, and returns that key: truncated, trailing, badly escaped, out-of-range and
      non-canonical inputs are all refused. */
  lemma DecodeExact(shapes: seq<Shape>, b: Bytes, parts: seq<Part>)
    requires ValidShapes(shapes)
    ensures FromBytes(shapes, b) == Some(parts) <==>
            AllEncodable(shapes, parts) && CanonicalParts(shapes, parts) == parts && b == Encode(shapes, parts)
  {
    ReadPartsExact(shapes, b);
    if AllEncodable(shapes, parts) {
      ReadPartsEncoded(shapes, parts, []);
      assert Encode(shapes, parts) + [] == Encode(shapes, parts);
    }
    if FromBytes(shapes, b).Some? {
      var r := ReadParts(shapes, b).value;
      assert Encode(shapes, r.0) + [] == Encode(shapes, r.0);
    }
  }

  /** Decoding an encoded key gives it back with -0.0 turned into +0.0, so bit for bit it
      is the identity exactly on keys without a -0.0. */
  lemma RoundTrip(shapes: seq<Shape>, parts: seq<Part>)
    requires AllEncodable(shapes, parts)
    ensures ValidShapes(shapes)
    ensures FromBytes(shapes, Encode(shapes, parts)) == Some(CanonicalParts(shapes, parts))
    ensures FromBytes(shapes, Encode(shapes, parts)) == Some(parts) <==>
            forall i :: 0 <= i < |parts| && shapes[i].Floating? ==> parts[i].bits != Half(shapes[i].width)
  {
    ReadPartsEncoded(shapes, parts, []);
    assert Encode(shapes, parts) + [] == Encode(shapes, parts);
    CanonicalUnlessNegativeZero(shapes, parts);
  }

  lemma CanonicalUnlessNegativeZero(shapes: seq<Shape>, parts: seq<Part>)
    requires AllEncodable(shapes, parts)
    ensures CanonicalParts(shapes, parts) == parts <==>
            forall i :: 0 <= i < |parts| && shapes[i].Floating? ==> parts[i].bits != Half(shapes[i].width)
  {
    var c := CanonicalParts(shapes, parts);
    forall i | 0 <= i < |parts|
      ensures c[i] == parts[i] <==> (shapes[i].Floating? ==> parts[i].bits != Half(shapes[i].width))
    {
      assert Encodable(shapes[i], parts[i]);
      if shapes[i].Floating? { FloatWidths(shapes[i].width); }
    }
    assert c == parts <==> forall i :: 0 <= i < |parts| ==> c[i] == parts[i];
  }

  /** No component's bytes are a prefix of another value's: what is written tells where
      it ends. */
  lemma PartPrefixFree(sh: Shape, p: Part, q: Part, x: Bytes, y: Bytes)
    requires ValidShape(sh) && Encodable(sh, p) && Encodable(sh, q)
    requires EncodePart(sh, p) + x == EncodePart(sh, q) + y
    ensures Canonical(sh, p) == Canonical(sh, q) && x == y
  {
    ReadEncoded(sh, p, x);
    ReadEncoded(sh, q, y);
  }

  /** The two zeros are one key: a two-component key that does not come back. */
  lemma NegativeZeroIsLost()
    ensures var shapes := [Floating(4), ByteString];
            var key := [FloatPart(0x8000_0000), BytesPart([])];
            && AllEncodable(shapes, key)
            && FromBytes(shapes, Encode(shapes, key)) == Some([FloatPart(0), BytesPart([])])
  {
    var shapes := [Floating(4), ByteString];
    var key := [FloatPart(0x8000_0000), BytesPart([])];
    FloatWidths(4);
    assert AllEncodable(shapes, key);
    RoundTrip(shapes, key);
    assert CanonicalParts(shapes, key) == [FloatPart(0), BytesPart([])];
  }

  // ---------------------------------------------------------------- order

  /** Escaping keeps the order, even with zero bytes inside, and the terminator makes
      a proper prefix come first whatever follows. */
  lemma {:induction false} TerminatedOrder(a: Bytes, b: Bytes, x: Bytes, y: Bytes)
    requires a != b
    ensures LexLess(Terminated(a) + x, Terminated(b) + y) <==> LexLess(a, b)
  {
    var ea, eb := Terminated(a) + x, Terminated(b) + y;
    if a == [] {
      assert ea[0] == 0 && ea[1] == 0;
      EscapedHead(b, y);
    } else if b == [] {
      assert eb[0] == 0 && eb[1] == 0;
      EscapedHead(a, x);
    } else {
      EscapedHead(a, x);
      EscapedHead(b, y);
      if a[0] == b[0] {
        assert a == [a[0]] + a[1..] && b == [b[0]] + b[1..];
        TerminatedOrder(a[1..], b[1..], x, y);
        var h := if a[0] == 0 then [0, 255] else [a[0]];
        LexCommonPrefix(h, Terminated(a[1..]) + x, Terminated(b[1..]) + y);
      }
    }
  }

  lemma EscapedHead(a: Bytes, x: Bytes)
    requires a != []
    ensures var h := if a[0] == 0 then [0, 255] else [a[0]];
            Terminated(a) + x == h + (Terminated(a[1..]) + x)
  {
  }

  /** Equal canonical values encode equally; different ones are told apart in their own
      bytes, in the order of their type, whatever follows either. */
  predicate Ordered(sh: Shape, p: Part, q: Part, x: Bytes, y: Bytes)
    requires ValidShape(sh) && Encodable(sh, p) && Encodable(sh, q)
  {
    if Canonical(sh, p) == Canonical(sh, q) then EncodePart(sh, p) == EncodePart(sh, q) && !PartLess(sh, p, q)
    else
      && (LexLess(EncodePart(sh, p) + x, EncodePart(sh, q) + y) <==> PartLess(sh, p, q))
      && (PartLess(sh, p, q) || PartLess(sh, q, p))
  }

  lemma PartOrder(sh: Shape, p: Part, q: Part, x: Bytes, y: Bytes)
    requires ValidShape(sh) && Encodable(sh, p) && Encodable(sh, q)
    ensures Ordered(sh, p, q, x, y)
  {
    hide Ordered, Encodable;
    match sh
    case Integral(_, _, _) => IntegralOrder(sh, p, q, x, y);
    case Boolean => BooleanOrder(sh, p, q, x, y);
    case Floating(_) => FloatingOrder(sh, p, q, x, y);
    case ByteString => ByteStringOrder(sh, p, q, x, y);
  }

  lemma IntegralOrder(sh: Shape, p: Part, q: Part, x: Bytes, y: Bytes)
    requires sh.Integral? && ValidShape(sh) && Encodable(sh, p) && Encodable(sh, q)
    ensures Ordered(sh, p, q, x, y)
  {
    hide BigEndian, LexLess;
    var w := sh.storage;
    HalfMonotone(sh.size, w);
    if sh.signed {
      SignedRankShifts(p.n, w);
      SignedRankShifts(q.n, w);
      RankOrder(SignedRank(p.n, w), SignedRank(q.n, w), w, x, y);
    } else {
      RankOrder(p.n, q.n, w, x, y);
    }
  }

  lemma BooleanOrder(sh: Shape, p: Part, q: Part, x: Bytes, y: Bytes)
    requires sh.Boolean? && Encodable(sh, p) && Encodable(sh, q)
    ensures Ordered(sh, p, q, x, y)
  {
    hide BigEndian, LexLess;
    Pow256Widths();
    RankOrder(if p.b then 1 else 0, if q.b then 1 else 0, 4, x, y);
  }

  lemma FloatingOrder(sh: Shape, p: Part, q: Part, x: Bytes, y: Bytes)
    requires sh.Floating? && ValidShape(sh) && Encodable(sh, p) && Encodable(sh, q)
    ensures Ordered(sh, p, q, x, y)
  {
    hide BigEndian, LexLess, FloatRank, FloatOrder, Canonical, IsNan, Half;
    var w := sh.width;
    FloatRankOrder(sh, p, q);
    FloatRankOrder(sh, q, p);
    RankOrder(FloatRank(p.bits, w), FloatRank(q.bits, w), w, x, y);
  }

  /** Ranks order floats as IEEE does, and are equal exactly for equal canonical values. */
  lemma FloatRankOrder(sh: Shape, p: Part, q: Part)
    requires sh.Floating? && ValidShape(sh) && Encodable(sh, p) && Encodable(sh, q)
    ensures var w := sh.width;
            && 0 <= FloatRank(p.bits, w) < Pow256(w)
            && (FloatRank(p.bits, w) < FloatRank(q.bits, w) <==> FloatOrder(p.bits, w) < FloatOrder(q.bits, w))
            && (FloatRank(p.bits, w) == FloatRank(q.bits, w) <==> Canonical(sh, p) == Canonical(sh, q))
  {
    FloatWidths(sh.width);
  }

  lemma ByteStringOrder(sh: Shape, p: Part, q: Part, x: Bytes, y: Bytes)
    requires sh.ByteString? && Encodable(sh, p) && Encodable(sh, q)
    ensures Ordered(sh, p, q, x, y)
  {
    hide Terminated, LexLess;
    LexIrreflexive(p.bytes);
    if p != q {
      TerminatedOrder(p.bytes, q.bytes, x, y);
      LexTotal(p.bytes, q.bytes);
    }
  }

  lemma RankOrder(n: nat, m: nat, w: nat, x: Bytes, y: Bytes)
    requires n < Pow256(w) && m < Pow256(w)
    ensures n != m ==> (LexLess(BigEndian(n, w) + x, BigEndian(m, w) + y) <==> n < m)
  {
    BigEndianOrder(n, m, w);
    if n != m { LexHeadsDecide(BigEndian(n, w), BigEndian(m, w), x, y); }
  }

  /** Component-wise lexicographic order of the tuples. */
  predicate TupleLess(shapes: seq<Shape>, ps: seq<Part>, qs: seq<Part>)
    requires AllEncodable(shapes, ps) && AllEncodable(shapes, qs)
  {
    if ps == [] then false
    else PartLess(shapes[0], ps[0], qs[0])
         || (!PartLess(shapes[0], qs[0], ps[0]) && TupleLess(shapes[1..], ps[1..], qs[1..]))
  }

  /** The encoding is an order isomorphism: operator<, which compares bytes, is the
      order of the tuples. */
  lemma {:induction false} EncodingOrder(shapes: seq<Shape>, ps: seq<Part>, qs: seq<Part>)
    requires AllEncodable(shapes, ps) && AllEncodable(shapes, qs)
    ensures LexLess(Encode(shapes, ps), Encode(shapes, qs)) <==> TupleLess(shapes, ps, qs)
  {
    hide EncodePart, PartLess, LexLess, Canonical;
    if ps == [] {
      LexIrreflexive([]);
    } else {
      var sh := shapes[0];
      var x, y := Encode(shapes[1..], ps[1..]), Encode(shapes[1..], qs[1..]);
      EncodingOrder(shapes[1..], ps[1..], qs[1..]);
      PartOrder(sh, ps[0], qs[0], x, y);
      PartOrder(sh, qs[0], ps[0], y, x);
      if Canonical(sh, ps[0]) == Canonical(sh, qs[0]) {
        LexCommonPrefix(EncodePart(sh, ps[0]), x, y);
      } else if PartLess(sh, ps[0], qs[0]) {
        LexAsymmetric(EncodePart(sh, ps[0]) + x, EncodePart(sh, qs[0]) + y);
      }
    }
  }

  /** Equal bytes are equal keys, up to the sign of zero. */
  lemma {:induction false} EncodingInjective(shapes: seq<Shape>, ps: seq<Part>, qs: seq<Part>)
    requires AllEncodable(shapes, ps) && AllEncodable(shapes, qs)
    ensures Encode(shapes, ps) == Encode(shapes, qs) <==> CanonicalParts(shapes, ps) == CanonicalParts(shapes, qs)
  {
    hide EncodePart, Canonical;
    if ps != [] {
      var x, y := Encode(shapes[1..], ps[1..]), Encode(shapes[1..], qs[1..]);
      EncodingInjective(shapes[1..], ps[1..], qs[1..]);
      PartOrder(shapes[0], ps[0], qs[0], x, y);
      var c, d := CanonicalParts(shapes, ps), CanonicalParts(shapes, qs);
      assert c[1..] == CanonicalParts(shapes[1..], ps[1..]) && d[1..] == CanonicalParts(shapes[1..], qs[1..]);
      assert c == [c[0]] + c[1..] && d == [d[0]] + d[1..];
      if Encode(shapes, ps) == Encode(shapes, qs) {
        PartPrefixFree(shapes[0], ps[0], qs[0], x, y);
      }
    }
  }

  // ---------------------------------------------------------------- operator==

  /** Component equality as the type has it: both zeros are equal, NaN equals nothing. */
  predicate PartEquals(sh: Shape, p: Part, q: Part)
    requires Admits(sh, p) && Admits(sh, q)
  {
    match sh
    case Floating(w) => !IsNan(p.bits, w) && !IsNan(q.bits, w) && FloatOrder(p.bits, w) == FloatOrder(q.bits, w)
    case _ => p == q
  }

  /** The values exist in the component types, NaN included. */
  predicate AllAdmitted(shapes: seq<Shape>, parts: seq<Part>) {
    && |shapes| == |parts|
    && forall i :: 0 <= i < |parts| ==> ValidShape(shapes[i]) && Admits(shapes[i], parts[i])
  }

  /** operator==, which compares the tuples and not their bytes. */
  predicate KeysEqual(shapes: seq<Shape>, ps: seq<Part>, qs: seq<Part>)
    requires AllAdmitted(shapes, ps) && AllAdmitted(shapes, qs)
  {
    forall i :: 0 <= i < |ps| ==> PartEquals(shapes[i], ps[i], qs[i])
  }

  lemma PartEqualsIffCanonical(sh: Shape, p: Part, q: Part)
    requires ValidShape(sh) && Encodable(sh, p) && Encodable(sh, q)
    ensures PartEquals(sh, p, q) <==> Canonical(sh, p) == Canonical(sh, q)
    ensures PartEquals(sh, p, Canonical(sh, p))
  {
    if sh.Floating? { FloatWidths(sh.width); }
  }

  lemma EqualIffCanonical(shapes: seq<Shape>, ps: seq<Part>, qs: seq<Part>)
    requires AllEncodable(shapes, ps) && AllEncodable(shapes, qs)
    ensures KeysEqual(shapes, ps, qs) <==> CanonicalParts(shapes, ps) == CanonicalParts(shapes, qs)
  {
    hide PartEquals, Canonical;
    var c, d := CanonicalParts(shapes, ps), CanonicalParts(shapes, qs);
    forall i | 0 <= i < |ps| ensures PartEquals(shapes[i], ps[i], qs[i]) <==> c[i] == d[i] {
      PartEqualsIffCanonical(shapes[i], ps[i], qs[i]);
    }
    assert c == d <==> forall i :: 0 <= i < |ps| ==> c[i] == d[i];
  }

  /** operator== on keys that encode is equality of the bytes, and the equality operator<
      leaves: neither key is less than the other. */
  lemma EqualIffSameBytes(shapes: seq<Shape>, ps: seq<Part>, qs: seq<Part>)
    requires AllEncodable(shapes, ps) && AllEncodable(shapes, qs)
    ensures KeysEqual(shapes, ps, qs) <==> Encode(shapes, ps) == Encode(shapes, qs)
    ensures KeysEqual(shapes, ps, qs) <==> !TupleLess(shapes, ps, qs) && !TupleLess(shapes, qs, ps)
  {
    hide KeysEqual, TupleLess, Encode, CanonicalParts, LexLess;
    EqualIffCanonical(shapes, ps, qs);
    EncodingInjective(shapes, ps, qs);
    EncodingOrder(shapes, ps, qs);
    EncodingOrder(shapes, qs, ps);
    var b, c := Encode(shapes, ps), Encode(shapes, qs);
    LexIrreflexive(b);
    if b != c { LexTotal(b, c); }
  }

  /** Every key that encodes decodes to a key operator== to it, a -0.0 included. */
  lemma RoundTripEqual(shapes: seq<Shape>, parts: seq<Part>)
    requires AllEncodable(shapes, parts)
    ensures ValidShapes(shapes)
    ensures match FromBytes(shapes, Encode(shapes, parts))
            case None => false
            case Some(back) => AllEncodable(shapes, back) && KeysEqual(shapes, parts, back)
  {
    RoundTrip(shapes, parts);
    var b, back := Encode(shapes, parts), CanonicalParts(shapes, parts);
    hide FromBytes, KeysEqual, Encode, CanonicalParts;
    DecodeExact(shapes, b, back);
    EqualIffCanonical(shapes, parts, back);
  }

  /** A key is operator== to itself exactly when it encodes: NaN is what neither allows. */
  lemma SelfEqualIffEncodable(shapes: seq<Shape>, parts: seq<Part>)
    requires AllAdmitted(shapes, parts)
    ensures KeysEqual(shapes, parts, parts) <==> AllEncodable(shapes, parts)
  {
    forall i | 0 <= i < |parts|
      ensures PartEquals(shapes[i], parts[i], parts[i]) <==> Encodable(shapes[i], parts[i])
    {
    }
  }

  // ---------------------------------------------------------------- the loops

  /** composite_key_append_terminated_bytes, pushing onto the output vector. */
  method AppendTerminated(data: Bytes, out: Bytes) returns (out': Bytes)
    ensures out' == out + Terminated(data)
  {
    out' := out;
    for i := 0 to |data|
      invariant out' == out + Escaped(data[..i])
    {
      EscapedSnoc(data[..i], data[i]);
      assert data[..i + 1] == data[..i] + [data[i]];
      if data[i] == 0 {
        out' := out' + [0] + [255];
      } else {
        out' := out' + [data[i]];
      }
    }
    assert data[..|data|] == data;
    out' := out' + [0] + [0];
  }

  lemma {:induction false} EscapedSnoc(b: Bytes, x: byte)
    ensures Escaped(b + [x]) == Escaped(b) + if x == 0 then [0, 255] else [x]
  {
    if b == [] {
      assert (b + [x])[1..] == [];
    } else {
      assert (b + [x])[1..] == b[1..] + [x];
      EscapedSnoc(b[1..], x);
    }
  }

  /** composite_key_read_terminated_bytes, advancing the read position. */
  method ReadTerminatedBytes(b: Bytes, start: nat) returns (r: Option<(Bytes, nat)>)
    requires start <= |b|
    ensures r.None? <==> ReadTerminated(b[start..]).None?
    ensures r.Some? ==> start <= r.value.1 <= |b| && ReadTerminated(b[start..]) == Some((r.value.0, b[r.value.1..]))
  {
    var out: Bytes, current := [], start;
    JoinedNone(ReadTerminated(b[start..]));
    while current != |b|
      invariant start <= current <= |b|
      invariant ReadTerminated(b[start..]) == Joined(out, ReadTerminated(b[current..]))
      decreases |b| - current
    {
      var x := b[current];
      assert b[current..][1..] == b[current + 1..];
      current := current + 1;
      if x != 0 {
        JoinedStep(out, x, ReadTerminated(b[current..]));
        out := out + [x];
        continue;
      }
      if current == |b| { return None; }
      var escaped := b[current];
      assert b[current - 1..][2..] == b[current + 1..];
      current := current + 1;
      if escaped == 0 {
        assert out + [] == out;
        return Some((out, current));
      }
      if escaped == 255 {
        JoinedStep(out, 0, ReadTerminated(b[current..]));
        out := out + [0];
        continue;
      }
      return None;
    }
    assert b[current..] == [];
    r := None;
  }

  function Joined(out: Bytes, r: Option<(Bytes, Bytes)>): Option<(Bytes, Bytes)> {
    match r
    case None => None
    case Some((bytes, rest)) => Some((out + bytes, rest))
  }

  lemma JoinedNone(r: Option<(Bytes, Bytes)>)
    ensures Joined([], r) == r
  {
    if r.Some? { assert [] + r.value.0 == r.value.0; }
  }

  lemma JoinedStep(out: Bytes, x: byte, r: Option<(Bytes, Bytes)>)
    ensures Joined(out, Prepended(x, r)) == Joined(out + [x], r)
  {
    if r.Some? { assert out + ([x] + r.value.0) == (out + [x]) + r.value.0; }
  }

  // ---------------------------------------------------------------- the codec over the output vector

  /** CompositeKeyPartCodec::append: None is the exception on NaN. */
  method AppendPart(sh: Shape, p: Part, out: Bytes) returns (r: Option<Bytes>)
    requires ValidShape(sh) && Admits(sh, p)
    ensures r.Some? <==> Encodable(sh, p)
    ensures r.Some? ==> r.value == out + EncodePart(sh, p)
  {
    hide BigEndian, Terminated;
    match sh {
      case Integral(w, size, signed) =>
        HalfMonotone(size, w);
        if signed { SignedRankShifts(p.n, w); }
        var digits := EncodeBigEndian(if signed then SignedRank(p.n, w) else p.n, w);
        r := Some(out + digits);
      case Boolean =>
        var digits := EncodeBigEndian(if p.b then 1 else 0, 4);
        r := Some(out + digits);
      case Floating(w) =>
        if IsNan(p.bits, w) { return None; }
        FloatWidths(w);
        var digits := EncodeBigEndian(FloatRank(p.bits, w), w);
        r := Some(out + digits);
      case ByteString =>
        var out' := AppendTerminated(p.bytes, out);
        r := Some(out');
    }
  }

  /** CompositeKeyCodec::append, component by component. */
  method AppendParts(shapes: seq<Shape>, parts: seq<Part>, out: Bytes) returns (r: Option<Bytes>)
    requires ValidShapes(shapes) && |shapes| == |parts| && forall i :: 0 <= i < |parts| ==> Admits(shapes[i], parts[i])
    ensures r.Some? <==> AllEncodable(shapes, parts)
    ensures r.Some? ==> r.value == out + Encode(shapes, parts)
    decreases |parts|
  {
    hide Admits, EncodePart, Encodable;
    if parts == [] { return Some(out); }
    var first := AppendPart(shapes[0], parts[0], out);
    if first.None? { return None; }
    r := AppendParts(shapes[1..], parts[1..], first.value);
    assert r.Some? ==> AllEncodable(shapes, parts) by { EncodableHead(shapes, parts); }
    assert AllEncodable(shapes, parts) ==> AllEncodable(shapes[1..], parts[1..]);
  }

  lemma EncodableHead(shapes: seq<Shape>, parts: seq<Part>)
    requires |shapes| == |parts| && parts != []
    ensures AllEncodable(shapes, parts) <==>
            ValidShape(shapes[0]) && Encodable(shapes[0], parts[0]) && AllEncodable(shapes[1..], parts[1..])
  {
    hide Encodable, ValidShape;
    if ValidShape(shapes[0]) && Encodable(shapes[0], parts[0]) && AllEncodable(shapes[1..], parts[1..]) {
      forall i | 0 <= i < |parts| ensures ValidShape(shapes[i]) && Encodable(shapes[i], parts[i]) {
        if i > 0 { assert shapes[i] == shapes[1..][i - 1] && parts[i] == parts[1..][i - 1]; }
      }
    }
  }

  /** to_bytes: refused exactly when a component is NaN. */
  method ToBytes(shapes: seq<Shape>, parts: seq<Part>) returns (r: Option<Bytes>)
    requires ValidShapes(shapes) && |shapes| == |parts| && forall i :: 0 <= i < |parts| ==> Admits(shapes[i], parts[i])
    ensures r.None? <==>
            exists i :: 0 <= i < |parts| && shapes[i].Floating? && parts[i].FloatPart? && IsNan(parts[i].bits, shapes[i].width)
    ensures r.Some? ==> AllEncodable(shapes, parts) && r.value == Encode(shapes, parts)
  {
    r := AppendParts(shapes, parts, []);
    if r.None? {
      var i :| 0 <= i < |parts| && !Encodable(shapes[i], parts[i]);
      assert shapes[i].Floating? && IsNan(parts[i].bits, shapes[i].width);
    } else {
      assert [] + Encode(shapes, parts) == Encode(shapes, parts);
      assert forall i :: 0 <= i < |parts| ==> Encodable(shapes[i], parts[i]);
    }
  }

  /** CompositeKeyPartCodec::read from a position. */
  method ReadPartAt(sh: Shape, b: Bytes, pos: nat) returns (r: Option<(Part, nat)>)
    requires ValidShape(sh) && pos <= |b|
    ensures r.None? <==> ReadPart(sh, b[pos..]).None?
    ensures r.Some? ==> pos <= r.value.1 <= |b| && ReadPart(sh, b[pos..]) == Some((r.value.0, b[r.value.1..]))
  {
    hide BigEndianValue, ReadTerminated;
    if sh.ByteString? {
      var t := ReadTerminatedBytes(b, pos);
      return if t.None? then None else Some((BytesPart(t.value.0), t.value.1));
    }
    var w := match sh case Integral(w, _, _) => w case Floating(w) => w case _ => 4;
    if |b| - pos < w { return None; }
    var raw := DecodeBigEndian(b[pos..pos + w]);
    assert b[pos..][..w] == b[pos..pos + w] && b[pos..][w..] == b[pos + w..];
    match sh {
      case Integral(_, _, signed) =>
        var n := if signed then SignedFromRank(raw, w) else raw;
        r := if Admits(sh, IntPart(n)) then Some((IntPart(n), pos + w)) else None;
      case Boolean =>
        r := if raw > 1 then None else Some((BoolPart(raw != 0), pos + w));
      case Floating(_) =>
        FloatWidths(w);
        var bits := FloatFromRank(raw, w);
        r := if !IsNan(bits, w) && FloatRank(bits, w) == raw then Some((FloatPart(bits), pos + w)) else None;
    }
  }

  method ReadPartsAt(shapes: seq<Shape>, b: Bytes, pos: nat) returns (r: Option<(seq<Part>, nat)>)
    requires ValidShapes(shapes) && pos <= |b|
    ensures r.None? <==> ReadParts(shapes, b[pos..]).None?
    ensures r.Some? ==> pos <= r.value.1 <= |b| && ReadParts(shapes, b[pos..]) == Some((r.value.0, b[r.value.1..]))
    decreases |shapes|
  {
    hide ReadPart, ValidShape;
    if shapes == [] { return Some(([], pos)); }
    var first := ReadPartAt(shapes[0], b, pos);
    if first.None? { return None; }
    var rest := ReadPartsAt(shapes[1..], b, first.value.1);
    if rest.None? { return None; }
    r := Some(([first.value.0] + rest.value.0, rest.value.1));
  }

  /** from_bytes: refused when a component does not read or bytes are left over. */
  method Decode(shapes: seq<Shape>, b: Bytes) returns (r: Option<seq<Part>>)
    requires ValidShapes(shapes)
    ensures r == FromBytes(shapes, b)
    ensures r.Some? <==> exists parts :: AllEncodable(shapes, parts) && b == Encode(shapes, parts)
  {
    hide ReadParts, Encode;
    assert b[0..] == b;
    var read := ReadPartsAt(shapes, b, 0);
    if read.None? || read.value.1 != |b| {
      r := None;
    } else {
      assert b[|b|..] == [];
      r := Some(read.value.0);
      DecodeExact(shapes, b, r.value);
    }
    forall parts | AllEncodable(shapes, parts) && b == Encode(shapes, parts) ensures r.Some? {
      RoundTrip(shapes, parts);
    }
  }
}
