/** Duplicates that carry a hidden big-endian 64-bit prefix: the storage idea shared
    by KeyMultiValueTable (sequence) and KeyOrderedMultiValueTable (order). */
module Prefixed {
  import opened ByteStrings
  import opened OrderedStore

  type Pair = (Bytes, Bytes)

  /** make_stored_value. */
  function Stored(n: uint64, value: Bytes): (b: Bytes)
    ensures |b| == 8 + |value|
  {
    BigEndian(n, 8) + value
  }

  method MakeStored(n: uint64, value: Bytes) returns (b: Bytes)
    ensures b == Stored(n, value)
  {
    var prefix := EncodeBigEndian(n, 8);
    b := prefix + value;
  }

  /** decode_sequence / decode_order. */
  function PrefixOf(e: Entry): nat {
    if |e.val| < 8 then 0 else BigEndianValue(e.val[..8])
  }

  /** strip_sequence / strip_order. */
  function Raw(e: Entry): Bytes {
    if |e.val| < 8 then [] else e.val[8..]
  }

  function PairOf(e: Entry): Pair {
    (e.key, Raw(e))
  }

  lemma PairParts(e: Entry)
    ensures PairOf(e) == (e.key, Raw(e))
  {
  }

  /** What a load or range read shows of the stored entries. */
  function Pairs(s: seq<Entry>): (r: seq<Pair>)
    ensures |r| == |s|
    ensures forall i {:trigger r[i]} :: 0 <= i < |s| ==> r[i] == PairOf(s[i])
  {
    seq(|s|, i requires 0 <= i < |s| => PairOf(s[i]))
  }

  /** The values alone, as a lookup of one key shows them. */
  function RawValues(s: seq<Entry>): (r: seq<Bytes>)
    ensures |r| == |s|
    ensures forall i {:trigger r[i]} :: 0 <= i < |s| ==> r[i] == Raw(s[i])
  {
    seq(|s|, i requires 0 <= i < |s| => Raw(s[i]))
  }

  lemma PairsConcat(a: seq<Entry>, b: seq<Entry>)
    ensures Pairs(a + b) == Pairs(a) + Pairs(b)
  {
  }

  lemma PairsReversed(s: seq<Entry>)
    ensures Pairs(Reversed(s)) == Reversed(Pairs(s))
  {
  }

  /** No record is "corrupted": every duplicate has room for its prefix. */
  ghost predicate WellFormed(s: seq<Entry>) {
    forall e :: e in s ==> |e.val| >= 8
  }

  lemma StoredParts(key: Bytes, n: uint64, value: Bytes)
    ensures PrefixOf(Entry(key, Stored(n, value))) == n
    ensures PairOf(Entry(key, Stored(n, value))) == (key, value)
  {
    Pow256Widths();
    BigEndianRoundTrip(n, 8);
    assert Stored(n, value)[..8] == BigEndian(n, 8);
    assert Stored(n, value)[8..] == value;
  }

  /** Bytewise order of duplicates is numeric order of prefixes, whatever the values. */
  lemma PrefixOrder(a: Entry, b: Entry)
    requires |a.val| >= 8 && |b.val| >= 8
    ensures LexLess(a.val, b.val) ==> PrefixOf(a) <= PrefixOf(b)
    ensures PrefixOf(a) < PrefixOf(b) ==> LexLess(a.val, b.val)
  {
    var p, q := a.val[..8], b.val[..8];
    BigEndianOfValue(p);
    BigEndianOfValue(q);
    BigEndianOrder(BigEndianValue(p), BigEndianValue(q), 8);
    assert a.val == p + a.val[8..] && b.val == q + b.val[8..];
    if p != q { LexHeadsDecide(p, q, a.val[8..], b.val[8..]); }
  }

  /** Every live prefix of the key is below `n`. */
  ghost predicate Above(s: seq<Entry>, key: Bytes, n: nat) {
    forall e {:trigger PrefixOf(e)} :: e in s && e.key == key ==> PrefixOf(e) < n
  }

  // ---------------------------------------------------------------- room for more prefixes

  /** How many prefixes are used up: one above the largest stored one. */
  function Used(s: seq<Entry>): nat {
    if s == [] then 0
    else
      var t, n := Used(s[..|s| - 1]), PrefixOf(s[|s| - 1]) + 1;
      if n > t then n else t
  }

  lemma {:induction false} UsedAbove(s: seq<Entry>, e: Entry)
    requires e in s
    ensures PrefixOf(e) < Used(s)
  {
    if e != s[|s| - 1] {
      assert e in s[..|s| - 1];
      UsedAbove(s[..|s| - 1], e);
    }
  }

  lemma {:induction false} UsedLeast(s: seq<Entry>, bound: nat)
    requires forall e {:trigger PrefixOf(e)} :: e in s ==> PrefixOf(e) < bound
    ensures Used(s) <= bound
  {
    if s != [] {
      assert s[|s| - 1] in s;
      UsedLeast(s[..|s| - 1], bound);
    }
  }

  lemma UsedSub(s: seq<Entry>, t: seq<Entry>)
    requires forall e :: e in t ==> e in s
    ensures Used(t) <= Used(s)
  {
    forall e | e in t ensures PrefixOf(e) < Used(s) {
      UsedAbove(s, e);
    }
    UsedLeast(t, Used(s));
  }

  lemma UsedInsert(s: seq<Entry>, u: nat, e: Entry)
    requires u <= |s| && PrefixOf(e) <= Used(s)
    ensures Used(s[..u] + [e] + s[u..]) <= Used(s) + 1
  {
    var t := s[..u] + [e] + s[u..];
    forall x | x in t ensures PrefixOf(x) < Used(s) + 1 {
      if x != e {
        assert x in s;
        UsedAbove(s, x);
      }
    }
    UsedLeast(t, Used(s) + 1);
  }

  /** The stored form is within the size limit; no limit when not positive. */
  predicate Fits(limit: int, value: Bytes) {
    limit > 0 ==> 8 + |value| <= limit
  }

  /** The pair cannot be stored: its key holds the largest prefix, or it is too large. */
  ghost predicate Refused(limit: int, s: seq<Entry>, p: Pair) {
    (exists e :: e in s && e.key == p.0 && PrefixOf(e) == MAX_UINT64) || !Fits(limit, p.1)
  }

  /** Prefixes are left for all of the pairs, and all are within the size limit. */
  predicate Room(limit: int, s: seq<Entry>, pairs: seq<Pair>) {
    Used(s) + |pairs| <= TWO_TO_THE_64 && forall p :: p in pairs ==> Fits(limit, p.1)
  }

  /** Room, prefix by prefix: every stored one leaves enough numbers above it. */
  lemma RoomMeans(limit: int, s: seq<Entry>, pairs: seq<Pair>)
    ensures Room(limit, s, pairs) <==>
            && |pairs| <= TWO_TO_THE_64
            && (forall e {:trigger PrefixOf(e)} :: e in s ==> PrefixOf(e) + |pairs| < TWO_TO_THE_64)
            && (limit > 0 ==> forall p :: p in pairs ==> 8 + |p.1| <= limit)
  {
    forall e | e in s ensures PrefixOf(e) < Used(s) {
      UsedAbove(s, e);
    }
    if |pairs| <= TWO_TO_THE_64 && forall e {:trigger PrefixOf(e)} :: e in s ==> PrefixOf(e) + |pairs| < TWO_TO_THE_64 {
      UsedLeast(s, TWO_TO_THE_64 - |pairs|);
    }
  }

  lemma RefusedMeans(limit: int, s: seq<Entry>, p: Pair)
    requires Refused(limit, s, p)
    ensures !Fits(limit, p.1) || Used(s) >= TWO_TO_THE_64
  {
    if e :| e in s && e.key == p.0 && PrefixOf(e) == MAX_UINT64 { UsedAbove(s, e); }
  }

  /** next_sequence / next_order: the last duplicate has the largest prefix, so one
      LAST_DUP finds it. Refused exactly when that prefix is the largest there is. */
  method NextPrefix(f: DbiFlags, s: seq<Entry>, key: Bytes) returns (r: Option<uint64>)
    requires Sorted(f, s) && f.dupsort && WellFormed(s)
    ensures r.Some? ==> Above(s, key, r.value)
    ensures r.Some? && r.value > 0 ==> exists e :: e in s && e.key == key && PrefixOf(e) == r.value - 1
    ensures r.Some? ==> r.value <= Used(s)
    ensures r.None? <==> exists e :: e in s && e.key == key && PrefixOf(e) == MAX_UINT64
  {
    KeyRun(f, s, key);
    var cursor := SetKey(f.order, s, key);
    if !cursor.At? {
      KeyFound(f, s, key);
      return Some(0);
    }
    var last := LastDup(f.order, s, cursor);
    LastIsLargest(f, s, key, last.index);
    var n := DecodeBigEndian(s[last.index].val[..8]);
    if n == MAX_UINT64 { return None; }
    UsedAbove(s, s[last.index]);
    r := Some(n + 1);
  }

  lemma LastIsLargest(f: DbiFlags, s: seq<Entry>, key: Bytes, last: nat)
    requires Sorted(f, s) && f.dupsort && WellFormed(s)
    requires last + 1 == UpperIndex(f.order, s, key) && LowerIndex(f.order, s, key) <= last
    ensures last < |s| && s[last] in s && s[last].key == key && |s[last].val| >= 8
    ensures PrefixOf(s[last]) == BigEndianValue(s[last].val[..8]) < TWO_TO_THE_64
    ensures forall e {:trigger PrefixOf(e)} :: e in s && e.key == key ==> PrefixOf(e) <= PrefixOf(s[last])
  {
    Bounds(f, s, key);
    Pow256Widths();
    assert s[last] in s;
    BigEndianOfValue(s[last].val[..8]);
    forall e | e in s && e.key == key ensures PrefixOf(e) <= PrefixOf(s[last]) {
      var i :| 0 <= i < |s| && s[i] == e;
      KeyIrreflexive(f.order, key);
      if i < last {
        assert Before(f, s[i], s[last]);
        PrefixOrder(s[i], s[last]);
      }
    }
  }

  /** A duplicate with a prefix above all of its key's goes to the end of the key. */
  lemma AppendPosition(f: DbiFlags, s: seq<Entry>, key: Bytes, n: uint64, value: Bytes)
    requires Sorted(f, s) && f.dupsort && WellFormed(s) && Above(s, key, n)
    ensures var e, u := Entry(key, Stored(n, value)), UpperIndex(f.order, s, key);
            && e !in s
            && InsertEntry(f, s, e) == s[..u] + [e] + s[u..]
            && WellFormed(InsertEntry(f, s, e))
  {
    var e, u := Entry(key, Stored(n, value)), UpperIndex(f.order, s, key);
    StoredParts(key, n, value);
    Bounds(f, s, key);
    forall j | 0 <= j < u ensures Before(f, s[j], e) {
      assert s[j] in s;
      KeyTotal(f.order, s[j].key, key);
      if s[j].key == key {
        assert PrefixOf(s[j]) < n;
        PrefixOrder(s[j], e);
      }
    }
    if u < |s| {
      assert KeyLess(f.order, key, s[u].key);
      KeyAsymmetric(f.order, key, s[u].key);
    }
    PositionIs(f, s, e, u);
    assert e in s ==> PrefixOf(e) < n;
  }

  lemma PositionIs(f: DbiFlags, s: seq<Entry>, e: Entry, u: nat)
    requires u <= |s|
    requires forall j {:trigger Before(f, s[j], e)} :: 0 <= j < u ==> Before(f, s[j], e)
    requires u < |s| ==> !Before(f, s[u], e)
    ensures Position(f, s, e) == u
  {
  }

  lemma WellFormedSub(s: seq<Entry>, t: seq<Entry>)
    requires WellFormed(s) && forall e :: e in t ==> e in s
    ensures WellFormed(t)
  {
  }
}
