/** The raw change log of the single-value tables and what replaying it means. */
module RawLog {
  import opened ByteStrings
  import opened OrderedStore

  datatype RawOp = PutOp(key: Bytes, val: Bytes) | DeleteOp(key: Bytes) | ClearTableOp

  type Contents = map<Bytes, Bytes>

  function Replayed(m: Contents, op: RawOp): Contents {
    match op
    case PutOp(k, v) => m[k := v]
    case DeleteOp(k) => m - {k}
    case ClearTableOp => map[]
  }

  function ReplayedAll(m: Contents, ops: seq<RawOp>): Contents {
    if ops == [] then m else Replayed(ReplayedAll(m, ops[..|ops| - 1]), ops[|ops| - 1])
  }

  lemma NothingReplayed(m: Contents)
    ensures ReplayedAll(m, []) == m
  {
  }

  lemma ReplayedSnoc(m: Contents, ops: seq<RawOp>, op: RawOp)
    ensures ReplayedAll(m, ops + [op]) == Replayed(ReplayedAll(m, ops), op)
  {
    assert (ops + [op])[..|ops|] == ops;
  }

  lemma ReplayedOne(m: Contents, op: RawOp)
    ensures ReplayedAll(m, [op]) == Replayed(m, op)
  {
    assert [op][..0] == [];
  }

  lemma {:induction false} ReplayedConcat(m: Contents, a: seq<RawOp>, b: seq<RawOp>)
    ensures ReplayedAll(m, a + b) == ReplayedAll(ReplayedAll(m, a), b)
  {
    if b == [] {
      assert a + b == a;
    } else {
      var c := b[..|b| - 1];
      ReplayedConcat(m, a, c);
      assert a + b == (a + c) + [b[|b| - 1]];
      ReplayedSnoc(m, a + c, b[|b| - 1]);
    }
  }

  /** The DBI holds exactly the pairs of the map. */
  ghost predicate Holds(s: seq<Entry>, m: Contents) {
    && (forall e {:trigger e in s} :: e in s ==> e.key in m && m[e.key] == e.val)
    && (forall k {:trigger k in m} :: k in m ==> Entry(k, m[k]) in s)
  }

  lemma HoldsPut(s: seq<Entry>, s': seq<Entry>, m: Contents, k: Bytes, v: Bytes)
    requires Holds(s, m)
    requires forall x :: x in s' <==> x == Entry(k, v) || (x in s && x.key != k)
    ensures Holds(s', m[k := v])
  {
  }

  lemma HoldsDelete(s: seq<Entry>, s': seq<Entry>, m: Contents, k: Bytes)
    requires Holds(s, m)
    requires forall x :: x in s' <==> x in s && x.key != k
    ensures Holds(s', m - {k})
  {
  }

  lemma HoldsKey(s: seq<Entry>, m: Contents, k: Bytes)
    requires Holds(s, m)
    ensures k in m <==> exists e :: e in s && e.key == k
  {
    if k in m { assert Entry(k, m[k]) in s; }
  }

  /** A store and what it holds determine each other's size. */
  lemma {:induction false} HoldsCount(f: DbiFlags, s: seq<Entry>, m: Contents)
    requires Holds(s, m) && Sorted(f, s) && !f.dupsort
    ensures |s| == |m|
  {
    if s == [] {
      assert m.Keys == {};
    } else {
      var n := |s| - 1;
      var t, e := s[..n], s[n];
      assert e in s;
      RemoveSorted(f, s, n);
      assert RemoveAt(s, n) == t;
      SoleKey(f, s, n);
      assert forall x :: x in t <==> x in s && x.key != e.key;
      HoldsDelete(s, t, m, e.key);
      assert (m - {e.key}).Keys == m.Keys - {e.key};
      HoldsCount(f, t, m - {e.key});
    }
  }
}
