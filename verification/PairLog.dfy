/** The logical meaning of a multi-value table, a multiset of key-value pairs, and
    the logical change stream recorded for it. */
module PairLog {
  import opened ByteStrings
  import opened OrderedStore
  import opened Prefixed

  datatype LogicalOp =
    | InsertOne(key: Bytes, value: Bytes)
    | EraseKey(key: Bytes)
    | EraseAllValues(key: Bytes, value: Bytes)
    | EraseOneValue(key: Bytes, value: Bytes)
    | ClearAll

  /** All pairs of one key gone. */
  ghost function DropKey(m: multiset<Pair>, k: Bytes): (r: multiset<Pair>)
    ensures forall p :: r[p] == if p.0 == k then 0 else m[p]
    decreases |m|
  {
    if exists p :: p in m && p.0 == k then
      var p :| p in m && p.0 == k;
      assert m == m[p := 0] + multiset{}[p := m[p]];
      DropKey(m[p := 0], k)
    else m
  }

  /** What replaying one change does to a replica's pairs. */
  ghost function Applied(m: multiset<Pair>, op: LogicalOp): multiset<Pair> {
    match op
    case InsertOne(k, v) => m + multiset{(k, v)}
    case EraseKey(k) => DropKey(m, k)
    case EraseAllValues(k, v) => m[(k, v) := 0]
    case EraseOneValue(k, v) => m - multiset{(k, v)}
    case ClearAll => multiset{}
  }

  ghost function AppliedAll(m: multiset<Pair>, ops: seq<LogicalOp>): multiset<Pair> {
    if ops == [] then m else Applied(AppliedAll(m, ops[..|ops| - 1]), ops[|ops| - 1])
  }

  /** A recorded change, pair by pair. */
  lemma AppliedMeans(m: multiset<Pair>, op: LogicalOp, p: Pair)
    ensures Applied(m, op)[p] ==
            match op
            case InsertOne(k, v) => m[p] + (if p == (k, v) then 1 else 0)
            case EraseKey(k) => if p.0 == k then 0 else m[p]
            case EraseAllValues(k, v) => if p == (k, v) then 0 else m[p]
            case EraseOneValue(k, v) => if p == (k, v) && m[p] > 0 then m[p] - 1 else m[p]
            case ClearAll => 0
  {
  }

  lemma AppliedNone(m: multiset<Pair>)
    ensures AppliedAll(m, []) == m
    ensures forall op :: AppliedAll(m, [op]) == Applied(m, op)
  {
    forall op ensures AppliedAll(m, [op]) == Applied(m, op) {
      assert [op][..0] == [];
    }
  }

  lemma AppliedSnoc(m: multiset<Pair>, ops: seq<LogicalOp>, op: LogicalOp)
    ensures AppliedAll(m, ops + [op]) == Applied(AppliedAll(m, ops), op)
  {
    assert (ops + [op])[..|ops|] == ops;
  }

  lemma LastApart<T>(a: seq<T>, b: seq<T>)
    requires b != []
    ensures var n := |b| - 1; b == b[..n] + [b[n]] && a + b == (a + b[..n]) + [b[n]]
  {
  }

  lemma {:induction false} AppliedConcat(m: multiset<Pair>, a: seq<LogicalOp>, b: seq<LogicalOp>)
    ensures AppliedAll(m, a + b) == AppliedAll(AppliedAll(m, a), b)
  {
    if b == [] {
      assert a + b == a;
    } else {
      hide AppliedAll, Applied;
      var c, op := b[..|b| - 1], b[|b| - 1];
      AppliedConcat(m, a, c);
      AppliedSnoc(m, a + c, op);
      AppliedSnoc(AppliedAll(m, a), c, op);
      LastApart(a, b);
    }
  }

  function InsertOps(pairs: seq<Pair>): (r: seq<LogicalOp>)
    ensures |r| == |pairs|
  {
    seq(|pairs|, i requires 0 <= i < |pairs| => InsertOne(pairs[i].0, pairs[i].1))
  }

  function EraseOps(pairs: seq<Pair>): (r: seq<LogicalOp>)
    ensures |r| == |pairs|
  {
    seq(|pairs|, i requires 0 <= i < |pairs| => EraseOneValue(pairs[i].0, pairs[i].1))
  }

  lemma OpsSnoc(pairs: seq<Pair>, p: Pair)
    ensures InsertOps(pairs + [p]) == InsertOps(pairs) + [InsertOne(p.0, p.1)]
    ensures EraseOps(pairs + [p]) == EraseOps(pairs) + [EraseOneValue(p.0, p.1)]
  {
  }

  /** The pairs a stream of changes inserts, in order. */
  function InsertedPairs(ops: seq<LogicalOp>): seq<Pair> {
    if ops == [] then []
    else
      var t, op := InsertedPairs(ops[..|ops| - 1]), ops[|ops| - 1];
      if op.InsertOne? then t + [(op.key, op.value)] else t
  }

  lemma {:induction false} InsertedConcat(a: seq<LogicalOp>, b: seq<LogicalOp>)
    ensures InsertedPairs(a + b) == InsertedPairs(a) + InsertedPairs(b)
  {
    if b == [] {
      assert a + b == a;
    } else {
      assert (a + b)[..|a + b| - 1] == a + b[..|b| - 1];
      InsertedConcat(a, b[..|b| - 1]);
    }
  }

  lemma {:induction false} InsertedOps(pairs: seq<Pair>)
    ensures InsertedPairs(InsertOps(pairs)) == pairs
    ensures InsertedPairs(EraseOps(pairs)) == []
  {
    if pairs != [] {
      var n := |pairs| - 1;
      InsertedOps(pairs[..n]);
      assert InsertOps(pairs)[..n] == InsertOps(pairs[..n]);
      assert EraseOps(pairs)[..n] == EraseOps(pairs[..n]);
      assert pairs == pairs[..n] + [pairs[n]];
    }
  }

  lemma {:induction false} InsertsApplied(m: multiset<Pair>, pairs: seq<Pair>)
    ensures AppliedAll(m, InsertOps(pairs)) == m + multiset(pairs)
  {
    if pairs != [] {
      var n := |pairs| - 1;
      InsertsApplied(m, pairs[..n]);
      assert pairs == pairs[..n] + [pairs[n]];
      OpsSnoc(pairs[..n], pairs[n]);
      AppliedSnoc(m, InsertOps(pairs[..n]), InsertOne(pairs[n].0, pairs[n].1));
    }
  }

  // ---------------------------------------------------------------- entries and their multiset

  ghost function PairSet(s: seq<Entry>): multiset<Pair> {
    multiset(Pairs(s))
  }

  lemma PairSetConcat(a: seq<Entry>, b: seq<Entry>)
    ensures PairSet(a + b) == PairSet(a) + PairSet(b)
  {
    PairsConcat(a, b);
  }

  lemma PairSetSnoc(s: seq<Entry>, i: nat)
    requires i < |s|
    ensures PairSet(s[..i + 1]) == PairSet(s[..i]) + multiset{PairOf(s[i])}
  {
    assert s[..i + 1] == s[..i] + [s[i]];
    PairSetConcat(s[..i], [s[i]]);
    assert Pairs([s[i]]) == [PairOf(s[i])];
  }

  lemma PairSetInsert(s: seq<Entry>, u: nat, e: Entry)
    requires u <= |s|
    ensures PairSet(s[..u] + [e] + s[u..]) == PairSet(s) + multiset{PairOf(e)}
  {
    PairSetConcat(s[..u] + [e], s[u..]);
    PairSetConcat(s[..u], [e]);
    PairSetConcat(s[..u], s[u..]);
    assert s == s[..u] + s[u..];
    assert Pairs([e]) == [PairOf(e)];
  }

  lemma PairSetRemove(s: seq<Entry>, i: nat)
    requires i < |s|
    ensures PairSet(RemoveAt(s, i)) == PairSet(s) - multiset{PairOf(s[i])}
    ensures PairOf(s[i]) in PairSet(s)
  {
    PairSetInsert(RemoveAt(s, i), i, s[i]);
    assert RemoveAt(s, i)[..i] + [s[i]] + RemoveAt(s, i)[i..] == s;
  }

  // ---------------------------------------------------------------- erasing equal pairs

  /** The entries that do not show the pair `p`, in order. */
  function Without(s: seq<Entry>, p: Pair): seq<Entry> {
    if s == [] then []
    else
      var t := Without(s[..|s| - 1], p);
      if PairOf(s[|s| - 1]) == p then t else t + [s[|s| - 1]]
  }

  lemma WithoutSnoc(s: seq<Entry>, i: nat, p: Pair)
    requires i < |s|
    ensures Without(s[..i + 1], p) == if PairOf(s[i]) == p then Without(s[..i], p) else Without(s[..i], p) + [s[i]]
  {
    assert s[..i + 1][..i] == s[..i];
  }

  lemma {:induction false} WithoutConcat(a: seq<Entry>, b: seq<Entry>, p: Pair)
    ensures Without(a + b, p) == Without(a, p) + Without(b, p)
  {
    if b == [] {
      assert a + b == a;
    } else {
      var n := |b| - 1;
      assert (a + b)[..|a + b| - 1] == a + b[..n];
      WithoutConcat(a, b[..n], p);
    }
  }

  /** Entries of other keys are never touched. */
  lemma {:induction false} WithoutUntouched(s: seq<Entry>, p: Pair)
    requires forall e :: e in s ==> e.key != p.0
    ensures Without(s, p) == s
  {
    if s != [] {
      assert s[|s| - 1] in s;
      WithoutUntouched(s[..|s| - 1], p);
    }
  }

  /** Every copy of the pair is gone and every other pair is as it was. */
  lemma {:induction false} WithoutPairs(s: seq<Entry>, p: Pair)
    ensures PairSet(Without(s, p)) == PairSet(s)[p := 0]
    ensures |Without(s, p)| == |s| - PairSet(s)[p]
    ensures forall e :: e in Without(s, p) ==> e in s
  {
    if s != [] {
      var n := |s| - 1;
      WithoutPairs(s[..n], p);
      assert s[..n + 1] == s;
      PairSetSnoc(s, n);
      var t := Without(s[..n], p);
      PairSetConcat(t, [s[n]]);
      assert Pairs([s[n]]) == [PairOf(s[n])];
    }
  }

  /** Cutting a key's run out of the entries drops the key from the pairs. */
  lemma CutKeyPairs(f: DbiFlags, s: seq<Entry>, k: Bytes)
    requires Sorted(f, s)
    ensures var lo, hi := LowerIndex(f.order, s, k), UpperIndex(f.order, s, k);
            lo <= hi && PairSet(s[..lo] + s[hi..]) == DropKey(PairSet(s), k)
  {
    hide KeyLess, LowerIndex, UpperIndex, PairSet, DropKey;
    var lo, hi := LowerIndex(f.order, s, k), UpperIndex(f.order, s, k);
    OutsideRun(f, s, k);
    SplitThree(s, lo, hi);
    var a, b, c := s[..lo], s[lo..hi], s[hi..];
    PairSetConcat(a + b, c);
    PairSetConcat(a, b);
    PairSetConcat(a, c);
    KeyFree(a, k);
    KeyFree(c, k);
    KeyOnly(b, k);
    DropRun(PairSet(a), PairSet(b), PairSet(c), k);
  }

  lemma KeyFree(s: seq<Entry>, k: Bytes)
    requires forall e :: e in s ==> e.key != k
    ensures forall p :: p in PairSet(s) ==> p.0 != k
  {
    forall p | p in PairSet(s) ensures p.0 != k {
      assert p in Pairs(s);
    }
  }

  lemma KeyOnly(s: seq<Entry>, k: Bytes)
    requires forall e :: e in s ==> e.key == k
    ensures forall p :: p in PairSet(s) ==> p.0 == k
  {
    forall p | p in PairSet(s) ensures p.0 == k {
      assert p in Pairs(s);
    }
  }

  lemma DropRun(a: multiset<Pair>, b: multiset<Pair>, c: multiset<Pair>, k: Bytes)
    requires forall p :: p in a ==> p.0 != k
    requires forall p :: p in b ==> p.0 == k
    requires forall p :: p in c ==> p.0 != k
    ensures a + c == DropKey(a + b + c, k)
  {
    forall p ensures (a + c)[p] == DropKey(a + b + c, k)[p] {
      assert p.0 == k ==> p !in a && p !in c;
      assert p.0 != k ==> p !in b;
    }
  }

  // ---------------------------------------------------------------- the entries of one key

  function KeyEntries(s: seq<Entry>, k: Bytes): seq<Entry> {
    if s == [] then []
    else
      var t := KeyEntries(s[..|s| - 1], k);
      if s[|s| - 1].key == k then t + [s[|s| - 1]] else t
  }

  lemma OneEntry(e: Entry)
    ensures forall k :: KeyEntries([e], k) == if e.key == k then [e] else []
  {
    forall k ensures KeyEntries([e], k) == if e.key == k then [e] else [] {
      assert [e][..0] == [];
    }
  }

  lemma {:induction false} KeyEntriesConcat(a: seq<Entry>, b: seq<Entry>, k: Bytes)
    ensures KeyEntries(a + b, k) == KeyEntries(a, k) + KeyEntries(b, k)
  {
    if b == [] {
      assert a + b == a;
    } else {
      var n := |b| - 1;
      assert (a + b)[..|a + b| - 1] == a + b[..n];
      KeyEntriesConcat(a, b[..n], k);
    }
  }

  lemma {:induction false} KeyEntriesAbsent(s: seq<Entry>, k: Bytes)
    requires forall e :: e in s ==> e.key != k
    ensures KeyEntries(s, k) == []
  {
    if s != [] {
      assert s[|s| - 1] in s;
      KeyEntriesAbsent(s[..|s| - 1], k);
    }
  }

  lemma {:induction false} KeyEntriesPresent(s: seq<Entry>, k: Bytes)
    requires forall e :: e in s ==> e.key == k
    ensures KeyEntries(s, k) == s
  {
    if s != [] {
      assert s[|s| - 1] in s;
      KeyEntriesPresent(s[..|s| - 1], k);
    }
  }

  /** In a sorted run a key's entries are the slice between its bounds. */
  lemma KeyEntriesSlice(f: DbiFlags, s: seq<Entry>, k: Bytes)
    requires Sorted(f, s)
    ensures LowerIndex(f.order, s, k) <= UpperIndex(f.order, s, k)
    ensures KeyEntries(s, k) == s[LowerIndex(f.order, s, k)..UpperIndex(f.order, s, k)]
  {
    hide KeyEntries, KeyLess, LowerIndex, UpperIndex;
    var lo, hi := LowerIndex(f.order, s, k), UpperIndex(f.order, s, k);
    OutsideRun(f, s, k);
    SplitThree(s, lo, hi);
    KeyEntriesConcat(s[..lo] + s[lo..hi], s[hi..], k);
    KeyEntriesConcat(s[..lo], s[lo..hi], k);
    KeyEntriesAbsent(s[..lo], k);
    KeyEntriesAbsent(s[hi..], k);
    KeyEntriesPresent(s[lo..hi], k);
  }

  /** An entry put at the end of its key extends that key and touches no other. */
  lemma KeyEntriesInsert(f: DbiFlags, s: seq<Entry>, e: Entry, k: Bytes)
    requires Sorted(f, s)
    ensures var u := UpperIndex(f.order, s, e.key);
            KeyEntries(s[..u] + [e] + s[u..], k) == if e.key == k then KeyEntries(s, k) + [e] else KeyEntries(s, k)
  {
    hide KeyEntries, KeyLess, LowerIndex, UpperIndex, Sorted;
    var u := UpperIndex(f.order, s, e.key);
    OutsideRun(f, s, e.key);
    SplitAt(s, u);
    OneEntry(e);
    KeyEntriesConcat(s[..u] + [e], s[u..], k);
    KeyEntriesConcat(s[..u], [e], k);
    KeyEntriesConcat(s[..u], s[u..], k);
    if e.key == k { KeyEntriesAbsent(s[u..], k); }
  }
}
