/** The MDBX contract the tables are written against: a DBI is a strictly sorted
    run of entries, and a cursor is a place in it. Pages, locks and durability
    are not part of this model. */
module OrderedStore {
  import opened ByteStrings

  datatype Entry = Entry(key: Bytes, val: Bytes)

  datatype PutMode = Upsert | NoOverwrite | NoDupData

  datatype Status = Success | KeyExist | NotFound

  // ---------------------------------------------------------------- key order

  predicate Compared(less: (Bytes, Bytes) -> bool, a: Bytes, b: Bytes) {
    !less(a, a) && (a == b || less(a, b) || less(b, a))
  }

  predicate Chained(less: (Bytes, Bytes) -> bool, a: Bytes, b: Bytes, c: Bytes) {
    less(a, b) && less(b, c) ==> less(a, c)
  }

  ghost predicate StrictOrder(less: (Bytes, Bytes) -> bool) {
    (forall a, b :: Compared(less, a, b)) && (forall a, b, c :: Chained(less, a, b, c))
  }

  /** MDBX's default comparator. */
  const BYTEWISE: (Bytes, Bytes) -> bool := (a: Bytes, b: Bytes) => LexLess(a, b)

  /** MDBX_INTEGERKEY on a little-endian host: keys of one width compare as the
      integers they hold, the last byte being the most significant. */
  const INTEGER_KEY: (Bytes, Bytes) -> bool := (a: Bytes, b: Bytes) => LexLess(Reversed(a), Reversed(b))

  lemma BytewiseIsStrictOrder()
    ensures StrictOrder(BYTEWISE)
  {
    forall a: Bytes, b: Bytes ensures Compared(BYTEWISE, a, b) {
      LexIrreflexive(a);
      LexTotal(a, b);
    }
    forall a: Bytes, b: Bytes, c: Bytes ensures Chained(BYTEWISE, a, b, c) {
      if LexLess(a, b) && LexLess(b, c) { LexTransitive(a, b, c); }
    }
  }

  lemma IntegerKeyIsStrictOrder()
    ensures StrictOrder(INTEGER_KEY)
  {
    forall a: Bytes, b: Bytes ensures Compared(INTEGER_KEY, a, b) {
      LexIrreflexive(Reversed(a));
      LexTotal(Reversed(a), Reversed(b));
      if Reversed(a) == Reversed(b) { ReversedInjective(a, b); }
    }
    forall a: Bytes, b: Bytes, c: Bytes ensures Chained(INTEGER_KEY, a, b, c) {
      if INTEGER_KEY(a, b) && INTEGER_KEY(b, c) { LexTransitive(Reversed(a), Reversed(b), Reversed(c)); }
    }
  }

  /** The comparator of a DBI: any strict total order on byte strings. */
  type KeyOrder = less: (Bytes, Bytes) -> bool | StrictOrder(less) ghost witness (BytewiseIsStrictOrder(); BYTEWISE)

  datatype DbiFlags = DbiFlags(order: KeyOrder, dupsort: bool)

  predicate KeyLess(o: KeyOrder, a: Bytes, b: Bytes) {
    o(a, b)
  }

  lemma KeyIrreflexive(o: KeyOrder, a: Bytes)
    ensures !KeyLess(o, a, a)
  {
    assert Compared(o, a, a);
  }

  lemma KeyTransitive(o: KeyOrder, a: Bytes, b: Bytes, c: Bytes)
    requires KeyLess(o, a, b) && KeyLess(o, b, c)
    ensures KeyLess(o, a, c)
  {
    assert Chained(o, a, b, c);
  }

  lemma KeyTotal(o: KeyOrder, a: Bytes, b: Bytes)
    ensures a == b || KeyLess(o, a, b) || KeyLess(o, b, a)
  {
    assert Compared(o, a, b);
  }

  lemma KeyAsymmetric(o: KeyOrder, a: Bytes, b: Bytes)
    requires KeyLess(o, a, b)
    ensures !KeyLess(o, b, a) && a != b
  {
    KeyIrreflexive(o, a);
    if KeyLess(o, b, a) { KeyTransitive(o, a, b, a); }
  }

  /** a < b <= c, where `b <= c` is the source's `mdbx_cmp(b, c) <= 0`. */
  lemma KeyLessNotGreater(o: KeyOrder, a: Bytes, b: Bytes, c: Bytes)
    requires KeyLess(o, a, b) && !KeyLess(o, c, b)
    ensures KeyLess(o, a, c)
  {
    KeyTotal(o, b, c);
    if b != c { KeyTransitive(o, a, b, c); }
  }

  /** Little-endian 64-bit integer keys sort as the integers. */
  lemma IntegerKeyOrder(n: nat, m: nat, w: nat)
    requires n < Pow256(w) && m < Pow256(w)
    ensures INTEGER_KEY(LittleEndian(n, w), LittleEndian(m, w)) <==> n < m
  {
    ReversedLittleEndian(n, w);
    ReversedLittleEndian(m, w);
    BigEndianOrder(n, m, w);
  }

  // ---------------------------------------------------------------- entry order

  predicate Before(f: DbiFlags, a: Entry, b: Entry) {
    KeyLess(f.order, a.key, b.key) || (f.dupsort && a.key == b.key && LexLess(a.val, b.val))
  }

  /** Two entries one DBI cannot hold together. */
  predicate Clash(f: DbiFlags, a: Entry, b: Entry) {
    a.key == b.key && (f.dupsort ==> a.val == b.val)
  }

  lemma BeforeTransitive(f: DbiFlags, a: Entry, b: Entry, c: Entry)
    requires Before(f, a, b) && Before(f, b, c)
    ensures Before(f, a, c)
  {
    if KeyLess(f.order, a.key, b.key) && KeyLess(f.order, b.key, c.key) {
      KeyTransitive(f.order, a.key, b.key, c.key);
    } else if a.key == b.key && b.key == c.key && LexLess(a.val, b.val) && LexLess(b.val, c.val) {
      LexTransitive(a.val, b.val, c.val);
    }
  }

  lemma BeforeTotal(f: DbiFlags, a: Entry, b: Entry)
    ensures Clash(f, a, b) || Before(f, a, b) || Before(f, b, a)
  {
    KeyTotal(f.order, a.key, b.key);
    LexTotal(a.val, b.val);
  }

  lemma BeforeNoClash(f: DbiFlags, a: Entry, b: Entry)
    requires Before(f, a, b)
    ensures !Clash(f, a, b) && !Before(f, b, a) && a != b
  {
    KeyIrreflexive(f.order, a.key);
    LexIrreflexive(a.val);
    if KeyLess(f.order, a.key, b.key) { KeyAsymmetric(f.order, a.key, b.key); }
    if LexLess(a.val, b.val) { LexAsymmetric(a.val, b.val); }
  }

  predicate Sorted(f: DbiFlags, s: seq<Entry>) {
    forall i, j {:trigger Before(f, s[i], s[j])} :: 0 <= i < j < |s| ==> Before(f, s[i], s[j])
  }

  lemma SortedNoClash(f: DbiFlags, s: seq<Entry>, i: nat, j: nat)
    requires Sorted(f, s) && i < |s| && j < |s| && Clash(f, s[i], s[j])
    ensures i == j
  {
    if i < j { BeforeNoClash(f, s[i], s[j]); }
    if j < i { BeforeNoClash(f, s[j], s[i]); }
  }

  /** A plain DBI holds one entry per key. */
  lemma SoleKey(f: DbiFlags, s: seq<Entry>, i: nat)
    requires Sorted(f, s) && !f.dupsort && i < |s|
    ensures forall e :: e in s && e.key == s[i].key ==> e == s[i]
  {
    forall e | e in s && e.key == s[i].key ensures e == s[i] {
      var j :| 0 <= j < |s| && s[j] == e;
      SortedNoClash(f, s, i, j);
    }
  }

  /** Keys are non-decreasing along a sorted run. */
  lemma SortedKeys(f: DbiFlags, s: seq<Entry>, i: nat, j: nat)
    requires Sorted(f, s) && i <= j < |s|
    ensures !KeyLess(f.order, s[j].key, s[i].key)
  {
    KeyIrreflexive(f.order, s[i].key);
    if i < j {
      assert Before(f, s[i], s[j]);
      if KeyLess(f.order, s[i].key, s[j].key) { KeyAsymmetric(f.order, s[i].key, s[j].key); }
    }
  }

  // ---------------------------------------------------------------- insertion and removal

  /** How many leading entries come before `e`. */
  function Position(f: DbiFlags, s: seq<Entry>, e: Entry): (i: nat)
    ensures i <= |s|
    ensures forall j {:trigger Before(f, s[j], e)} :: 0 <= j < i ==> Before(f, s[j], e)
    ensures i < |s| ==> !Before(f, s[i], e)
  {
    PositionFrom(f, s, e, 0)
  }

  function PositionFrom(f: DbiFlags, s: seq<Entry>, e: Entry, from: nat): (i: nat)
    requires from <= |s|
    ensures from <= i <= |s|
    ensures forall j {:trigger Before(f, s[j], e)} :: from <= j < i ==> Before(f, s[j], e)
    ensures i < |s| ==> !Before(f, s[i], e)
    decreases |s| - from
  {
    if from == |s| || !Before(f, s[from], e) then from else PositionFrom(f, s, e, from + 1)
  }

  function InsertEntry(f: DbiFlags, s: seq<Entry>, e: Entry): (r: seq<Entry>)
    ensures |r| == |s| + 1
    ensures forall x :: x in r <==> x in s || x == e
  {
    var i := Position(f, s, e);
    assert s == s[..i] + s[i..];
    s[..i] + [e] + s[i..]
  }

  function RemoveAt<T>(s: seq<T>, i: nat): (r: seq<T>)
    requires i < |s|
    ensures |r| == |s| - 1
  {
    s[..i] + s[i + 1..]
  }

  lemma ConcatAssoc<T>(a: seq<T>, b: seq<T>, c: seq<T>)
    ensures (a + b) + c == a + (b + c)
  {
  }

  lemma SplitAt<T>(s: seq<T>, i: nat)
    requires i <= |s|
    ensures s == s[..i] + s[i..]
  {
  }

  lemma SplitThree<T>(s: seq<T>, lo: nat, hi: nat)
    requires lo <= hi <= |s|
    ensures s == s[..lo] + s[lo..hi] + s[hi..]
  {
  }

  lemma SliceSnoc<T>(s: seq<T>, lo: nat, hi: nat)
    requires lo <= hi < |s|
    ensures s[lo..hi + 1] == s[lo..hi] + [s[hi]]
  {
  }

  /** One step of a scan at `i`: the entry there moves to the visited ones, and
      what is still to come is the same whether it is kept or removed. */
  lemma ScanStep<T>(visited: seq<T>, s: seq<T>, i: nat)
    requires i < |s|
    ensures (visited + [s[i]]) + s[i + 1..] == visited + s[i..]
    ensures |RemoveAt(s, i)| == |s| - 1 && RemoveAt(s, i)[..i] == s[..i]
    ensures (visited + [s[i]]) + RemoveAt(s, i)[i..] == visited + s[i..]
  {
    assert s[i..] == [s[i]] + s[i + 1..];
    assert RemoveAt(s, i)[i..] == s[i + 1..];
  }

  lemma InsertSorted(f: DbiFlags, s: seq<Entry>, e: Entry)
    requires Sorted(f, s)
    requires forall x :: x in s ==> !Clash(f, x, e)
    ensures Sorted(f, InsertEntry(f, s, e))
  {
    var p := Position(f, s, e);
    forall j | p <= j < |s| ensures Before(f, e, s[j]) {
      BeforeTotal(f, s[p], e);
      assert s[p] in s;
      if p < j { BeforeTransitive(f, e, s[p], s[j]); }
    }
  }

  lemma RemoveSorted(f: DbiFlags, s: seq<Entry>, i: nat)
    requires Sorted(f, s) && i < |s|
    ensures Sorted(f, RemoveAt(s, i))
    ensures forall x :: x in RemoveAt(s, i) <==> x in s && x != s[i]
  {
    var r := RemoveAt(s, i);
    forall x | x in s && x != s[i] ensures x in r {
      var j :| 0 <= j < |s| && s[j] == x;
      assert x == if j < i then r[j] else r[j - 1];
    }
    forall k | 0 <= k < |r| ensures r[k] in s && r[k] != s[i] {
      var j := if k < i then k else k + 1;
      assert r[k] == s[j];
      if s[j] == s[i] { SortedNoClash(f, s, i, j); }
    }
  }

  lemma ReplaceSorted(f: DbiFlags, s: seq<Entry>, i: nat, v: Bytes)
    requires Sorted(f, s) && !f.dupsort && i < |s|
    ensures Sorted(f, s[i := Entry(s[i].key, v)])
    ensures forall x :: x in s[i := Entry(s[i].key, v)] <==> x == Entry(s[i].key, v) || (x in s && x.key != s[i].key)
  {
    var t := s[i := Entry(s[i].key, v)];
    forall j, k | 0 <= j < k < |t| ensures Before(f, t[j], t[k]) {
      assert Before(f, s[j], s[k]);
    }
    forall x | x in s && x.key != s[i].key ensures x in t {
      var j :| 0 <= j < |s| && s[j] == x;
      assert t[j] == x;
    }
    assert t[i] in t;
    forall k | 0 <= k < |t| && k != i ensures t[k] in s && t[k].key != s[i].key {
      if s[k].key == s[i].key { SortedNoClash(f, s, i, k); }
    }
  }

  // ---------------------------------------------------------------- seeking

  /** The first place whose key is not below `k`. */
  function LowerIndex(o: KeyOrder, s: seq<Entry>, k: Bytes): (i: nat)
    ensures i <= |s|
    ensures forall j {:trigger KeyLess(o, s[j].key, k)} :: 0 <= j < i ==> KeyLess(o, s[j].key, k)
    ensures i < |s| ==> !KeyLess(o, s[i].key, k)
  {
    LowerFrom(o, s, k, 0)
  }

  function LowerFrom(o: KeyOrder, s: seq<Entry>, k: Bytes, from: nat): (i: nat)
    requires from <= |s|
    ensures from <= i <= |s|
    ensures forall j {:trigger KeyLess(o, s[j].key, k)} :: from <= j < i ==> KeyLess(o, s[j].key, k)
    ensures i < |s| ==> !KeyLess(o, s[i].key, k)
    decreases |s| - from
  {
    if from == |s| || !KeyLess(o, s[from].key, k) then from else LowerFrom(o, s, k, from + 1)
  }

  /** The first place whose key is above `k`. */
  function UpperIndex(o: KeyOrder, s: seq<Entry>, k: Bytes): (i: nat)
    ensures i <= |s|
    ensures forall j {:trigger KeyLess(o, k, s[j].key)} :: 0 <= j < i ==> !KeyLess(o, k, s[j].key)
    ensures i < |s| ==> KeyLess(o, k, s[i].key)
  {
    UpperFrom(o, s, k, 0)
  }

  function UpperFrom(o: KeyOrder, s: seq<Entry>, k: Bytes, from: nat): (i: nat)
    requires from <= |s|
    ensures from <= i <= |s|
    ensures forall j {:trigger KeyLess(o, k, s[j].key)} :: from <= j < i ==> !KeyLess(o, k, s[j].key)
    ensures i < |s| ==> KeyLess(o, k, s[i].key)
    decreases |s| - from
  {
    if from == |s| || KeyLess(o, k, s[from].key) then from else UpperFrom(o, s, k, from + 1)
  }

  /** In a sorted run the two bounds cut it in three: below, equal, above. */
  lemma Bounds(f: DbiFlags, s: seq<Entry>, k: Bytes)
    requires Sorted(f, s)
    ensures LowerIndex(f.order, s, k) <= UpperIndex(f.order, s, k)
    ensures forall j {:trigger KeyLess(f.order, s[j].key, k)} ::
              0 <= j < |s| ==> (j < LowerIndex(f.order, s, k) <==> KeyLess(f.order, s[j].key, k))
    ensures forall j {:trigger KeyLess(f.order, k, s[j].key)} ::
              0 <= j < |s| ==> (UpperIndex(f.order, s, k) <= j <==> KeyLess(f.order, k, s[j].key))
    ensures forall j :: 0 <= j < |s| ==>
                          (LowerIndex(f.order, s, k) <= j < UpperIndex(f.order, s, k) <==> s[j].key == k)
  {
    var lo, hi := LowerIndex(f.order, s, k), UpperIndex(f.order, s, k);
    KeyIrreflexive(f.order, k);
    forall j | lo <= j < |s| ensures !KeyLess(f.order, s[j].key, k) {
      SortedKeys(f, s, lo, j);
      if KeyLess(f.order, s[j].key, k) { KeyLessNotGreater(f.order, s[j].key, k, s[lo].key); }
    }
    forall j | hi <= j < |s| ensures KeyLess(f.order, k, s[j].key) {
      SortedKeys(f, s, hi, j);
      KeyLessNotGreater(f.order, k, s[hi].key, s[j].key);
    }
    forall j | 0 <= j < |s| ensures lo <= j < hi <==> s[j].key == k {
      KeyTotal(f.order, s[j].key, k);
    }
    if hi < lo {
      KeyAsymmetric(f.order, k, s[hi].key);
      assert false;
    }
  }

  /** Outside its bounds the key does not occur. */
  lemma OutsideRun(f: DbiFlags, s: seq<Entry>, k: Bytes)
    requires Sorted(f, s)
    ensures var lo, hi := LowerIndex(f.order, s, k), UpperIndex(f.order, s, k);
            && lo <= hi <= |s|
            && (forall e :: e in s[..lo] ==> e.key != k)
            && (forall e :: e in s[lo..hi] ==> e.key == k)
            && (forall e :: e in s[hi..] ==> e.key != k)
            && (hi < |s| ==> s[hi].key != k)
  {
    Bounds(f, s, k);
  }

  lemma KeyFound(f: DbiFlags, s: seq<Entry>, k: Bytes)
    requires Sorted(f, s)
    ensures LowerIndex(f.order, s, k) < UpperIndex(f.order, s, k) <==> exists e :: e in s && e.key == k
    ensures LowerIndex(f.order, s, k) >= UpperIndex(f.order, s, k) ==> LowerIndex(f.order, s, k) == UpperIndex(f.order, s, k)
  {
    Bounds(f, s, k);
    var lo := LowerIndex(f.order, s, k);
    if lo < UpperIndex(f.order, s, k) { assert s[lo] in s; }
  }

  lemma CutSorted(f: DbiFlags, s: seq<Entry>, lo: nat, hi: nat)
    requires Sorted(f, s) && lo <= hi <= |s|
    ensures Sorted(f, s[..lo] + s[hi..])
  {
  }

  /** Taking every entry of one key out of a sorted run. */
  lemma CutKey(f: DbiFlags, s: seq<Entry>, k: Bytes)
    requires Sorted(f, s)
    ensures var lo, hi := LowerIndex(f.order, s, k), UpperIndex(f.order, s, k);
            && lo <= hi
            && Sorted(f, s[..lo] + s[hi..])
            && forall x :: x in s[..lo] + s[hi..] <==> x in s && x.key != k
  {
    hide LowerIndex, UpperIndex, Sorted;
    var lo, hi := LowerIndex(f.order, s, k), UpperIndex(f.order, s, k);
    OutsideRun(f, s, k);
    CutSorted(f, s, lo, hi);
    SplitThree(s, lo, hi);
    assert forall x :: x in s <==> x in s[..lo] || x in s[lo..hi] || x in s[hi..];
  }

  // ---------------------------------------------------------------- the cursor

  /** Where an MDBX cursor stands. Missed is what MDBX_NOTFOUND leaves: every loop
      of the tables stops there. */
  datatype Cursor = Unset | At(index: nat) | Erased(index: nat, key: Bytes) | Missed

  function Land(s: seq<Entry>, i: int): (c: Cursor) {
    if 0 <= i < |s| then At(i) else Missed
  }

  /** MDBX_NEXT; after a delete it yields the old successor. */
  function Next(s: seq<Entry>, c: Cursor): (r: Cursor)
    ensures r.At? ==> r.index < |s|
  {
    match c
    case Unset => Land(s, 0)
    case At(i) => Land(s, i + 1)
    case Erased(i, _) => Land(s, i)
    case Missed => Missed
  }

  /** MDBX_NEXT_DUP: the next entry if it has the same key. */
  function NextDup(s: seq<Entry>, c: Cursor): (r: Cursor)
    requires c.At? ==> c.index < |s|
    ensures r.At? ==> r.index < |s|
  {
    match c
    case At(i) => if i + 1 < |s| && s[i + 1].key == s[i].key then At(i + 1) else Missed
    case Erased(i, k) => if i < |s| && s[i].key == k then At(i) else Missed
    case _ => Missed
  }

  /** MDBX_NEXT_NODUP: the first entry of the next key. */
  function NextNoDup(o: KeyOrder, s: seq<Entry>, c: Cursor): Cursor
    requires c.At? && c.index < |s|
  {
    Land(s, UpperIndex(o, s, s[c.index].key))
  }

  /** MDBX_PREV. */
  function Prev(s: seq<Entry>, c: Cursor): (r: Cursor)
    ensures r.At? ==> r.index < |s|
  {
    match c
    case Unset => Land(s, |s| - 1)
    case At(i) => Land(s, i - 1)
    case Erased(i, _) => Land(s, i - 1)
    case Missed => Missed
  }

  function First(s: seq<Entry>): Cursor {
    Land(s, 0)
  }

  function Last(s: seq<Entry>): Cursor {
    Land(s, |s| - 1)
  }

  /** MDBX_LAST_DUP: the last duplicate of the key under the cursor; a lone value
      is its own last duplicate. */
  function LastDup(o: KeyOrder, s: seq<Entry>, c: Cursor): Cursor
    requires c.At? && c.index < |s|
  {
    Land(s, UpperIndex(o, s, s[c.index].key) - 1)
  }

  /** MDBX_SET_RANGE: the first entry whose key is at or above `key`. */
  function SetRange(o: KeyOrder, s: seq<Entry>, key: Bytes): Cursor {
    Land(s, LowerIndex(o, s, key))
  }

  /** MDBX_SET_KEY: the first entry of exactly `key`. */
  function SetKey(o: KeyOrder, s: seq<Entry>, key: Bytes): (r: Cursor)
    ensures r.At? ==> r.index < |s|
  {
    var i := LowerIndex(o, s, key);
    if i < |s| && s[i].key == key then At(i) else Missed
  }

  function Lookup(o: KeyOrder, s: seq<Entry>, key: Bytes): Option<Bytes> {
    var c := SetKey(o, s, key);
    if c.At? then Some(s[c.index].val) else None
  }

  /** SET_KEY finds the key exactly when it is there; the entries NEXT_DUP then
      walks are the ones between the two bounds. */
  lemma KeyRun(f: DbiFlags, s: seq<Entry>, key: Bytes)
    requires Sorted(f, s)
    ensures var lo, hi := LowerIndex(f.order, s, key), UpperIndex(f.order, s, key);
            && lo <= hi
            && SetKey(f.order, s, key) == (if lo < hi then At(lo) else Missed)
            && hi <= |s|
            && (forall j :: lo <= j < hi ==> s[j].key == key)
            && (forall j {:trigger NextDup(s, At(j))} ::
                  lo <= j < hi ==> NextDup(s, At(j)) == if j + 1 < hi then At(j + 1) else Missed)
  {
    Bounds(f, s, key);
  }

  lemma LookupFound(f: DbiFlags, s: seq<Entry>, e: Entry)
    requires Sorted(f, s) && !f.dupsort && e in s
    ensures Lookup(f.order, s, e.key) == Some(e.val)
  {
    var j :| 0 <= j < |s| && s[j] == e;
    Bounds(f, s, e.key);
    SortedNoClash(f, s, j, LowerIndex(f.order, s, e.key));
  }

  // ---------------------------------------------------------------- the DBI

  class Dbi {
    const flags: DbiFlags
    var entries: seq<Entry>

    ghost predicate Valid()
      reads this
    {
      Sorted(flags, entries)
    }

    constructor (flags: DbiFlags)
      ensures this.flags == flags && entries == [] && Valid()
    {
      this.flags := flags;
      entries := [];
    }

    /** mdbx_get: the value of a key, the first duplicate in a DUPSORT DBI. */
    function Get(key: Bytes): Option<Bytes>
      reads this
    {
      Lookup(flags.order, entries, key)
    }

    /** mdbx_put into a DUPSORT DBI: one more duplicate, unless the pair is there. */
    method PutDup(key: Bytes, val: Bytes, mode: PutMode) returns (rc: Status)
      requires Valid() && flags.dupsort && mode != NoOverwrite
      modifies this
      ensures Valid()
      ensures Entry(key, val) in old(entries) ==>
                entries == old(entries) && rc == if mode == NoDupData then KeyExist else Success
      ensures Entry(key, val) !in old(entries) ==>
                entries == InsertEntry(flags, old(entries), Entry(key, val)) && rc == Success
    {
      var e := Entry(key, val);
      if e in entries {
        rc := if mode == NoDupData then KeyExist else Success;
      } else {
        InsertSorted(flags, entries, e);
        entries := InsertEntry(flags, entries, e);
        rc := Success;
      }
    }

    /** mdbx_put into a plain DBI: one value per key. */
    method Put(key: Bytes, val: Bytes, mode: PutMode) returns (rc: Status)
      requires Valid() && !flags.dupsort && mode != NoDupData
      modifies this
      ensures Valid()
      ensures rc == Success || rc == KeyExist
      ensures rc == KeyExist <==> mode == NoOverwrite && exists e :: e in old(entries) && e.key == key
      ensures rc == KeyExist ==> entries == old(entries)
      ensures rc == Success ==>
                forall x :: x in entries <==> x == Entry(key, val) || (x in old(entries) && x.key != key)
      ensures |entries| == |old(entries)| + if exists e :: e in old(entries) && e.key == key then 0 else 1
    {
      var i := LowerIndex(flags.order, entries, key);
      Bounds(flags, entries, key);
      if i < |entries| && entries[i].key == key {
        assert entries[i] in entries;
        if mode == NoOverwrite { return KeyExist; }
        ReplaceSorted(flags, entries, i, val);
        entries := entries[i := Entry(key, val)];
      } else {
        forall e | e in entries ensures e.key != key {
          var j :| 0 <= j < |entries| && entries[j] == e;
        }
        InsertSorted(flags, entries, Entry(key, val));
        entries := InsertEntry(flags, entries, Entry(key, val));
      }
      rc := Success;
    }

    /** mdbx_del without a value: every entry of the key goes. */
    method DelKey(key: Bytes) returns (rc: Status)
      requires Valid()
      modifies this
      ensures Valid()
      ensures rc == if exists e :: e in old(entries) && e.key == key then Success else NotFound
      ensures rc == NotFound ==> entries == old(entries)
      ensures var lo := LowerIndex(flags.order, old(entries), key);
              var hi := UpperIndex(flags.order, old(entries), key);
              lo <= hi && entries == old(entries)[..lo] + old(entries)[hi..]
      ensures forall x :: x in entries <==> x in old(entries) && x.key != key
    {
      var lo, hi := LowerIndex(flags.order, entries, key), UpperIndex(flags.order, entries, key);
      CutKey(flags, entries, key);
      KeyFound(flags, entries, key);
      rc := if lo < hi then Success else NotFound;
      entries := entries[..lo] + entries[hi..];
    }

    /** mdbx_del with a value: exactly that pair goes. */
    method DelPair(key: Bytes, val: Bytes) returns (rc: Status)
      requires Valid()
      modifies this
      ensures Valid()
      ensures rc == if Entry(key, val) in old(entries) then Success else NotFound
      ensures rc == NotFound ==> entries == old(entries)
      ensures forall x :: x in entries <==> x in old(entries) && x != Entry(key, val)
    {
      if Entry(key, val) !in entries { return NotFound; }
      var i :| 0 <= i < |entries| && entries[i] == Entry(key, val);
      RemoveSorted(flags, entries, i);
      entries := RemoveAt(entries, i);
      rc := Success;
    }

    /** mdbx_drop(del = 0). */
    method Drop()
      modifies this
      ensures entries == [] && Valid()
    {
      entries := [];
    }

    /** mdbx_cursor_del(MDBX_CURRENT): the cursor then stands between the
        neighbours of the removed entry and still knows the key it was on. */
    method CursorDel(c: Cursor) returns (c': Cursor)
      requires Valid() && c.At? && c.index < |entries|
      modifies this
      ensures Valid()
      ensures entries == RemoveAt(old(entries), c.index)
      ensures forall x :: x in entries <==> x in old(entries) && x != old(entries)[c.index]
      ensures c' == Erased(c.index, old(entries)[c.index].key)
    {
      RemoveSorted(flags, entries, c.index);
      c' := Erased(c.index, entries[c.index].key);
      entries := RemoveAt(entries, c.index);
    }
  }
}
