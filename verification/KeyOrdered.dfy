/** KeyOrderedMultiValueTable: one DUPSORT DBI refining a map from key to the
    sequence of values appended under it. */
module KeyOrdered {
  import opened ByteStrings
  import opened OrderedStore
  import opened RangeScan
  import opened Prefixed
  import opened PairLog
  import DupScan

  /** A key is in the map exactly when it has values. */
  type View = map<Bytes, seq<Bytes>>

  function Values(m: View, k: Bytes): seq<Bytes> {
    if k in m then m[k] else []
  }

  function With(m: View, k: Bytes, values: seq<Bytes>): View {
    if values == [] then m - {k} else m[k := values]
  }

  /** The sequence without one value. */
  function DropValue(values: seq<Bytes>, v: Bytes): seq<Bytes> {
    if values == [] then []
    else
      var t := DropValue(values[..|values| - 1], v);
      if values[|values| - 1] == v then t else t + [values[|values| - 1]]
  }

  /** A batch appended pair by pair. */
  function Appended(m: View, pairs: seq<Pair>): View {
    if pairs == [] then m
    else
      var t, p := Appended(m, pairs[..|pairs| - 1]), pairs[|pairs| - 1];
      With(t, p.0, Values(t, p.0) + [p.1])
  }

  /** The values a list of pairs has for one key, in list order. */
  function ValuesOf(pairs: seq<Pair>, k: Bytes): seq<Bytes> {
    if pairs == [] then []
    else
      var t, p := ValuesOf(pairs[..|pairs| - 1], k), pairs[|pairs| - 1];
      if p.0 == k then t + [p.1] else t
  }

  /** A batch extends every key by its own values in batch order. */
  /** A view, key by key: no key has an empty sequence. */
  lemma ViewMeans(m: View, k: Bytes, values: seq<Bytes>, x: Bytes)
    ensures Values(m, x) == if x in m then m[x] else []
    ensures Values(With(m, k, values), x) == if x == k then values else if x in m then m[x] else []
    ensures x in With(m, k, values) <==> if x == k then values != [] else x in m
  {
  }

  /** The values a list of pairs gives a key, and what dropping a value leaves, in order. */
  lemma ListMeans(pairs: seq<Pair>, p: Pair, k: Bytes)
    ensures ValuesOf([], k) == [] && ValuesOf(pairs + [p], k) == ValuesOf(pairs, k) + if p.0 == k then [p.1] else []
    ensures DropValue([], k) == []
  {
    assert (pairs + [p])[..|pairs|] == pairs;
  }

  /** A range has its keys in order and every key's whole sequence. */
  lemma RangeMeans(o: KeyOrder, m: View, from: Bytes, to: Bytes, pairs: seq<Pair>)
    requires IsRange(o, m, from, to, pairs)
    ensures forall i, j :: 0 <= i < j < |pairs| ==> !o(pairs[j].0, pairs[i].0)
    ensures forall k {:trigger ValuesOf(pairs, k)} ::
              ValuesOf(pairs, k) == if k in m && !o(k, from) && !o(to, k) then m[k] else []
  {
  }

  lemma {:induction false} AppendedValues(m: View, pairs: seq<Pair>, k: Bytes)
    ensures Values(Appended(m, pairs), k) == Values(m, k) + ValuesOf(pairs, k)
  {
    if pairs != [] { AppendedValues(m, pairs[..|pairs| - 1], k); }
  }

  lemma AppendedSnoc(m: View, pairs: seq<Pair>, n: nat)
    requires n < |pairs|
    ensures var t := Appended(m, pairs[..n]);
            Appended(m, pairs[..n + 1]) == With(t, pairs[n].0, Values(t, pairs[n].0) + [pairs[n].1])
  {
    assert pairs[..n + 1][..n] == pairs[..n];
  }

  /** The list holds the keys of the range in order, each with its whole sequence. */
  ghost predicate IsRange(o: KeyOrder, m: View, from: Bytes, to: Bytes, pairs: seq<Pair>) {
    && InKeyOrder(o, pairs)
    && (forall k {:trigger ValuesOf(pairs, k)} ::
          ValuesOf(pairs, k) == if InRange(o, from, to, k) then Values(m, k) else [])
  }

  ghost predicate InKeyOrder(o: KeyOrder, pairs: seq<Pair>) {
    forall i, j {:trigger pairs[i], pairs[j]} :: 0 <= i < j < |pairs| ==> !KeyLess(o, pairs[j].0, pairs[i].0)
  }

  /** Only one list does. */
  lemma RangeUnique(o: KeyOrder, m: View, from: Bytes, to: Bytes, a: seq<Pair>, b: seq<Pair>)
    requires IsRange(o, m, from, to, a) && IsRange(o, m, from, to, b)
    ensures a == b
  {
    forall k ensures ValuesOf(a, k) == ValuesOf(b, k) {
    }
    SameValues(o, a, b);
  }

  lemma {:induction false} SameValues(o: KeyOrder, a: seq<Pair>, b: seq<Pair>)
    requires InKeyOrder(o, a) && InKeyOrder(o, b)
    requires forall k {:trigger ValuesOf(a, k)} :: ValuesOf(a, k) == ValuesOf(b, k)
    ensures a == b
  {
    assert a != [] ==> ValuesOf(a, a[|a| - 1].0) != [];
    assert b != [] ==> ValuesOf(a, b[|b| - 1].0) != [];
    if a != [] {
      var p, q := a[|a| - 1], b[|b| - 1];
      LastKey(o, a, q.0);
      LastKey(o, b, p.0);
      KeyTotal(o, p.0, q.0);
      var a', b' := a[..|a| - 1], b[..|b| - 1];
      forall k ensures ValuesOf(a', k) == ValuesOf(b', k) {
        assert ValuesOf(a, k) == ValuesOf(b, k);
        assert p.0 == k ==> ValuesOf(a, k)[|ValuesOf(a, k)| - 1] == p.1 && ValuesOf(b, k)[|ValuesOf(b, k)| - 1] == q.1;
        assert p.0 == k ==> ValuesOf(a', k) == ValuesOf(a, k)[..|ValuesOf(a, k)| - 1];
        assert q.0 == k ==> ValuesOf(b', k) == ValuesOf(b, k)[..|ValuesOf(b, k)| - 1];
      }
      assert ValuesOf(a, p.0)[|ValuesOf(a, p.0)| - 1] == p.1 && ValuesOf(b, p.0)[|ValuesOf(b, p.0)| - 1] == q.1;
      SameValues(o, a', b');
      assert a == a' + [p] && b == b' + [q];
    }
  }

  /** No key of an ordered list is above its last one. */
  lemma LastKey(o: KeyOrder, pairs: seq<Pair>, k: Bytes)
    requires InKeyOrder(o, pairs) && ValuesOf(pairs, k) != []
    ensures pairs != [] && !KeyLess(o, pairs[|pairs| - 1].0, k)
  {
    var i := Occurs(pairs, k);
    KeyIrreflexive(o, k);
    if i < |pairs| - 1 { assert !KeyLess(o, pairs[|pairs| - 1].0, pairs[i].0); }
  }

  lemma {:induction false} Occurs(pairs: seq<Pair>, k: Bytes) returns (i: nat)
    requires ValuesOf(pairs, k) != []
    ensures i < |pairs| && pairs[i].0 == k
  {
    if pairs[|pairs| - 1].0 == k {
      i := |pairs| - 1;
    } else {
      i := Occurs(pairs[..|pairs| - 1], k);
    }
  }

  // ---------------------------------------------------------------- entries against the view

  ghost function ShownValues(s: seq<Entry>, k: Bytes): seq<Bytes> {
    RawValues(KeyEntries(s, k))
  }

  /** Each key shows the values the map has for it. */
  ghost predicate Shows(s: seq<Entry>, m: View) {
    && (forall k {:trigger ShownValues(s, k)} :: ShownValues(s, k) == Values(m, k))
    && (forall k :: k in m ==> m[k] != [])
  }

  lemma ShowsUpdate(s: seq<Entry>, s': seq<Entry>, m: View, key: Bytes, values: seq<Bytes>)
    requires Shows(s, m) && ShownValues(s', key) == values
    requires forall k {:trigger ShownValues(s', k)} :: k != key ==> ShownValues(s', k) == ShownValues(s, k)
    ensures Shows(s', With(m, key, values))
  {
    hide ShownValues;
    var m' := With(m, key, values);
    forall k ensures ShownValues(s', k) == Values(m', k) {
      assert ShownValues(s, k) == Values(m, k);
    }
  }

  /** Putting an entry at the end of its key's run. */
  lemma ShowsAppend(f: DbiFlags, s: seq<Entry>, m: View, e: Entry)
    requires Sorted(f, s) && Shows(s, m)
    ensures var u := UpperIndex(f.order, s, e.key);
            Shows(s[..u] + [e] + s[u..], With(m, e.key, Values(m, e.key) + [Raw(e)]))
  {
    var u := UpperIndex(f.order, s, e.key);
    var s' := s[..u] + [e] + s[u..];
    forall k ensures k != e.key ==> ShownValues(s', k) == ShownValues(s, k) {
      KeyEntriesInsert(f, s, e, k);
    }
    KeyEntriesInsert(f, s, e, e.key);
    assert ShownValues(s', e.key) == ShownValues(s, e.key) + [Raw(e)];
    ShowsUpdate(s, s', m, e.key, Values(m, e.key) + [Raw(e)]);
  }

  /** Cutting a key's whole run. */
  lemma ShowsCut(f: DbiFlags, s: seq<Entry>, m: View, key: Bytes)
    requires Sorted(f, s) && Shows(s, m)
    ensures var lo, hi := LowerIndex(f.order, s, key), UpperIndex(f.order, s, key);
            lo <= hi <= |s| && Shows(s[..lo] + s[hi..], m - {key})
  {
    hide KeyEntries, KeyLess, LowerIndex, UpperIndex;
    var lo, hi := LowerIndex(f.order, s, key), UpperIndex(f.order, s, key);
    OutsideRun(f, s, key);
    SplitThree(s, lo, hi);
    var s' := s[..lo] + s[hi..];
    forall k ensures KeyEntries(s', k) == if k == key then [] else KeyEntries(s, k) {
      KeyEntriesConcat(s[..lo], s[hi..], k);
      KeyEntriesConcat(s[..lo] + s[lo..hi], s[hi..], k);
      KeyEntriesConcat(s[..lo], s[lo..hi], k);
      if k == key {
        KeyEntriesAbsent(s[..lo], k);
        KeyEntriesAbsent(s[hi..], k);
      } else {
        KeyEntriesAbsent(s[lo..hi], k);
      }
    }
    ShowsUpdate(s, s', m, key, []);
  }

  /** Erasing one value filters the key and touches no other. */
  lemma {:induction false} KeyEntriesWithout(s: seq<Entry>, p: Pair, k: Bytes)
    ensures RawValues(KeyEntries(Without(s, p), k)) ==
            if k == p.0 then DropValue(RawValues(KeyEntries(s, k)), p.1) else RawValues(KeyEntries(s, k))
  {
    if s != [] {
      hide DropValue, RawValues, PairOf;
      var n := |s| - 1;
      var e, t := s[n], Without(s[..n], p);
      KeyEntriesWithout(s[..n], p, k);
      OneEntry(e);
      KeyEntriesConcat(t, [e], k);
      RawSnoc(KeyEntries(s[..n], k), e);
      RawSnoc(KeyEntries(t, k), e);
      DropSnoc(RawValues(KeyEntries(s[..n], k)), Raw(e), p.1);
      assert (PairOf(e) == p) == (e.key == p.0 && Raw(e) == p.1) by { PairParts(e); }
    }
  }

  lemma RawSnoc(s: seq<Entry>, e: Entry)
    ensures RawValues(s + [e]) == RawValues(s) + [Raw(e)]
  {
  }

  lemma DropSnoc(values: seq<Bytes>, x: Bytes, v: Bytes)
    ensures DropValue(values + [x], v) == DropValue(values, v) + if x == v then [] else [x]
  {
    assert (values + [x])[..|values|] == values;
  }

  lemma ShowsWithout(s: seq<Entry>, m: View, p: Pair)
    requires Shows(s, m)
    ensures Shows(Without(s, p), With(m, p.0, DropValue(Values(m, p.0), p.1)))
  {
    forall k ensures k != p.0 ==> ShownValues(Without(s, p), k) == ShownValues(s, k) {
      KeyEntriesWithout(s, p, k);
    }
    KeyEntriesWithout(s, p, p.0);
    assert ShownValues(s, p.0) == Values(m, p.0);
    ShowsUpdate(s, Without(s, p), m, p.0, DropValue(Values(m, p.0), p.1));
  }

  /** Removing the entry at one place of a key's run drops that index. */
  lemma ShowsRemoveAt(f: DbiFlags, s: seq<Entry>, m: View, key: Bytes, index: nat)
    requires Sorted(f, s) && Shows(s, m)
    requires LowerIndex(f.order, s, key) + index < UpperIndex(f.order, s, key)
    ensures index < |Values(m, key)|
    ensures Shows(RemoveAt(s, LowerIndex(f.order, s, key) + index), With(m, key, RemoveAt(Values(m, key), index)))
  {
    hide ShownValues, KeyLess, LowerIndex, UpperIndex, Sorted, RemoveAt;
    var i := LowerIndex(f.order, s, key) + index;
    RemoveShown(f, s, key, index);
    assert ShownValues(s, key) == Values(m, key);
    forall k ensures k != key ==> ShownValues(RemoveAt(s, i), k) == ShownValues(s, k) {
      if k != key { RemoveElsewhere(f, s, key, index, k); }
    }
    ShowsUpdate(s, RemoveAt(s, i), m, key, RemoveAt(Values(m, key), index));
  }

  lemma RemoveShown(f: DbiFlags, s: seq<Entry>, key: Bytes, index: nat)
    requires Sorted(f, s) && LowerIndex(f.order, s, key) + index < UpperIndex(f.order, s, key) <= |s|
    ensures index < |ShownValues(s, key)|
    ensures ShownValues(RemoveAt(s, LowerIndex(f.order, s, key) + index), key) == RemoveAt(ShownValues(s, key), index)
  {
    hide KeyEntries, KeyLess, LowerIndex, UpperIndex, Sorted, RemoveAt;
    var lo, hi := LowerIndex(f.order, s, key), UpperIndex(f.order, s, key);
    OutsideRun(f, s, key);
    KeyEntriesSlice(f, s, key);
    RemoveInRun(s, key, lo, hi, lo + index);
    RemoveRaw(s, lo, hi, index);
  }

  lemma RemoveRaw(s: seq<Entry>, lo: nat, hi: nat, index: nat)
    requires lo + index < hi <= |s|
    ensures RawValues(s[lo..lo + index] + s[lo + index + 1..hi]) == RemoveAt(RawValues(s[lo..hi]), index)
  {
  }

  /** Removing an entry of one key leaves the entries of another as they are. */
  lemma RemoveElsewhere(f: DbiFlags, s: seq<Entry>, key: Bytes, index: nat, k: Bytes)
    requires Sorted(f, s) && LowerIndex(f.order, s, key) + index < UpperIndex(f.order, s, key) <= |s| && k != key
    ensures ShownValues(RemoveAt(s, LowerIndex(f.order, s, key) + index), k) == ShownValues(s, k)
  {
    hide KeyEntries, KeyLess, LowerIndex, UpperIndex, Sorted;
    var lo, hi := LowerIndex(f.order, s, key), UpperIndex(f.order, s, key);
    var i := lo + index;
    OutsideRun(f, s, key);
    assert s[lo..hi][index] == s[i];
    SkipEntry(s[..i], s[i], s[i + 1..], k);
    assert s == s[..i] + [s[i]] + s[i + 1..];
  }

  lemma SkipEntry(a: seq<Entry>, e: Entry, b: seq<Entry>, k: Bytes)
    requires e.key != k
    ensures KeyEntries(a + [e] + b, k) == KeyEntries(a + b, k)
  {
    hide KeyEntries;
    OneEntry(e);
    KeyEntriesConcat(a, b, k);
    KeyEntriesConcat(a + [e], b, k);
    KeyEntriesConcat(a, [e], k);
  }

  lemma RemoveInRun(s: seq<Entry>, key: Bytes, lo: nat, hi: nat, i: nat)
    requires lo <= i < hi <= |s|
    requires forall e :: e in s[..lo] ==> e.key != key
    requires forall e :: e in s[lo..hi] ==> e.key == key
    requires forall e :: e in s[hi..] ==> e.key != key
    ensures KeyEntries(RemoveAt(s, i), key) == s[lo..i] + s[i + 1..hi]
  {
    hide KeyEntries;
    var a, b, c, d := s[..lo], s[lo..i], s[i + 1..hi], s[hi..];
    assert RemoveAt(s, i) == (a + b) + (c + d);
    KeyEntriesConcat(a + b, c + d, key);
    KeyEntriesConcat(a, b, key);
    KeyEntriesConcat(c, d, key);
    assert forall e :: e in b ==> e in s[lo..hi];
    assert forall e :: e in c ==> e in s[lo..hi];
    KeyEntriesAbsent(a, key);
    KeyEntriesPresent(b, key);
    KeyEntriesPresent(c, key);
    KeyEntriesAbsent(d, key);
  }

  // ---------------------------------------------------------------- the table

  datatype AppendResult = Ok | OrderExhausted | TooLarge

  class KeyOrderedMultiValueTable {
    const dbi: Dbi
    /** Config::max_dupsort_value_size; no limit when not positive. */
    const limit: int
    /** A logical capture is bound to the DBI; it admits appends only. */
    const captured: bool
    ghost var view: View

    ghost predicate Valid()
      reads this, dbi
    {
      dbi.flags.dupsort && dbi.Valid() && WellFormed(dbi.entries) && Shows(dbi.entries, view)
    }

    constructor (order: KeyOrder, limit: int, captured: bool)
      ensures Valid() && fresh(dbi) && dbi.flags.order == order && view == map[]
      ensures this.limit == limit && this.captured == captured
    {
      dbi := new Dbi(DbiFlags(order, true));
      this.limit := limit;
      this.captured := captured;
      view := map[];
    }

    method Find(key: Bytes) returns (values: seq<Bytes>)
      requires Valid()
      ensures values == Values(view, key)
    {
      values := DupScan.FindValues(dbi, key);
      assert ShownValues(dbi.entries, key) == Values(view, key);
    }

    /** An append of the pair would be refused: the key holds the largest order number, or
        the stored value would pass the size limit. */
    ghost predicate Refuses(key: Bytes, value: Bytes)
      reads this, dbi
    {
      Refused(limit, dbi.entries, (key, value))
    }

    /** db_append_one. */
    method Append(key: Bytes, value: Bytes) returns (r: AppendResult)
      requires Valid()
      modifies this`view, dbi
      ensures Valid()
      ensures r.OrderExhausted? <==>
                exists e :: e in old(dbi.entries) && e.key == key && PrefixOf(e) == MAX_UINT64
      ensures r.TooLarge? <==> !r.OrderExhausted? && limit > 0 && 8 + |value| > limit
      ensures r.Ok? <==> !old(Refuses(key, value))
      ensures Used(dbi.entries) <= Used(old(dbi.entries)) + 1
      ensures !r.Ok? ==> view == old(view) && dbi.entries == old(dbi.entries)
      ensures r.Ok? ==> view == With(old(view), key, Values(old(view), key) + [value])
    {
      hide Shows, Used, UpperIndex, Sorted, KeyLess;
      var order := NextPrefix(dbi.flags, dbi.entries, key);
      if order.None? { return OrderExhausted; }
      var stored := MakeStored(order.value, value);
      if limit > 0 && |stored| > limit { return TooLarge; }
      AppendPosition(dbi.flags, dbi.entries, key, order.value, value);
      StoredParts(key, order.value, value);
      ShowsAppend(dbi.flags, dbi.entries, view, Entry(key, stored));
      OutsideRun(dbi.flags, dbi.entries, key);
      UsedInsert(dbi.entries, UpperIndex(dbi.flags.order, dbi.entries, key), Entry(key, stored));
      var rc := dbi.PutDup(key, stored, Upsert);
      view := With(view, key, Values(view, key) + [value]);
      r := Ok;
    }

    /** db_append: in vector order; a refused pair stops the batch there. */
    method AppendAll(pairs: seq<Pair>) returns (r: AppendResult, n: nat)
      requires Valid()
      modifies this`view, dbi
      ensures Valid()
      ensures n <= |pairs| && (r.Ok? <==> n == |pairs|) && view == Appended(old(view), pairs[..n])
      ensures n < |pairs| ==> Refuses(pairs[n].0, pairs[n].1)
      ensures Used(dbi.entries) <= Used(old(dbi.entries)) + n
    {
      hide Shows, WellFormed, PrefixOf, Used, Refused;
      n := 0;
      assert pairs[..0] == [];
      while n < |pairs|
        invariant Valid()
        invariant n <= |pairs| && view == Appended(old(view), pairs[..n])
        invariant Used(dbi.entries) <= Used(old(dbi.entries)) + n
      {
        r := Append(pairs[n].0, pairs[n].1);
        if !r.Ok? { return; }
        AppendedSnoc(old(view), pairs, n);
        n := n + 1;
      }
      r := Ok;
    }

    /** erase(key). */
    method EraseKey(key: Bytes) returns (removed: Option<bool>)
      requires Valid()
      modifies this`view, dbi
      ensures Valid()
      ensures removed == if captured then None else Some(key in old(view))
      ensures view == if captured then old(view) else old(view) - {key}
      ensures Used(dbi.entries) <= Used(old(dbi.entries))
    {
      if captured { return None; }
      hide KeyLess, KeyEntries, Used;
      PresentShows(dbi.flags, dbi.entries, view, key);
      ShowsCut(dbi.flags, dbi.entries, view, key);
      var rc := dbi.DelKey(key);
      WellFormedSub(old(dbi.entries), dbi.entries);
      UsedSub(old(dbi.entries), dbi.entries);
      view := view - {key};
      removed := Some(rc == Success);
    }

    static lemma PresentShows(f: DbiFlags, s: seq<Entry>, m: View, key: Bytes)
      requires Sorted(f, s) && Shows(s, m)
      ensures key in m <==> exists e :: e in s && e.key == key
    {
      assert ShownValues(s, key) == Values(m, key);
      KeyEntriesSlice(f, s, key);
      KeyFound(f, s, key);
    }

    /** erase(key, value): every equal value of the key. */
    method ErasePair(key: Bytes, value: Bytes) returns (removed: Option<nat>)
      requires Valid()
      modifies this`view, dbi
      ensures Valid()
      ensures removed.None? <==> captured
      ensures captured ==> view == old(view)
      ensures !captured ==> view == With(old(view), key, DropValue(Values(old(view), key), value))
      ensures !captured ==> removed.value == |Values(old(view), key)| - |Values(view, key)|
      ensures Used(dbi.entries) <= Used(old(dbi.entries))
    {
      if captured { return None; }
      hide KeyLess, KeyEntries, Used;
      ghost var s, p := dbi.entries, (key, value);
      ShowsWithout(s, view, p);
      WithoutPairs(s, p);
      var count := DupScan.ErasePair(dbi, key, value);
      WellFormedSub(s, dbi.entries);
      UsedSub(s, dbi.entries);
      RemovedCount(dbi.flags, s, p, view);
      view := With(view, key, DropValue(Values(view, key), value));
      removed := Some(count);
    }

    static lemma RemovedCount(f: DbiFlags, s: seq<Entry>, p: Pair, m: View)
      requires Sorted(f, s) && Shows(s, m)
      ensures PairSet(s)[p] == |Values(m, p.0)| - |DropValue(Values(m, p.0), p.1)|
    {
      assert ShownValues(s, p.0) == Values(m, p.0);
      CopiesInKey(s, p);
    }

    /** The copies of a pair are all among its key's values. */
    static lemma {:induction false} CopiesInKey(s: seq<Entry>, p: Pair)
      ensures PairSet(s)[p] == |ShownValues(s, p.0)| - |DropValue(ShownValues(s, p.0), p.1)|
    {
      if s != [] {
        var n := |s| - 1;
        CopiesInKey(s[..n], p);
        assert s[..n + 1] == s;
        PairSetSnoc(s, n);
        var vs := ShownValues(s[..n], p.0);
        assert s[n].key == p.0 ==> ShownValues(s, p.0) == vs + [Raw(s[n])];
        assert (vs + [Raw(s[n])])[..|vs|] == vs;
      }
    }

    static lemma RunLength(f: DbiFlags, s: seq<Entry>, m: View, key: Bytes)
      requires Sorted(f, s) && Shows(s, m)
      ensures |Values(m, key)| == UpperIndex(f.order, s, key) - LowerIndex(f.order, s, key)
    {
      KeyEntriesSlice(f, s, key);
      assert ShownValues(s, key) == Values(m, key);
    }

    /** erase_at: the value at one append-order index. */
    method EraseAt(key: Bytes, index: nat) returns (removed: Option<bool>)
      requires Valid()
      modifies this`view, dbi
      ensures Valid()
      ensures removed == if captured then None else Some(index < |Values(old(view), key)|)
      ensures captured || index >= |Values(old(view), key)| ==> view == old(view)
      ensures !captured && index < |Values(old(view), key)| ==>
                view == With(old(view), key, RemoveAt(Values(old(view), key), index))
      ensures Used(dbi.entries) <= Used(old(dbi.entries))
    {
      if captured { return None; }
      var cursor := DupAt(key, index);
      RunLength(dbi.flags, dbi.entries, view, key);
      if !cursor.At? { return Some(false); }
      DropAt(cursor, key, index);
      removed := Some(true);
    }

    /** The counting loop of db_erase_at. */
    method DupAt(key: Bytes, index: nat) returns (cursor: Cursor)
      requires dbi.Valid()
      ensures var lo, hi := LowerIndex(dbi.flags.order, dbi.entries, key), UpperIndex(dbi.flags.order, dbi.entries, key);
              cursor == if lo + index < hi then At(lo + index) else Missed
    {
      hide KeyLess, LowerIndex, UpperIndex, SetKey, NextDup;
      ghost var lo := LowerIndex(dbi.flags.order, dbi.entries, key);
      ghost var hi := UpperIndex(dbi.flags.order, dbi.entries, key);
      KeyRun(dbi.flags, dbi.entries, key);
      cursor := SetKey(dbi.flags.order, dbi.entries, key);
      var current := 0;
      while cursor.At?
        invariant 0 <= current <= index && lo + current <= hi
        invariant cursor == if lo + current < hi then At(lo + current) else Missed
        decreases hi - lo - current
      {
        if current == index { return; }
        cursor := NextDup(dbi.entries, cursor);
        current := current + 1;
      }
    }

    method DropAt(cursor: Cursor, ghost key: Bytes, ghost index: nat)
      requires Valid()
      requires var lo := LowerIndex(dbi.flags.order, dbi.entries, key);
               lo + index < UpperIndex(dbi.flags.order, dbi.entries, key) && cursor == At(lo + index)
      modifies this`view, dbi
      ensures Valid()
      ensures index < |Values(old(view), key)| && view == With(old(view), key, RemoveAt(Values(old(view), key), index))
      ensures Used(dbi.entries) <= Used(old(dbi.entries))
    {
      hide Shows, RemoveAt, Used;
      ShowsRemoveAt(dbi.flags, dbi.entries, view, key, index);
      var after := dbi.CursorDel(cursor);
      WellFormedSub(old(dbi.entries), dbi.entries);
      UsedSub(old(dbi.entries), dbi.entries);
      view := With(view, key, RemoveAt(Values(view, key), index));
    }

    method Clear() returns (ok: bool)
      requires Valid()
      modifies this`view, dbi
      ensures Valid()
      ensures ok == !captured && view == if captured then old(view) else map[]
      ensures dbi.entries == if captured then old(dbi.entries) else []
    {
      if captured { return false; }
      dbi.Drop();
      view := map[];
      ok := true;
    }

    /** replace_with: clear, then append the source. */
    method ReplaceWith(pairs: seq<Pair>) returns (r: Option<AppendResult>, n: nat)
      requires Valid()
      modifies this`view, dbi
      ensures Valid()
      ensures r.None? <==> captured
      ensures captured ==> view == old(view) && n == 0
      ensures r.Some? ==> n <= |pairs| && (r.value.Ok? <==> n == |pairs|) && view == Appended(map[], pairs[..n])
      ensures r.Some? && n < |pairs| ==> Refuses(pairs[n].0, pairs[n].1)
      ensures Used(dbi.entries) <= Used(old(dbi.entries)) + n
    {
      n := 0;
      if captured { return None, 0; }
      var ok := Clear();
      var result;
      result, n := AppendAll(pairs);
      r := Some(result);
    }

    /** range_vector: the pairs in key order, each key's values in append order. */
    method Range(from: Bytes, to: Bytes) returns (pairs: seq<Pair>)
      requires Valid()
      ensures IsRange(dbi.flags.order, view, from, to, pairs)
    {
      var entries := Forward(dbi.flags, dbi.entries, from, to);
      pairs := Pairs(entries);
      RangeShown(dbi.flags, dbi.entries, view, from, to);
    }
  }

  lemma RangeShown(f: DbiFlags, s: seq<Entry>, m: View, from: Bytes, to: Bytes)
    requires Sorted(f, s) && Shows(s, m)
    ensures IsRange(f.order, m, from, to, Pairs(FilterRange(f.order, s, from, to)))
  {
    hide FilterRange, RangeStart, RangeEnd, InRange, KeyLess, KeyEntries, ValuesOf;
    var o, entries := f.order, FilterRange(f.order, s, from, to);
    RangeKeys(f, s, from, to);
    forall k ensures ValuesOf(Pairs(entries), k) == if InRange(o, from, to, k) then Values(m, k) else [] {
      ShownByPairs(entries, k);
      FilterKeyEntries(o, s, from, to, k);
      assert ShownValues(s, k) == Values(m, k);
    }
  }

  lemma RangeKeys(f: DbiFlags, s: seq<Entry>, from: Bytes, to: Bytes)
    requires Sorted(f, s)
    ensures InKeyOrder(f.order, Pairs(FilterRange(f.order, s, from, to)))
  {
    hide FilterRange, RangeStart, RangeEnd, KeyLess, Sorted;
    RangeExact(f, s, from, to);
    RangeSize(f, s, from, to);
    var pairs := Pairs(RangeEntries(f, s, from, to));
    var lo := RangeStart(f.order, s, from);
    forall i, j | 0 <= i < j < |pairs| ensures !KeyLess(f.order, pairs[j].0, pairs[i].0) {
      SortedKeys(f, s, lo + i, lo + j);
    }
  }

  lemma {:induction false} ShownByPairs(s: seq<Entry>, k: Bytes)
    ensures ValuesOf(Pairs(s), k) == RawValues(KeyEntries(s, k))
  {
    if s != [] {
      var n := |s| - 1;
      ShownByPairs(s[..n], k);
      assert Pairs(s)[..n] == Pairs(s[..n]);
    }
  }

  lemma {:induction false} FilterKeyEntries(o: KeyOrder, s: seq<Entry>, from: Bytes, to: Bytes, k: Bytes)
    ensures KeyEntries(FilterRange(o, s, from, to), k) == if InRange(o, from, to, k) then KeyEntries(s, k) else []
  {
    if s != [] {
      var n := |s| - 1;
      FilterKeyEntries(o, s[..n], from, to, k);
      var t := FilterRange(o, s[..n], from, to);
      KeyEntriesConcat(t, [s[n]], k);
      OneEntry(s[n]);
    }
  }
}
