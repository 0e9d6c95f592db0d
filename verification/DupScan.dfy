/** The NEXT_DUP loops over one key's duplicates that KeyMultiValueTable and
    KeyOrderedMultiValueTable share. */
module DupScan {
  import opened ByteStrings
  import opened OrderedStore
  import opened Prefixed
  import opened PairLog

  /** db_find: the key's values in the order they were inserted. */
  method FindValues(dbi: Dbi, key: Bytes) returns (values: seq<Bytes>)
    requires dbi.Valid()
    ensures values == RawValues(KeyEntries(dbi.entries, key))
  {
    hide KeyEntries, KeyLess;
    ghost var s := dbi.entries;
    ghost var lo, hi := LowerIndex(dbi.flags.order, s, key), UpperIndex(dbi.flags.order, s, key);
    KeyRun(dbi.flags, s, key);
    KeyEntriesSlice(dbi.flags, s, key);
    values := [];
    var cursor := SetKey(dbi.flags.order, dbi.entries, key);
    while cursor.At?
      invariant lo + |values| <= hi
      invariant cursor == if lo + |values| < hi then At(lo + |values|) else Missed
      invariant forall i :: 0 <= i < |values| ==> values[i] == Raw(s[lo + i])
      decreases hi - |values|
    {
      values := values + [Raw(dbi.entries[cursor.index])];
      cursor := NextDup(dbi.entries, cursor);
    }
  }

  /** db_count_pair. */
  method CountPair(dbi: Dbi, key: Bytes, value: Bytes) returns (found: nat)
    requires dbi.Valid()
    ensures found == PairSet(dbi.entries)[(key, value)]
  {
    hide PairSet, KeyLess, LowerIndex, UpperIndex;
    ghost var s, p := dbi.entries, (key, value);
    ghost var lo, hi := LowerIndex(dbi.flags.order, s, key), UpperIndex(dbi.flags.order, s, key);
    KeyRun(dbi.flags, s, key);
    CountOutside(dbi.flags, s, p);
    found := 0;
    var cursor := SetKey(dbi.flags.order, dbi.entries, key);
    ghost var i := lo;
    while cursor.At?
      invariant lo <= i <= hi
      invariant cursor == if i < hi then At(i) else Missed
      invariant found == PairSet(s[..i])[p]
      decreases hi - i
    {
      PairSetSnoc(s, i);
      if Raw(dbi.entries[cursor.index]) == value { found := found + 1; }
      cursor := NextDup(dbi.entries, cursor);
      i := i + 1;
    }
  }

  /** Only the key's own run can hold copies of the pair. */
  lemma CountOutside(f: DbiFlags, s: seq<Entry>, p: Pair)
    requires Sorted(f, s)
    ensures PairSet(s[..LowerIndex(f.order, s, p.0)])[p] == 0
    ensures PairSet(s[..UpperIndex(f.order, s, p.0)])[p] == PairSet(s)[p]
  {
    var lo, hi := LowerIndex(f.order, s, p.0), UpperIndex(f.order, s, p.0);
    OutsideRun(f, s, p.0);
    assert p !in Pairs(s[..lo]);
    assert p !in Pairs(s[hi..]);
    SplitAt(s, hi);
    PairSetConcat(s[..hi], s[hi..]);
  }

  /** The loop of db_erase_pair. */
  method ErasePair(dbi: Dbi, key: Bytes, value: Bytes) returns (removed: nat)
    requires dbi.Valid()
    modifies dbi
    ensures dbi.Valid()
    ensures dbi.entries == Without(old(dbi.entries), (key, value))
    ensures removed == PairSet(old(dbi.entries))[(key, value)]
  {
    hide Without, KeyLess, LowerIndex, UpperIndex, PairSet, SetKey, NextDup, RemoveAt, Sorted, PairOf;
    ghost var s, p := dbi.entries, (key, value);
    ghost var lo, hi := LowerIndex(dbi.flags.order, s, key), UpperIndex(dbi.flags.order, s, key);
    KeyRun(dbi.flags, s, key);
    WithoutRun(dbi.flags, s, p);
    removed := 0;
    var cursor := SetKey(dbi.flags.order, dbi.entries, key);
    ghost var i := lo;
    ghost var kept := Without(s[..i], p);
    while cursor.At?
      invariant dbi.Valid() && lo <= i <= hi <= |s|
      invariant kept == Without(s[..i], p) && dbi.entries == kept + s[i..]
      invariant cursor == if i < hi then At(|kept|) else Missed
      invariant removed + |kept| == i
      decreases hi - i
    {
      WithoutSnoc(s, i, p);
      PairParts(s[i]);
      NextAfter(kept, s, i, key, lo, hi);
      if Raw(dbi.entries[cursor.index]) == value {
        cursor := dbi.CursorDel(cursor);
        removed := removed + 1;
      } else {
        kept := kept + [s[i]];
      }
      cursor := NextDup(dbi.entries, cursor);
      i := i + 1;
    }
    WithoutPairs(s, p);
  }

  /** Whether the entry at `i` is kept or removed, NEXT_DUP then finds the old successor. */
  lemma NextAfter(kept: seq<Entry>, s: seq<Entry>, i: nat, key: Bytes, lo: nat, hi: nat)
    requires lo <= i < hi <= |s|
    requires forall j :: lo <= j < hi ==> s[j].key == key
    requires hi < |s| ==> s[hi].key != key
    ensures (kept + s[i..])[|kept|] == s[i]
    ensures kept + s[i..] == (kept + [s[i]]) + s[i + 1..]
    ensures RemoveAt(kept + s[i..], |kept|) == kept + s[i + 1..]
    ensures NextDup(kept + s[i..], At(|kept|)) == if i + 1 < hi then At(|kept| + 1) else Missed
    ensures NextDup(kept + s[i + 1..], Erased(|kept|, key)) == if i + 1 < hi then At(|kept|) else Missed
  {
    assert s[i..] == [s[i]] + s[i + 1..];
    if i + 1 < |s| {
      assert (kept + s[i..])[|kept| + 1] == s[i + 1];
      assert (kept + s[i + 1..])[|kept|] == s[i + 1];
    }
  }

  /** Outside the key's run nothing shows the pair. */
  lemma WithoutRun(f: DbiFlags, s: seq<Entry>, p: Pair)
    requires Sorted(f, s)
    ensures var lo, hi := LowerIndex(f.order, s, p.0), UpperIndex(f.order, s, p.0);
            && lo <= hi <= |s|
            && Without(s[..lo], p) == s[..lo]
            && s == s[..lo] + s[lo..]
            && Without(s[..hi], p) + s[hi..] == Without(s, p)
            && (hi < |s| ==> s[hi].key != p.0)
  {
    hide Without, KeyLess, LowerIndex, UpperIndex;
    var lo, hi := LowerIndex(f.order, s, p.0), UpperIndex(f.order, s, p.0);
    OutsideRun(f, s, p.0);
    WithoutUntouched(s[..lo], p);
    WithoutUntouched(s[hi..], p);
    WithoutConcat(s[..hi], s[hi..], p);
    SplitAt(s, hi);
    SplitAt(s, lo);
  }

  /** The loop of db_erase_one_pair: SET_KEY, then NEXT_DUP to the first copy of the pair. */
  method FindPair(f: DbiFlags, s: seq<Entry>, key: Bytes, value: Bytes) returns (cursor: Cursor)
    requires Sorted(f, s)
    ensures cursor.At? <==> (key, value) in PairSet(s)
    ensures cursor.At? ==> cursor.index < |s| && PairOf(s[cursor.index]) == (key, value)
                           && (key, value) !in Pairs(s[..cursor.index])
  {
    hide KeyLess, LowerIndex, UpperIndex, PairSet, SetKey, NextDup, Sorted;
    ghost var p := (key, value);
    ghost var lo, hi := LowerIndex(f.order, s, key), UpperIndex(f.order, s, key);
    KeyRun(f, s, key);
    CountOutside(f, s, p);
    cursor := SetKey(f.order, s, key);
    ghost var i := lo;
    while cursor.At?
      invariant lo <= i <= hi
      invariant cursor == if i < hi then At(i) else Missed
      invariant PairSet(s[..i])[p] == 0
      decreases hi - i
    {
      if Raw(s[cursor.index]) == value {
        NotShown(s[..i], p);
        Shown(s, i);
        return;
      }
      PairSetSnoc(s, i);
      cursor := NextDup(s, cursor);
      i := i + 1;
    }
  }

  lemma Shown(s: seq<Entry>, i: nat)
    requires i < |s|
    ensures PairOf(s[i]) in PairSet(s)
  {
    assert Pairs(s)[i] == PairOf(s[i]);
  }

  lemma NotShown(s: seq<Entry>, p: Pair)
    requires PairSet(s)[p] == 0
    ensures p !in Pairs(s)
  {
    assert p in Pairs(s) <==> p in multiset(Pairs(s));
  }
}
