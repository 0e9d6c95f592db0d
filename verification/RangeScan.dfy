/** Inclusive key ranges: what the tables' forward, reverse and counting cursor
    loops compute. */
module RangeScan {
  import opened ByteStrings
  import opened OrderedStore

  predicate InRange(o: KeyOrder, from: Bytes, to: Bytes, k: Bytes) {
    !KeyLess(o, k, from) && !KeyLess(o, to, k)
  }

  /** The reference: look at every entry and keep those in the range. */
  function FilterRange(o: KeyOrder, s: seq<Entry>, from: Bytes, to: Bytes): seq<Entry> {
    if s == [] then []
    else
      var t := FilterRange(o, s[..|s| - 1], from, to);
      if InRange(o, from, to, s[|s| - 1].key) then t + [s[|s| - 1]] else t
  }

  /** Where the range starts and ends in a sorted run. */
  function RangeStart(o: KeyOrder, s: seq<Entry>, from: Bytes): nat {
    LowerIndex(o, s, from)
  }

  function RangeEnd(o: KeyOrder, s: seq<Entry>, from: Bytes, to: Bytes): nat {
    if KeyLess(o, to, from) then LowerIndex(o, s, from) else UpperIndex(o, s, to)
  }

  lemma RangeBounds(f: DbiFlags, s: seq<Entry>, from: Bytes, to: Bytes)
    requires Sorted(f, s)
    ensures RangeStart(f.order, s, from) <= RangeEnd(f.order, s, from, to) <= |s|
    ensures forall i {:trigger s[i]} :: 0 <= i < |s| ==>
              (RangeStart(f.order, s, from) <= i < RangeEnd(f.order, s, from, to) <==> InRange(f.order, from, to, s[i].key))
  {
    var o := f.order;
    Bounds(f, s, from);
    Bounds(f, s, to);
    var lo, hi := LowerIndex(o, s, from), UpperIndex(o, s, to);
    if KeyLess(o, to, from) {
      forall i | 0 <= i < |s| ensures !InRange(o, from, to, s[i].key) {
        if InRange(o, from, to, s[i].key) {
          KeyLessNotGreater(o, to, from, s[i].key);
          assert false;
        }
      }
    } else if hi < lo {
      KeyTransitive(o, to, s[hi].key, from);
      assert false;
    } else {
      forall i | 0 <= i < |s| ensures lo <= i < hi <==> InRange(o, from, to, s[i].key) {
        assert KeyLess(o, s[i].key, from) <==> i < lo;
        assert KeyLess(o, to, s[i].key) <==> hi <= i;
      }
    }
  }

  /** Where a forward scan stops. */
  lemma RangeEdge(f: DbiFlags, s: seq<Entry>, from: Bytes, to: Bytes, i: nat)
    requires Sorted(f, s) && !KeyLess(f.order, to, from) && i < |s|
    ensures KeyLess(f.order, to, s[i].key) <==> RangeEnd(f.order, s, from, to) <= i
    ensures KeyLess(f.order, s[i].key, from) <==> i < RangeStart(f.order, s, from)
  {
    Bounds(f, s, to);
    Bounds(f, s, from);
  }

  lemma RangeSize(f: DbiFlags, s: seq<Entry>, from: Bytes, to: Bytes)
    requires Sorted(f, s)
    ensures RangeStart(f.order, s, from) == LowerIndex(f.order, s, from)
    ensures RangeStart(f.order, s, from) <= RangeEnd(f.order, s, from, to) <= |s|
    ensures KeyLess(f.order, to, from) ==> RangeEnd(f.order, s, from, to) == RangeStart(f.order, s, from)
    ensures |RangeEntries(f, s, from, to)| == RangeEnd(f.order, s, from, to) - RangeStart(f.order, s, from)
  {
    RangeBounds(f, s, from, to);
  }

  lemma InsideAt(f: DbiFlags, s: seq<Entry>, from: Bytes, to: Bytes, i: nat)
    requires Sorted(f, s) && i < |s|
    ensures RangeStart(f.order, s, from) <= i < RangeEnd(f.order, s, from, to) <==> InRange(f.order, from, to, s[i].key)
  {
    RangeBounds(f, s, from, to);
  }

  /** The entries of the range, in store order. */
  ghost function RangeEntries(f: DbiFlags, s: seq<Entry>, from: Bytes, to: Bytes): seq<Entry>
    requires Sorted(f, s)
  {
    RangeBounds(f, s, from, to);
    s[RangeStart(f.order, s, from)..RangeEnd(f.order, s, from, to)]
  }

  /** The reference for a range erase: look at every entry and keep those outside. */
  function OutsideRange(o: KeyOrder, s: seq<Entry>, from: Bytes, to: Bytes): seq<Entry> {
    if s == [] then []
    else
      var t := OutsideRange(o, s[..|s| - 1], from, to);
      if InRange(o, from, to, s[|s| - 1].key) then t else t + [s[|s| - 1]]
  }

  lemma {:induction false} OutsideConcat(o: KeyOrder, a: seq<Entry>, b: seq<Entry>, from: Bytes, to: Bytes)
    ensures OutsideRange(o, a + b, from, to) == OutsideRange(o, a, from, to) + OutsideRange(o, b, from, to)
  {
    if b == [] {
      assert a + b == a;
    } else {
      assert (a + b)[..|a + b| - 1] == a + b[..|b| - 1];
      OutsideConcat(o, a, b[..|b| - 1], from, to);
    }
  }

  lemma {:induction false} OutsideUniform(o: KeyOrder, s: seq<Entry>, from: Bytes, to: Bytes, inside: bool)
    requires forall e :: e in s ==> InRange(o, from, to, e.key) == inside
    ensures OutsideRange(o, s, from, to) == if inside then [] else s
  {
    if s != [] {
      assert s[|s| - 1] in s;
      OutsideUniform(o, s[..|s| - 1], from, to, inside);
    }
  }

  lemma {:induction false} FilterConcat(o: KeyOrder, a: seq<Entry>, b: seq<Entry>, from: Bytes, to: Bytes)
    ensures FilterRange(o, a + b, from, to) == FilterRange(o, a, from, to) + FilterRange(o, b, from, to)
  {
    if b == [] {
      assert a + b == a;
    } else {
      assert (a + b)[..|a + b| - 1] == a + b[..|b| - 1];
      FilterConcat(o, a, b[..|b| - 1], from, to);
    }
  }

  lemma {:induction false} FilterUniform(o: KeyOrder, s: seq<Entry>, from: Bytes, to: Bytes, inside: bool)
    requires forall e :: e in s ==> InRange(o, from, to, e.key) == inside
    ensures FilterRange(o, s, from, to) == if inside then s else []
  {
    if s != [] {
      assert s[|s| - 1] in s;
      FilterUniform(o, s[..|s| - 1], from, to, inside);
    }
  }

  lemma RangeSlices(f: DbiFlags, s: seq<Entry>, from: Bytes, to: Bytes)
    requires Sorted(f, s)
    ensures var lo, hi := RangeStart(f.order, s, from), RangeEnd(f.order, s, from, to);
            && lo <= hi <= |s|
            && (forall e :: e in s[..lo] ==> !InRange(f.order, from, to, e.key))
            && (forall e :: e in s[lo..hi] ==> InRange(f.order, from, to, e.key))
            && (forall e :: e in s[hi..] ==> !InRange(f.order, from, to, e.key))
  {
    RangeBounds(f, s, from, to);
  }

  /** What is in a range, bounds included, and what is not. */
  lemma {:induction false} RangeMembers(o: KeyOrder, s: seq<Entry>, from: Bytes, to: Bytes, e: Entry)
    ensures e in FilterRange(o, s, from, to) <==> e in s && !o(e.key, from) && !o(to, e.key)
    ensures e in OutsideRange(o, s, from, to) <==> e in s && (o(e.key, from) || o(to, e.key))
  {
    if s != [] {
      RangeMembers(o, s[..|s| - 1], from, to, e);
      assert s == s[..|s| - 1] + [s[|s| - 1]];
    }
  }

  /** In a sorted run the range is contiguous: it is what looking at every entry selects. */
  lemma RangeExact(f: DbiFlags, s: seq<Entry>, from: Bytes, to: Bytes)
    requires Sorted(f, s)
    ensures RangeEntries(f, s, from, to) == FilterRange(f.order, s, from, to)
  {
    hide FilterRange, InRange, RangeStart, RangeEnd;
    RangeSlices(f, s, from, to);
    RangeSize(f, s, from, to);
    var o, lo, hi := f.order, RangeStart(f.order, s, from), RangeEnd(f.order, s, from, to);
    SplitThree(s, lo, hi);
    FilterConcat(o, s[..lo] + s[lo..hi], s[hi..], from, to);
    FilterConcat(o, s[..lo], s[lo..hi], from, to);
    FilterUniform(o, s[..lo], from, to, false);
    FilterUniform(o, s[lo..hi], from, to, true);
    FilterUniform(o, s[hi..], from, to, false);
  }

  /** Removing the contiguous range is keeping everything outside it. */
  lemma CutExact(f: DbiFlags, s: seq<Entry>, from: Bytes, to: Bytes)
    requires Sorted(f, s)
    ensures var lo, hi := RangeStart(f.order, s, from), RangeEnd(f.order, s, from, to);
            lo <= hi <= |s| && s[..lo] + s[hi..] == OutsideRange(f.order, s, from, to)
  {
    hide OutsideRange, InRange, RangeStart, RangeEnd;
    RangeSlices(f, s, from, to);
    var o, lo, hi := f.order, RangeStart(f.order, s, from), RangeEnd(f.order, s, from, to);
    SplitThree(s, lo, hi);
    OutsideConcat(o, s[..lo] + s[lo..hi], s[hi..], from, to);
    OutsideConcat(o, s[..lo], s[lo..hi], from, to);
    OutsideUniform(o, s[..lo], from, to, false);
    OutsideUniform(o, s[lo..hi], from, to, true);
    OutsideUniform(o, s[hi..], from, to, false);
  }

  /** A range is one run of the entries, and what is outside it the rest, both in order. */
  lemma RangeIsRun(f: DbiFlags, s: seq<Entry>, from: Bytes, to: Bytes) returns (lo: nat, hi: nat)
    requires Sorted(f, s)
    ensures lo <= hi <= |s|
    ensures FilterRange(f.order, s, from, to) == s[lo..hi] && OutsideRange(f.order, s, from, to) == s[..lo] + s[hi..]
  {
    RangeBounds(f, s, from, to);
    RangeExact(f, s, from, to);
    CutExact(f, s, from, to);
    lo, hi := RangeStart(f.order, s, from), RangeEnd(f.order, s, from, to);
  }

  /** db_range: SET_RANGE to the lower bound, NEXT until a key is above the upper one. */
  method Forward(f: DbiFlags, s: seq<Entry>, from: Bytes, to: Bytes) returns (out: seq<Entry>)
    requires Sorted(f, s)
    ensures out == RangeEntries(f, s, from, to)
    ensures out == FilterRange(f.order, s, from, to)
  {
    out := [];
    ghost var lo, hi := RangeStart(f.order, s, from), RangeEnd(f.order, s, from, to);
    RangeSize(f, s, from, to);
    RangeExact(f, s, from, to);
    if KeyLess(f.order, to, from) { return; }
    var cursor := SetRange(f.order, s, from);
    ghost var i := lo;
    while cursor.At?
      invariant lo <= i <= hi
      invariant cursor == Land(s, i)
      invariant out == s[lo..i]
      decreases |s| - i
    {
      RangeEdge(f, s, from, to, i);
      if KeyLess(f.order, to, s[cursor.index].key) { return; }
      SliceSnoc(s, lo, i);
      out := out + [s[cursor.index]];
      cursor := Next(s, cursor);
      i := i + 1;
    }
  }

  /** One step of a deleting range scan: what follows moves up to the cursor. */
  lemma CutStep<T>(s: seq<T>, lo: nat, n: nat)
    requires lo + n < |s|
    ensures (s[..lo] + s[lo + n..])[lo] == s[lo + n]
    ensures RemoveAt(s[..lo] + s[lo + n..], lo) == s[..lo] + s[lo + n + 1..]
  {
  }

  lemma CutMembers<T>(s: seq<T>, lo: nat, hi: nat)
    requires lo <= hi <= |s|
    ensures forall x :: x in s[..lo] + s[hi..] ==> x in s
  {
  }

  /** The loop of db_erase_range: SET_RANGE, then delete under the cursor and NEXT until
      a key is above the upper bound. It skips and repeats nothing. */
  method CutRange(dbi: Dbi, from: Bytes, to: Bytes) returns (removed: nat)
    requires dbi.Valid()
    modifies dbi
    ensures dbi.Valid()
    ensures removed == |RangeEntries(dbi.flags, old(dbi.entries), from, to)|
    ensures dbi.entries == OutsideRange(dbi.flags.order, old(dbi.entries), from, to)
    ensures forall e :: e in dbi.entries ==> e in old(dbi.entries)
  {
    hide KeyLess, RangeStart, RangeEnd, OutsideRange, Sorted;
    ghost var s := dbi.entries;
    ghost var lo, hi := RangeStart(dbi.flags.order, s, from), RangeEnd(dbi.flags.order, s, from, to);
    RangeSize(dbi.flags, s, from, to);
    CutExact(dbi.flags, s, from, to);
    SplitAt(s, lo);
    removed := 0;
    if KeyLess(dbi.flags.order, to, from) { return; }
    var cursor := SetRange(dbi.flags.order, dbi.entries, from);
    while cursor.At?
      invariant dbi.Valid() && lo + removed <= hi
      invariant dbi.entries == s[..lo] + s[lo + removed..]
      invariant cursor == Land(dbi.entries, lo)
      decreases hi - lo - removed, cursor.At?
    {
      CutStep(s, lo, removed);
      RangeEdge(dbi.flags, s, from, to, lo + removed);
      if KeyLess(dbi.flags.order, to, dbi.entries[cursor.index].key) { break; }
      cursor := dbi.CursorDel(cursor);
      removed := removed + 1;
      cursor := Next(dbi.entries, cursor);
    }
    CutMembers(s, lo, hi);
  }

  /** db_count_range. */
  method CountRange(f: DbiFlags, s: seq<Entry>, from: Bytes, to: Bytes) returns (count: nat)
    requires Sorted(f, s)
    ensures count == |RangeEntries(f, s, from, to)|
  {
    count := 0;
    ghost var lo, hi := RangeStart(f.order, s, from), RangeEnd(f.order, s, from, to);
    RangeSize(f, s, from, to);
    if KeyLess(f.order, to, from) { return; }
    var cursor := SetRange(f.order, s, from);
    while cursor.At?
      invariant lo + count <= hi
      invariant cursor == Land(s, lo + count)
      decreases |s| - count
    {
      RangeEdge(f, s, from, to, lo + count);
      if KeyLess(f.order, to, s[cursor.index].key) { return; }
      count := count + 1;
      cursor := Next(s, cursor);
    }
  }

  /** db_contains_range: one seek answers for the whole range. */
  method ContainsRange(f: DbiFlags, s: seq<Entry>, from: Bytes, to: Bytes) returns (found: bool)
    requires Sorted(f, s)
    ensures found <==> exists e :: e in s && InRange(f.order, from, to, e.key)
  {
    RangeBounds(f, s, from, to);
    RangeInhabited(f, s, from, to);
    if KeyLess(f.order, to, from) { return false; }
    var cursor := SetRange(f.order, s, from);
    if !cursor.At? { return false; }
    Bounds(f, s, to);
    found := !KeyLess(f.order, to, s[cursor.index].key);
  }

  lemma RangeInhabited(f: DbiFlags, s: seq<Entry>, from: Bytes, to: Bytes)
    requires Sorted(f, s)
    ensures RangeStart(f.order, s, from) < RangeEnd(f.order, s, from, to) <==>
            exists e :: e in s && InRange(f.order, from, to, e.key)
  {
    RangeBounds(f, s, from, to);
    var lo := RangeStart(f.order, s, from);
    if lo < RangeEnd(f.order, s, from, to) { assert s[lo] in s; }
    if e :| e in s && InRange(f.order, from, to, e.key) {
      var i :| 0 <= i < |s| && s[i] == e;
    }
  }

  lemma ReversedPrefix<T>(s: seq<T>, n: nat)
    requires n < |s|
    ensures Reversed(s)[..n + 1] == Reversed(s)[..n] + [s[|s| - 1 - n]]
  {
    hide Reversed;
    SliceSnoc(Reversed(s), 0, n);
    assert Reversed(s)[n] == s[|s| - 1 - n];
  }

  /** The reverse loop: PREV from the last entry of the range, at most `limit` entries
      when there is a limit. */
  method Backward(f: DbiFlags, s: seq<Entry>, start: Cursor, from: Bytes, ghost to: Bytes, limit: Option<nat>)
    returns (out: seq<Entry>)
    requires Sorted(f, s) && !KeyLess(f.order, to, from) && limit != Some(0)
    requires start == Land(s, RangeEnd(f.order, s, from, to) - 1)
    ensures var r := Reversed(RangeEntries(f, s, from, to));
            out == if limit.Some? && limit.value < |r| then r[..limit.value] else r
  {
    out := [];
    ghost var lo, hi := RangeStart(f.order, s, from), RangeEnd(f.order, s, from, to);
    RangeSize(f, s, from, to);
    ghost var range := RangeEntries(f, s, from, to);
    ghost var r := Reversed(range);
    assert range == s[lo..hi];
    hide Reversed, RangeEntries;
    var cursor := start;
    while cursor.At?
      invariant |out| <= |r| && out == r[..|out|]
      invariant cursor == Land(s, hi - 1 - |out|)
      invariant limit.Some? ==> |out| < limit.value
      decreases |r| - |out|, cursor
    {
      RangeEdge(f, s, from, to, cursor.index);
      if KeyLess(f.order, s[cursor.index].key, from) { return; }
      ReversedPrefix(range, |out|);
      out := out + [s[cursor.index]];
      if limit.Some? && |out| >= limit.value { return; }
      cursor := Prev(s, cursor);
    }
  }
}
