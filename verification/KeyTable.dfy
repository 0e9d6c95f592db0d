/** KeyTable: a persisted ordered set of keys, its scans and its recorded raw log. */
module KeyTables {
  import opened ByteStrings
  import opened OrderedStore
  import opened RangeScan
  import opened RawLog

  function Keys(s: seq<Entry>): (r: seq<Bytes>)
    ensures |r| == |s|
    ensures forall i {:trigger r[i]} :: 0 <= i < |s| ==> r[i] == s[i].key
  {
    seq(|s|, i requires 0 <= i < |s| => s[i].key)
  }

  function Deletes(s: seq<Entry>): (r: seq<RawOp>)
    ensures |r| == |s|
    ensures forall i {:trigger r[i]} :: 0 <= i < |s| ==> r[i] == DeleteOp(s[i].key)
  {
    seq(|s|, i requires 0 <= i < |s| => DeleteOp(s[i].key))
  }

  /** The Puts a batch records: one for each key that is neither stored nor earlier in it. */
  function NewPuts(stored: set<Bytes>, keys: seq<Bytes>): seq<RawOp> {
    if keys == [] then []
    else
      var n := |keys| - 1;
      var before := NewPuts(stored, keys[..n]);
      if keys[n] in stored || keys[n] in keys[..n] then before else before + [PutOp(keys[n], [])]
  }

  lemma NoPuts(stored: set<Bytes>, keys: seq<Bytes>)
    ensures NewPuts(stored, keys[..0]) == []
  {
  }

  lemma NewPutsSnoc(stored: set<Bytes>, keys: seq<Bytes>, i: nat)
    requires i < |keys|
    ensures NewPuts(stored, keys[..i + 1]) == NewPuts(stored, keys[..i])
            + if keys[i] in stored || keys[i] in keys[..i] then [] else [PutOp(keys[i], [])]
  {
    assert keys[..i + 1][..i] == keys[..i];
  }

  /** The keys a DBI holds after a range erase. */
  lemma KeysOutside(o: KeyOrder, s: seq<Entry>, m: Contents, m': Contents, from: Bytes, to: Bytes)
    requires Holds(s, m) && Holds(OutsideRange(o, s, from, to), m')
    ensures m'.Keys == set k | k in m.Keys && !InRange(o, from, to, k)
  {
    var s' := OutsideRange(o, s, from, to);
    forall k ensures k in m' <==> k in m && !InRange(o, from, to, k) {
      if k in m' {
        RangeMembers(o, s, from, to, Entry(k, m'[k]));
      }
      if k in m {
        RangeMembers(o, s, from, to, Entry(k, m[k]));
      }
    }
  }

  class KeyTable {
    const dbi: Dbi
    var log: seq<RawOp>
    ghost var contents: Contents

    ghost predicate Valid()
      reads this, dbi
    {
      !dbi.flags.dupsort && dbi.Valid() && Holds(dbi.entries, contents)
    }

    constructor (order: KeyOrder)
      ensures Valid() && fresh(dbi) && dbi.flags.order == order && contents == map[] && log == []
    {
      dbi := new Dbi(DbiFlags(order, false));
      log, contents := [], map[];
    }

    /** db_insert: MDBX_NOOVERWRITE; a present key records nothing. */
    method Insert(key: Bytes) returns (inserted: bool, ghost delta: seq<RawOp>)
      requires Valid()
      modifies this, dbi
      ensures Valid()
      ensures inserted == (key !in old(contents))
      ensures contents == if inserted then old(contents)[key := []] else old(contents)
      ensures delta == if inserted then [PutOp(key, [])] else []
      ensures log == old(log) + delta && contents == ReplayedAll(old(contents), delta)
    {
      HoldsKey(dbi.entries, contents, key);
      var rc := dbi.Put(key, [], NoOverwrite);
      if rc == KeyExist { return false, []; }
      HoldsPut(old(dbi.entries), dbi.entries, contents, key, []);
      contents, log := contents[key := []], log + [PutOp(key, [])];
      delta := [PutOp(key, [])];
      ReplayedOne(old(contents), PutOp(key, []));
      inserted := true;
    }

    /** db_erase: an absent key records nothing. */
    method Erase(key: Bytes) returns (removed: bool, ghost delta: seq<RawOp>)
      requires Valid()
      modifies this, dbi
      ensures Valid()
      ensures removed == (key in old(contents))
      ensures contents == old(contents) - {key}
      ensures delta == if removed then [DeleteOp(key)] else []
      ensures log == old(log) + delta && contents == ReplayedAll(old(contents), delta)
    {
      hide LowerIndex, UpperIndex;
      HoldsKey(dbi.entries, contents, key);
      var rc := dbi.DelKey(key);
      HoldsDelete(old(dbi.entries), dbi.entries, contents, key);
      contents := contents - {key};
      if rc == NotFound { return false, []; }
      log := log + [DeleteOp(key)];
      delta := [DeleteOp(key)];
      ReplayedOne(old(contents), DeleteOp(key));
      removed := true;
    }

    method Clear() returns (ghost delta: seq<RawOp>)
      requires Valid()
      modifies this, dbi
      ensures Valid() && contents == map[] && delta == [ClearTableOp]
      ensures log == old(log) + delta && contents == ReplayedAll(old(contents), delta)
    {
      dbi.Drop();
      contents, log := map[], log + [ClearTableOp];
      delta := [ClearTableOp];
      ReplayedOne(old(contents), ClearTableOp);
    }

    /** db_append: insert in order; repeated and present keys change nothing. */
    method Append(keys: seq<Bytes>) returns (ghost delta: seq<RawOp>)
      requires Valid()
      modifies this, dbi
      ensures Valid()
      ensures contents.Keys == old(contents).Keys + set k | k in keys
      ensures delta == NewPuts(old(contents).Keys, keys)
      ensures log == old(log) + delta && contents == ReplayedAll(old(contents), delta)
    {
      hide ReplayedAll, Holds, NewPuts;
      delta := [];
      NothingReplayed(contents);
      NoPuts(contents.Keys, keys);
      for i := 0 to |keys|
        invariant Valid()
        invariant contents.Keys == old(contents).Keys + set k | k in keys[..i]
        invariant delta == NewPuts(old(contents).Keys, keys[..i])
        invariant log == old(log) + delta && contents == ReplayedAll(old(contents), delta)
      {
        var inserted; ghost var step;
        inserted, step := Insert(keys[i]);
        ConcatAssoc(old(log), delta, step);
        ReplayedConcat(old(contents), delta, step);
        NewPutsSnoc(old(contents).Keys, keys, i);
        delta := delta + step;
        assert keys[..i + 1] == keys[..i] + [keys[i]];
      }
      assert keys[..|keys|] == keys;
    }

    /** reconcile: clear, then append. */
    method Reconcile(keys: seq<Bytes>) returns (ghost delta: seq<RawOp>)
      requires Valid()
      modifies this, dbi
      ensures Valid()
      ensures contents.Keys == set k | k in keys
      ensures delta == [ClearTableOp] + NewPuts({}, keys)
      ensures log == old(log) + delta && contents == ReplayedAll(old(contents), delta)
    {
      ghost var cleared := Clear();
      assert contents.Keys == {};
      ghost var appended := Append(keys);
      ConcatAssoc(old(log), cleared, appended);
      ReplayedConcat(old(contents), cleared, appended);
      delta := cleared + appended;
    }

    /** db_erase_range: exactly the keys of the range go, in ascending order, each
        recorded as one Delete; the count is what count_range would have said. */
    method EraseRange(from: Bytes, to: Bytes) returns (removed: nat, ghost delta: seq<RawOp>)
      requires Valid()
      modifies this, dbi
      ensures Valid()
      ensures dbi.entries == OutsideRange(dbi.flags.order, old(dbi.entries), from, to)
      ensures removed == |FilterRange(dbi.flags.order, old(dbi.entries), from, to)|
      ensures delta == Deletes(FilterRange(dbi.flags.order, old(dbi.entries), from, to))
      ensures log == old(log) + delta && contents == ReplayedAll(old(contents), delta)
    {
      hide KeyLess, RangeStart, RangeEnd, ReplayedAll, Holds, FilterRange, OutsideRange;
      ghost var s := dbi.entries;
      ghost var lo, hi := RangeStart(dbi.flags.order, s, from), RangeEnd(dbi.flags.order, s, from, to);
      RangeSize(dbi.flags, s, from, to);
      RangeExact(dbi.flags, s, from, to);
      CutExact(dbi.flags, s, from, to);
      SplitAt(s, lo);
      NothingReplayed(contents);
      removed, delta := 0, [];
      if KeyLess(dbi.flags.order, to, from) { return; }
      var cursor := SetRange(dbi.flags.order, dbi.entries, from);
      while cursor.At?
        invariant Valid() && lo + removed <= hi
        invariant dbi.entries == s[..lo] + s[lo + removed..]
        invariant cursor == Land(dbi.entries, lo)
        invariant delta == Deletes(s[lo..lo + removed])
        invariant log == old(log) + delta && contents == ReplayedAll(old(contents), delta)
        decreases hi - lo - removed, cursor.At?
      {
        CutStep(s, lo, removed);
        RangeEdge(dbi.flags, s, from, to, lo + removed);
        if KeyLess(dbi.flags.order, to, dbi.entries[cursor.index].key) { break; }
        DeletesStep(s, lo, removed);
        ReplayedSnoc(old(contents), delta, DeleteOp(s[lo + removed].key));
        ConcatAssoc(old(log), delta, [DeleteOp(s[lo + removed].key)]);
        delta := delta + [DeleteOp(s[lo + removed].key)];
        cursor := EraseCurrent(cursor);
        removed := removed + 1;
        cursor := Next(dbi.entries, cursor);
      }
    }

    static lemma DeletesStep(s: seq<Entry>, lo: nat, n: nat)
      requires lo + n < |s|
      ensures Deletes(s[lo..lo + n + 1]) == Deletes(s[lo..lo + n]) + [DeleteOp(s[lo + n].key)]
    {
      SliceSnoc(s, lo, lo + n);
    }

    /** cursor_del with its record_op. */
    method EraseCurrent(cursor: Cursor) returns (cursor': Cursor)
      requires Valid() && cursor.At? && cursor.index < |dbi.entries|
      modifies this, dbi
      ensures Valid() && dbi.entries == RemoveAt(old(dbi.entries), cursor.index)
      ensures cursor'.Erased? && cursor'.index == cursor.index
      ensures var k := old(dbi.entries)[cursor.index].key;
              log == old(log) + [DeleteOp(k)] && contents == Replayed(old(contents), DeleteOp(k))
    {
      var key := dbi.entries[cursor.index].key;
      SoleKey(dbi.flags, dbi.entries, cursor.index);
      cursor' := dbi.CursorDel(cursor);
      HoldsDelete(old(dbi.entries), dbi.entries, contents, key);
      contents, log := contents - {key}, log + [DeleteOp(key)];
    }

    method Range(from: Bytes, to: Bytes) returns (keys: seq<Bytes>)
      requires Valid()
      ensures keys == Keys(FilterRange(dbi.flags.order, dbi.entries, from, to))
    {
      var entries := Forward(dbi.flags, dbi.entries, from, to);
      keys := Keys(entries);
    }

    /** db_for_each_range: the callback sees the keys of the range in order up to and
        including the first one it refuses. */
    method ForEachRange(from: Bytes, to: Bytes, callback: Bytes -> bool) returns (completed: bool, visited: seq<Bytes>)
      requires Valid()
      ensures var range := Keys(FilterRange(dbi.flags.order, dbi.entries, from, to));
              && visited <= range
              && (completed ==> visited == range && forall i :: 0 <= i < |range| ==> callback(range[i]))
              && (!completed ==> visited != [] && !callback(visited[|visited| - 1])
                                 && forall i :: 0 <= i < |visited| - 1 ==> callback(visited[i]))
    {
      hide KeyLess, RangeStart, RangeEnd, FilterRange;
      visited := [];
      ghost var s := dbi.entries;
      ghost var lo, hi := RangeStart(dbi.flags.order, s, from), RangeEnd(dbi.flags.order, s, from, to);
      RangeSize(dbi.flags, s, from, to);
      RangeExact(dbi.flags, s, from, to);
      ghost var range := Keys(s[lo..hi]);
      if KeyLess(dbi.flags.order, to, from) { return true, []; }
      var cursor := SetRange(dbi.flags.order, dbi.entries, from);
      while cursor.At?
        invariant lo + |visited| <= hi
        invariant cursor == Land(s, lo + |visited|)
        invariant visited == range[..|visited|]
        invariant forall i :: 0 <= i < |visited| ==> callback(visited[i])
        decreases hi - |visited|, cursor.At?
      {
        RangeEdge(dbi.flags, s, from, to, lo + |visited|);
        var key := dbi.entries[cursor.index].key;
        if KeyLess(dbi.flags.order, to, key) { break; }
        assert range[|visited|] == key;
        assert range[..|visited| + 1] == range[..|visited|] + [range[|visited|]];
        visited := visited + [key];
        if !callback(key) { return false, visited; }
        cursor := Next(dbi.entries, cursor);
      }
      completed := true;
    }

    /** range_reverse: keys are unique, so landing on the bound itself is already the end. */
    method RangeReverse(from: Bytes, to: Bytes, limit: Option<nat>) returns (keys: seq<Bytes>)
      requires Valid()
      ensures var r := Reversed(Keys(FilterRange(dbi.flags.order, dbi.entries, from, to)));
              keys == if limit.Some? && limit.value < |r| then r[..limit.value] else r
    {
      if limit == Some(0) { return []; }
      RangeExact(dbi.flags, dbi.entries, from, to);
      RangeSize(dbi.flags, dbi.entries, from, to);
      ghost var range := RangeEntries(dbi.flags, dbi.entries, from, to);
      assert Keys(Reversed(range)) == Reversed(Keys(range));
      if KeyLess(dbi.flags.order, to, from) { return []; }
      var cursor := ReverseStart(from, to);
      var entries := Backward(dbi.flags, dbi.entries, cursor, from, to, limit);
      keys := Keys(entries);
    }

    method ReverseStart(from: Bytes, to: Bytes) returns (cursor: Cursor)
      requires Valid() && !KeyLess(dbi.flags.order, to, from)
      ensures cursor == Land(dbi.entries, RangeEnd(dbi.flags.order, dbi.entries, from, to) - 1)
    {
      var o := dbi.flags.order;
      Bounds(dbi.flags, dbi.entries, to);
      cursor := SetRange(o, dbi.entries, to);
      if !cursor.At? {
        cursor := Last(dbi.entries);
      } else if KeyLess(o, to, dbi.entries[cursor.index].key) {
        cursor := Prev(dbi.entries, cursor);
      } else {
        KeyTotal(o, to, dbi.entries[cursor.index].key);
        ghost var hi := UpperIndex(o, dbi.entries, to);
        SortedNoClash(dbi.flags, dbi.entries, cursor.index, hi - 1);
      }
    }

    method CountKeys(from: Bytes, to: Bytes) returns (count: nat)
      requires Valid()
      ensures count == |FilterRange(dbi.flags.order, dbi.entries, from, to)|
    {
      RangeExact(dbi.flags, dbi.entries, from, to);
      count := CountRange(dbi.flags, dbi.entries, from, to);
    }

    method Count() returns (n: nat)
      requires Valid()
      ensures n == |contents|
    {
      HoldsCount(dbi.flags, dbi.entries, contents);
      n := |dbi.entries|;
    }
  }
}
