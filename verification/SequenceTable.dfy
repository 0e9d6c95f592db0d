/** SequenceTable: values under stable 64-bit ids in an MDBX_INTEGERKEY DBI, with the
    raw log it records. */
module SequenceTables {
  import opened ByteStrings
  import opened OrderedStore
  import opened RangeScan
  import opened RawLog

  /** make_key. */
  function KeyOf(id: uint64): Bytes {
    LittleEndian(id, 8)
  }

  /** read_index_key. */
  function IdOf(e: Entry): nat {
    LittleEndianValue(e.key)
  }

  /** Every key has the width of an id. */
  ghost predicate IdKeys(s: seq<Entry>) {
    forall e :: e in s ==> |e.key| == 8
  }

  lemma IdRoundTrip(id: uint64, v: Bytes)
    ensures IdOf(Entry(KeyOf(id), v)) == id
  {
    Pow256Widths();
    LittleEndianRoundTrip(id, 8);
  }

  lemma IdKey(e: Entry)
    requires |e.key| == 8
    ensures IdOf(e) < TWO_TO_THE_64 && e.key == KeyOf(IdOf(e))
  {
    Pow256Widths();
    LittleEndianOfValue(e.key);
  }

  /** The DBI's key order is the numeric order of ids. */
  lemma IdOrder(o: KeyOrder, a: Entry, b: Entry)
    requires o == INTEGER_KEY && |a.key| == 8 && |b.key| == 8
    ensures KeyLess(o, a.key, b.key) <==> IdOf(a) < IdOf(b)
  {
    LittleEndianOfValue(a.key);
    LittleEndianOfValue(b.key);
    IntegerKeyOrder(IdOf(a), IdOf(b), 8);
  }

  lemma Ascending(f: DbiFlags, s: seq<Entry>, i: nat, j: nat)
    requires Sorted(f, s) && !f.dupsort && f.order == INTEGER_KEY && IdKeys(s) && i < j < |s|
    ensures IdOf(s[i]) < IdOf(s[j])
  {
    assert s[i] in s && s[j] in s;
    assert Before(f, s[i], s[j]);
    IdOrder(f.order, s[i], s[j]);
  }

  lemma LastIsLargest(f: DbiFlags, s: seq<Entry>)
    requires Sorted(f, s) && !f.dupsort && f.order == INTEGER_KEY && IdKeys(s) && s != []
    ensures forall e :: e in s ==> IdOf(e) <= IdOf(s[|s| - 1]) < TWO_TO_THE_64
  {
    IdKey(s[|s| - 1]);
    forall e | e in s ensures IdOf(e) <= IdOf(s[|s| - 1]) {
      var i :| 0 <= i < |s| && s[i] == e;
      if i < |s| - 1 { Ascending(f, s, i, |s| - 1); }
    }
  }

  /** The id append uses: one above the largest stored id, zero when empty, none when
      the largest id is taken. */
  ghost predicate NextId(s: seq<Entry>, id: Option<uint64>) {
    match id
    case None => exists e :: e in s && IdOf(e) == MAX_UINT64
    case Some(n) => (forall e :: e in s ==> IdOf(e) < n) && (n > 0 ==> exists e :: e in s && IdOf(e) == n - 1)
  }

  class SequenceTable {
    const dbi: Dbi
    var log: seq<RawOp>
    ghost var contents: Contents

    ghost predicate Valid()
      reads this, dbi
    {
      && !dbi.flags.dupsort && dbi.flags.order == INTEGER_KEY
      && dbi.Valid() && IdKeys(dbi.entries) && Holds(dbi.entries, contents)
    }

    constructor ()
      ensures Valid() && fresh(dbi) && contents == map[] && log == []
    {
      IntegerKeyIsStrictOrder();
      dbi := new Dbi(DbiFlags(INTEGER_KEY, false));
      log, contents := [], map[];
    }

    /** db_append. */
    method Append(value: Bytes) returns (id: Option<uint64>, ghost delta: seq<RawOp>)
      requires Valid()
      modifies this, dbi
      ensures Valid() && NextId(old(dbi.entries), id)
      ensures id.None? <==> exists e :: e in old(dbi.entries) && IdOf(e) == MAX_UINT64
      ensures id.Some? ==> forall e :: e in old(dbi.entries) ==> IdOf(e) < id.value
      ensures id.Some? && id.value > 0 ==> exists e :: e in old(dbi.entries) && IdOf(e) == id.value - 1
      ensures id.None? ==> contents == old(contents) && dbi.entries == old(dbi.entries) && delta == []
      ensures id.Some? ==> KeyOf(id.value) !in old(contents) && contents == old(contents)[KeyOf(id.value) := value]
      ensures id.Some? ==> delta == [PutOp(KeyOf(id.value), value)]
      ensures id.Some? ==> forall e :: e in dbi.entries <==> e in old(dbi.entries) || e == Entry(KeyOf(id.value), value)
      ensures log == old(log) + delta && contents == ReplayedAll(old(contents), delta)
    {
      hide LittleEndian, LittleEndianValue;
      delta := [];
      var next := 0;
      var cursor := Last(dbi.entries);
      if cursor.At? {
        LastIsLargest(dbi.flags, dbi.entries);
        var last := IdOf(dbi.entries[cursor.index]);
        if last == MAX_UINT64 { return None, delta; }
        next := last + 1;
      }
      FreshKey(next);
      var rc := dbi.Put(KeyOf(next), value, NoOverwrite);
      if rc == KeyExist {
        assert false; // "computed next index already exists"
      }
      HoldsPut(old(dbi.entries), dbi.entries, contents, KeyOf(next), value);
      contents, log := contents[KeyOf(next) := value], log + [PutOp(KeyOf(next), value)];
      delta := [PutOp(KeyOf(next), value)];
      ReplayedOne(old(contents), PutOp(KeyOf(next), value));
      id := Some(next);
    }

    lemma FreshKey(id: uint64)
      requires Valid() && forall e :: e in dbi.entries ==> IdOf(e) < id
      ensures forall e :: e in dbi.entries ==> e.key != KeyOf(id)
      ensures KeyOf(id) !in contents
    {
      forall e | e in dbi.entries ensures e.key != KeyOf(id) {
        IdRoundTrip(id, e.val);
      }
      HoldsKey(dbi.entries, contents, KeyOf(id));
    }

    /** append_many: consecutive ids, in the order of the values; stops if ids run out. */
    method AppendMany(values: seq<Bytes>) returns (ids: seq<uint64>, ghost delta: seq<RawOp>)
      requires Valid()
      modifies this, dbi
      ensures Valid()
      ensures |ids| <= |values|
      ensures ids != [] ==> NextId(old(dbi.entries), Some(ids[0]))
      ensures forall i :: 0 <= i < |ids| ==> ids[i] == ids[0] + i
      ensures |ids| < |values| ==> NextId(dbi.entries, None)
      ensures |delta| == |ids| && forall i :: 0 <= i < |ids| ==> delta[i] == PutOp(KeyOf(ids[i]), values[i])
      ensures forall e :: e in dbi.entries <==>
                e in old(dbi.entries) || exists i :: 0 <= i < |ids| && e == Entry(KeyOf(ids[i]), values[i])
      ensures log == old(log) + delta && contents == ReplayedAll(old(contents), delta)
    {
      hide ReplayedAll, Holds, LittleEndian, LittleEndianValue;
      ids, delta := [], [];
      NothingReplayed(contents);
      for n := 0 to |values|
        invariant Valid() && |ids| == n
        invariant n == 0 ==> dbi.entries == old(dbi.entries)
        invariant n > 0 ==> NextId(old(dbi.entries), Some(ids[0]))
        invariant forall i :: 0 <= i < n ==> ids[i] == ids[0] + i
        invariant |delta| == n && forall i :: 0 <= i < n ==> delta[i] == PutOp(KeyOf(ids[i]), values[i])
        invariant n > 0 ==> Entry(KeyOf(ids[n - 1]), values[n - 1]) in dbi.entries
        invariant n > 0 ==> forall e :: e in dbi.entries ==> IdOf(e) <= ids[n - 1]
        invariant forall e :: e in dbi.entries <==>
                    e in old(dbi.entries) || exists i :: 0 <= i < n && e == Entry(KeyOf(ids[i]), values[i])
        invariant log == old(log) + delta && contents == ReplayedAll(old(contents), delta)
      {
        if n > 0 { IdRoundTrip(ids[n - 1], values[n - 1]); }
        var id; ghost var step;
        id, step := Append(values[n]);
        ConcatAssoc(old(log), delta, step);
        ReplayedConcat(old(contents), delta, step);
        delta := delta + step;
        if id.None? { return; }
        IdRoundTrip(id.value, values[n]);
        ids := ids + [id.value];
      }
    }

    /** db_set. */
    method Set(id: uint64, value: Bytes) returns (ghost delta: seq<RawOp>)
      requires Valid()
      modifies this, dbi
      ensures Valid() && contents == old(contents)[KeyOf(id) := value]
      ensures delta == [PutOp(KeyOf(id), value)]
      ensures log == old(log) + delta && contents == ReplayedAll(old(contents), delta)
    {
      var rc := dbi.Put(KeyOf(id), value, Upsert);
      HoldsPut(old(dbi.entries), dbi.entries, contents, KeyOf(id), value);
      contents, log := contents[KeyOf(id) := value], log + [PutOp(KeyOf(id), value)];
      delta := [PutOp(KeyOf(id), value)];
      ReplayedOne(old(contents), PutOp(KeyOf(id), value));
    }

    method Get(id: uint64) returns (r: Option<Bytes>)
      requires Valid()
      ensures r == if KeyOf(id) in contents then Some(contents[KeyOf(id)]) else None
    {
      r := dbi.Get(KeyOf(id));
      HoldsKey(dbi.entries, contents, KeyOf(id));
      Bounds(dbi.flags, dbi.entries, KeyOf(id));
      if KeyOf(id) in contents {
        LookupFound(dbi.flags, dbi.entries, Entry(KeyOf(id), contents[KeyOf(id)]));
      }
    }

    method Erase(id: uint64) returns (removed: bool, ghost delta: seq<RawOp>)
      requires Valid()
      modifies this, dbi
      ensures Valid()
      ensures removed == (KeyOf(id) in old(contents)) && contents == old(contents) - {KeyOf(id)}
      ensures delta == if removed then [DeleteOp(KeyOf(id))] else []
      ensures log == old(log) + delta && contents == ReplayedAll(old(contents), delta)
    {
      hide LowerIndex, UpperIndex, LittleEndian;
      HoldsKey(dbi.entries, contents, KeyOf(id));
      var rc := dbi.DelKey(KeyOf(id));
      HoldsDelete(old(dbi.entries), dbi.entries, contents, KeyOf(id));
      contents := contents - {KeyOf(id)};
      if rc == NotFound { return false, []; }
      log := log + [DeleteOp(KeyOf(id))];
      delta := [DeleteOp(KeyOf(id))];
      ReplayedOne(old(contents), DeleteOp(KeyOf(id)));
      removed := true;
    }

    method Clear() returns (ghost delta: seq<RawOp>)
      requires Valid()
      modifies this, dbi
      ensures Valid() && contents == map[] && delta == [ClearTableOp]
      ensures log == old(log) + delta && contents == ReplayedAll(old(contents), delta)
    {
      dbi.Drop();
      contents, log := map[], log + [ClearTableOp];
      delta := [ClearTableOp];
      ReplayedOne(old(contents), ClearTableOp);
    }

    /** db_range: exactly the stored ids of the interval, ascending, holes skipped. */
    method Range(from: uint64, to: uint64) returns (out: seq<(nat, Bytes)>)
      requires Valid()
      ensures forall i, j :: 0 <= i < j < |out| ==> out[i].0 < out[j].0
      ensures forall i :: 0 <= i < |out| ==>
                from <= out[i].0 <= to && KeyOf(out[i].0) in contents && contents[KeyOf(out[i].0)] == out[i].1
      ensures forall id: uint64 :: from <= id <= to && KeyOf(id) in contents ==> (id, contents[KeyOf(id)]) in out
    {
      hide KeyOf, IdOf, Holds, IdKeys, RangeStart, RangeEnd, KeyLess;
      if from > to { return []; }
      var s := Forward(dbi.flags, dbi.entries, KeyOf(from), KeyOf(to));
      RangeSize(dbi.flags, dbi.entries, KeyOf(from), KeyOf(to));
      out := seq(|s|, i requires 0 <= i < |s| => (IdOf(s[i]), s[i].val));
      forall i, j | 0 <= i < j < |out| ensures out[i].0 < out[j].0 {
        var lo := RangeStart(dbi.flags.order, dbi.entries, KeyOf(from));
        Ascending(dbi.flags, dbi.entries, lo + i, lo + j);
      }
      forall i | 0 <= i < |out|
        ensures from <= out[i].0 <= to && KeyOf(out[i].0) in contents && contents[KeyOf(out[i].0)] == out[i].1
      {
        RangeMember(from, to, s, i);
      }
      forall id: uint64 | from <= id <= to && KeyOf(id) in contents ensures (id, contents[KeyOf(id)]) in out {
        var i := RangeIndex(from, to, s, id);
        assert out[i] == (id, contents[KeyOf(id)]);
      }
    }

    lemma RangeMember(from: uint64, to: uint64, s: seq<Entry>, i: nat)
      requires Valid() && s == RangeEntries(dbi.flags, dbi.entries, KeyOf(from), KeyOf(to)) && i < |s|
      ensures from <= IdOf(s[i]) <= to
      ensures KeyOf(IdOf(s[i])) in contents && contents[KeyOf(IdOf(s[i]))] == s[i].val
    {
      RangeBounds(dbi.flags, dbi.entries, KeyOf(from), KeyOf(to));
      var lo := RangeStart(dbi.flags.order, dbi.entries, KeyOf(from));
      assert s[i] == dbi.entries[lo + i];
      assert dbi.entries[lo + i] in dbi.entries;
      IdKey(s[i]);
      RangeIds(from, to, s[i]);
    }

    lemma RangeIds(from: uint64, to: uint64, e: Entry)
      requires dbi.flags.order == INTEGER_KEY && |e.key| == 8
      ensures InRange(dbi.flags.order, KeyOf(from), KeyOf(to), e.key) <==> from <= IdOf(e) <= to
    {
      IdRoundTrip(from, []);
      IdRoundTrip(to, []);
      IdOrder(dbi.flags.order, e, Entry(KeyOf(from), []));
      IdOrder(dbi.flags.order, Entry(KeyOf(to), []), e);
    }

    lemma RangeIndex(from: uint64, to: uint64, s: seq<Entry>, id: uint64) returns (i: nat)
      requires Valid() && s == RangeEntries(dbi.flags, dbi.entries, KeyOf(from), KeyOf(to))
      requires from <= id <= to && KeyOf(id) in contents
      ensures i < |s| && s[i] == Entry(KeyOf(id), contents[KeyOf(id)]) && IdOf(s[i]) == id
    {
      hide KeyLess, RangeStart, RangeEnd, InRange, Sorted, LittleEndian, LittleEndianValue;
      var e := Entry(KeyOf(id), contents[KeyOf(id)]);
      assert e in dbi.entries;
      var j :| 0 <= j < |dbi.entries| && dbi.entries[j] == e;
      IdRoundTrip(id, e.val);
      RangeIds(from, to, e);
      RangeSize(dbi.flags, dbi.entries, KeyOf(from), KeyOf(to));
      InsideAt(dbi.flags, dbi.entries, KeyOf(from), KeyOf(to), j);
      i := j - RangeStart(dbi.flags.order, dbi.entries, KeyOf(from));
    }
  }
}
