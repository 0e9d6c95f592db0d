/** KeyMultiValueTable: a persisted multiset of pairs over one DUPSORT DBI, with the
    logical change stream it records. */
module KeyMultiValue {
  import opened ByteStrings
  import opened OrderedStore
  import opened RangeScan
  import opened Prefixed
  import opened PairLog
  import opened PairReconcile
  import DupScan

  datatype InsertResult = Inserted | SequenceExhausted | TooLarge

  class KeyMultiValueTable {
    const dbi: Dbi
    /** Config::max_dupsort_value_size; no limit when not positive. */
    const limit: int
    /** A logical capture is bound to the DBI. */
    const captured: bool
    var log: seq<LogicalOp>

    ghost predicate Valid()
      reads this, dbi
    {
      dbi.flags.dupsort && dbi.Valid() && WellFormed(dbi.entries)
    }

    /** The pairs stored, each with its multiplicity. */
    ghost function Contents(): multiset<Pair>
      reads this, dbi
    {
      PairSet(dbi.entries)
    }

    constructor (order: KeyOrder, limit: int, captured: bool)
      ensures Valid() && fresh(dbi) && dbi.flags.order == order && dbi.entries == []
      ensures this.limit == limit && this.captured == captured && log == []
    {
      dbi := new Dbi(DbiFlags(order, true));
      this.limit := limit;
      this.captured := captured;
      log := [];
    }

    /** The changes `delta` were recorded after `before`, if anything is recorded. */
    ghost predicate Logged(before: seq<LogicalOp>, delta: seq<LogicalOp>)
      reads this
    {
      log == if captured then before + delta else before
    }

    /** `delta` was recorded since `before`, and replayed over `base` it gives the table. */
    ghost predicate Told(before: seq<LogicalOp>, base: multiset<Pair>, delta: seq<LogicalOp>)
      reads this, dbi
    {
      Logged(before, delta) && Contents() == AppliedAll(base, delta)
    }

    method Record(op: LogicalOp)
      modifies this`log
      ensures log == if captured then old(log) + [op] else old(log)
    {
      if captured { log := log + [op]; }
    }

    // -------------------------------------------------------------- reading

    method Find(key: Bytes) returns (values: seq<Bytes>)
      requires Valid()
      ensures values == RawValues(KeyEntries(dbi.entries, key))
    {
      values := DupScan.FindValues(dbi, key);
    }

    method CountPair(key: Bytes, value: Bytes) returns (found: nat)
      requires Valid()
      ensures found == Contents()[(key, value)]
    {
      found := DupScan.CountPair(dbi, key, value);
    }

    /** range_vector. */
    method Range(from: Bytes, to: Bytes) returns (pairs: seq<Pair>)
      requires Valid()
      ensures pairs == Pairs(FilterRange(dbi.flags.order, dbi.entries, from, to))
    {
      var entries := Forward(dbi.flags, dbi.entries, from, to);
      pairs := Pairs(entries);
    }

    /** The seek that starts a reverse scan: past the end, above the bound, or on a
        key with many duplicates, it lands on the last entry of the range. */
    method ReverseStart(from: Bytes, to: Bytes) returns (cursor: Cursor)
      requires Valid() && !KeyLess(dbi.flags.order, to, from)
      ensures cursor == Land(dbi.entries, RangeEnd(dbi.flags.order, dbi.entries, from, to) - 1)
    {
      var o := dbi.flags.order;
      Bounds(dbi.flags, dbi.entries, to);
      cursor := SetRange(o, dbi.entries, to);
      if !cursor.At? {
        cursor := Last(dbi.entries);
      } else if KeyLess(o, to, dbi.entries[cursor.index].key) {
        cursor := Prev(dbi.entries, cursor);
      } else {
        KeyTotal(o, to, dbi.entries[cursor.index].key);
        cursor := LastDup(o, dbi.entries, cursor);
      }
    }

    /** range_reverse, with and without a limit: the exact reversal of range_vector,
        or its first `limit` pairs. */
    method RangeReverse(from: Bytes, to: Bytes, limit: Option<nat>) returns (pairs: seq<Pair>)
      requires Valid()
      ensures var r := Reversed(Pairs(FilterRange(dbi.flags.order, dbi.entries, from, to)));
              pairs == if limit.Some? && limit.value < |r| then r[..limit.value] else r
    {
      if limit == Some(0) { return []; }
      RangeExact(dbi.flags, dbi.entries, from, to);
      ghost var range := RangeEntries(dbi.flags, dbi.entries, from, to);
      PairsReversed(range);
      if KeyLess(dbi.flags.order, to, from) { return []; }
      var cursor := ReverseStart(from, to);
      var entries := Backward(dbi.flags, dbi.entries, cursor, from, to, limit);
      pairs := Pairs(entries);
    }

    method LowerBound(key: Bytes) returns (r: Option<Pair>)
      requires Valid()
      ensures r.None? <==> forall e :: e in dbi.entries ==> KeyLess(dbi.flags.order, e.key, key)
      ensures r.Some? ==> exists i :: 0 <= i < |dbi.entries| && r.value == PairOf(dbi.entries[i])
                                      && !KeyLess(dbi.flags.order, dbi.entries[i].key, key)
                                      && forall j :: 0 <= j < i ==> KeyLess(dbi.flags.order, dbi.entries[j].key, key)
    {
      var cursor := SetRange(dbi.flags.order, dbi.entries, key);
      if cursor.At? { assert dbi.entries[cursor.index] in dbi.entries; }
      r := if cursor.At? then Some(PairOf(dbi.entries[cursor.index])) else None;
    }

    /** upper_bound: NEXT_NODUP steps over every duplicate of an exact match. */
    method UpperBound(key: Bytes) returns (r: Option<Pair>)
      requires Valid()
      ensures r.None? <==> forall e :: e in dbi.entries ==> !KeyLess(dbi.flags.order, key, e.key)
      ensures r.Some? ==> exists i :: 0 <= i < |dbi.entries| && r.value == PairOf(dbi.entries[i])
                                      && KeyLess(dbi.flags.order, key, dbi.entries[i].key)
                                      && forall j :: 0 <= j < i ==> !KeyLess(dbi.flags.order, key, dbi.entries[j].key)
    {
      var o := dbi.flags.order;
      Bounds(dbi.flags, dbi.entries, key);
      var cursor := SetRange(o, dbi.entries, key);
      if cursor.At? && dbi.entries[cursor.index].key == key {
        cursor := NextNoDup(o, dbi.entries, cursor);
      }
      assert cursor == Land(dbi.entries, UpperIndex(o, dbi.entries, key)) by {
        var lo := LowerIndex(o, dbi.entries, key);
        if lo < |dbi.entries| { KeyTotal(o, dbi.entries[lo].key, key); }
      }
      if cursor.At? { assert dbi.entries[cursor.index] in dbi.entries; }
      r := if cursor.At? then Some(PairOf(dbi.entries[cursor.index])) else None;
    }

    // -------------------------------------------------------------- writing

    /** An insert of the pair would be refused: the key holds the largest sequence number,
        or the stored value would pass the size limit. */
    ghost predicate Refuses(key: Bytes, value: Bytes)
      reads this, dbi
    {
      Refused(limit, dbi.entries, (key, value))
    }

    static lemma InsertPlace(f: DbiFlags, s: seq<Entry>, e: Entry)
      requires Sorted(f, s) && PrefixOf(e) <= Used(s)
      ensures var u := UpperIndex(f.order, s, e.key);
              && u <= |s|
              && PairSet(s[..u] + [e] + s[u..]) == PairSet(s) + multiset{PairOf(e)}
              && Used(s[..u] + [e] + s[u..]) <= Used(s) + 1
    {
      hide Used, PairSet, UpperIndex, LowerIndex, Sorted, KeyLess;
      OutsideRun(f, s, e.key);
      PairSetInsert(s, UpperIndex(f.order, s, e.key), e);
      UsedInsert(s, UpperIndex(f.order, s, e.key), e);
    }

    /** db_insert: the pair goes after every stored pair of its key. */
    method Insert(key: Bytes, value: Bytes) returns (r: InsertResult, ghost e: Entry, ghost delta: seq<LogicalOp>)
      requires Valid()
      modifies this`log, dbi
      ensures Valid()
      ensures r.SequenceExhausted? <==>
                exists x :: x in old(dbi.entries) && x.key == key && PrefixOf(x) == MAX_UINT64
      ensures r.TooLarge? <==> !r.SequenceExhausted? && limit > 0 && 8 + |value| > limit
      ensures r.Inserted? <==> !old(Refuses(key, value))
      ensures !r.Inserted? ==> dbi.entries == old(dbi.entries) && delta == []
      ensures r.Inserted? ==> e.key == key && PairOf(e) == (key, value) && Above(old(dbi.entries), key, PrefixOf(e))
      ensures r.Inserted? && PrefixOf(e) > 0 ==>
                exists x :: x in old(dbi.entries) && x.key == key && PrefixOf(x) == PrefixOf(e) - 1
      ensures r.Inserted? ==> var u := UpperIndex(dbi.flags.order, old(dbi.entries), key);
                              dbi.entries == old(dbi.entries)[..u] + [e] + old(dbi.entries)[u..]
      ensures r.Inserted? ==> delta == [InsertOne(key, value)]
      ensures Used(dbi.entries) <= Used(old(dbi.entries)) + 1
      ensures log == (if captured then old(log) + delta else old(log)) && Contents() == AppliedAll(old(Contents()), delta)
    {
      hide Used, PairSet, AppliedAll, UpperIndex, KeyLess, Sorted, Stored, PrefixOf, PairOf;
      delta := [];
      AppliedNone(Contents());
      e := Entry(key, []);
      var sequence := NextPrefix(dbi.flags, dbi.entries, key);
      if sequence.None? { return SequenceExhausted, e, delta; }
      var stored := MakeStored(sequence.value, value);
      if limit > 0 && |stored| > limit { return TooLarge, e, delta; }
      e := Entry(key, stored);
      AppendPosition(dbi.flags, dbi.entries, key, sequence.value, value);
      StoredParts(key, sequence.value, value);
      var rc := dbi.PutDup(key, stored, Upsert);
      InsertPlace(dbi.flags, old(dbi.entries), e);
      Record(InsertOne(key, value));
      delta := [InsertOne(key, value)];
      r := Inserted;
    }

    /** db_append: inserts in order; a refused pair stops the call there. */
    method AppendAll(pairs: seq<Pair>) returns (n: nat, ghost added: seq<Entry>, ghost delta: seq<LogicalOp>)
      requires Valid()
      modifies this`log, dbi
      ensures Valid()
      ensures n <= |pairs| && delta == InsertOps(pairs[..n])
      ensures Pairs(added) == pairs[..n]
      ensures forall k {:trigger KeyEntries(dbi.entries, k)} ::
                KeyEntries(dbi.entries, k) == KeyEntries(old(dbi.entries), k) + KeyEntries(added, k)
      ensures n < |pairs| ==> Refuses(pairs[n].0, pairs[n].1)
      ensures Used(dbi.entries) <= Used(old(dbi.entries)) + n
      ensures log == (if captured then old(log) + delta else old(log)) && Contents() == AppliedAll(old(Contents()), delta)
    {
      hide PairSet, WellFormed, Told, PrefixOf, UpperIndex, InsertOps, Used, Refused, PairOf, Extends, KeyEntries;
      delta, n, added := [], 0, [];
      NothingTold();
      OpsNone(pairs);
      ExtendsNone(dbi.entries);
      while n < |pairs|
        invariant Valid()
        invariant n <= |pairs| && delta == InsertOps(pairs[..n])
        invariant Pairs(added) == pairs[..n] && Extends(dbi.entries, old(dbi.entries), added)
        invariant Used(dbi.entries) <= Used(old(dbi.entries)) + n
        invariant Told(old(log), old(Contents()), delta)
      {
        ghost var s := dbi.entries;
        var r; ghost var e;
        r, e, delta := InsertTold(pairs[n], old(log), old(Contents()), delta);
        if !r.Inserted? { break; }
        ExtendsStep(dbi.flags, s, old(dbi.entries), added, e);
        SliceSnoc(pairs, 0, n);
        OpsSnoc(pairs[..n], pairs[n]);
        added, n := added + [e], n + 1;
      }
      Reported(old(log), old(Contents()), delta);
      ExtendsMeans(dbi.entries, old(dbi.entries), added);
    }

    static lemma OpsNone(pairs: seq<Pair>)
      ensures InsertOps(pairs[..0]) == []
    {
    }

    /** db_erase_key. */
    method EraseAllOf(key: Bytes) returns (removed: bool, ghost delta: seq<LogicalOp>)
      requires Valid()
      modifies this`log, dbi
      ensures Valid()
      ensures removed <==> exists e :: e in old(dbi.entries) && e.key == key
      ensures forall e :: e in dbi.entries <==> e in old(dbi.entries) && e.key != key
      ensures delta == if removed then [EraseKey(key)] else []
      ensures log == (if captured then old(log) + delta else old(log)) && Contents() == AppliedAll(old(Contents()), delta)
    {
      hide PairSet, AppliedAll, DropKey, LowerIndex, UpperIndex, KeyLess, Sorted;
      delta := [];
      AppliedNone(Contents());
      CutKeyPairs(dbi.flags, dbi.entries, key);
      var rc := dbi.DelKey(key);
      WellFormedSub(old(dbi.entries), dbi.entries);
      if rc == NotFound { return false, delta; }
      Record(EraseKey(key));
      delta := [EraseKey(key)];
      removed := true;
    }

    /** db_erase_pair: every equal value of the key, deleting under the cursor. */
    method ErasePair(key: Bytes, value: Bytes) returns (removed: nat, ghost delta: seq<LogicalOp>)
      requires Valid()
      modifies this`log, dbi
      ensures Valid()
      ensures dbi.entries == Without(old(dbi.entries), (key, value))
      ensures forall e :: e in dbi.entries ==> e in old(dbi.entries)
      ensures removed == old(Contents())[(key, value)]
      ensures delta == if removed > 0 then [EraseAllValues(key, value)] else []
      ensures log == (if captured then old(log) + delta else old(log)) && Contents() == AppliedAll(old(Contents()), delta)
    {
      removed := DupScan.ErasePair(dbi, key, value);
      WithoutPairs(old(dbi.entries), (key, value));
      WellFormedSub(old(dbi.entries), dbi.entries);
      delta := [];
      if removed != 0 {
        Record(EraseAllValues(key, value));
        delta := [EraseAllValues(key, value)];
        AppliedSnoc(old(Contents()), [], EraseAllValues(key, value));
      } else {
        assert old(Contents())[(key, value) := 0] == old(Contents());
      }
    }

    /** db_erase_one_pair: the first equal value of the key. */
    method EraseOne(key: Bytes, value: Bytes) returns (removed: bool, ghost delta: seq<LogicalOp>)
      requires Valid()
      modifies this`log, dbi
      ensures Valid()
      ensures removed <==> (key, value) in old(Contents())
      ensures !removed ==> dbi.entries == old(dbi.entries)
      ensures removed ==> exists i :: 0 <= i < |old(dbi.entries)| && PairOf(old(dbi.entries)[i]) == (key, value)
                                      && (key, value) !in Pairs(old(dbi.entries)[..i])
                                      && dbi.entries == RemoveAt(old(dbi.entries), i)
      ensures forall e :: e in dbi.entries ==> e in old(dbi.entries)
      ensures delta == if removed then [EraseOneValue(key, value)] else []
      ensures log == (if captured then old(log) + delta else old(log)) && Contents() == AppliedAll(old(Contents()), delta)
    {
      hide PairSet, AppliedAll, RemoveAt, Sorted;
      ghost var s := dbi.entries;
      AppliedNone(Contents());
      delta := [];
      var cursor := DupScan.FindPair(dbi.flags, dbi.entries, key, value);
      if !cursor.At? { return false, delta; }
      PairSetRemove(s, cursor.index);
      RemovedFrom(s, cursor.index);
      cursor := dbi.CursorDel(cursor);
      WellFormedSub(s, dbi.entries);
      Record(EraseOneValue(key, value));
      delta := [EraseOneValue(key, value)];
      removed := true;
    }

    static lemma RemovedFrom(s: seq<Entry>, i: nat)
      requires i < |s|
      ensures forall e :: e in RemoveAt(s, i) ==> e in s
    {
    }

    /** erase_range: refused on a captured table; otherwise exactly the range goes and
        the count is what count_range would have said. */
    method EraseRange(from: Bytes, to: Bytes) returns (removed: Option<nat>)
      requires Valid()
      modifies dbi
      ensures Valid()
      ensures removed.None? <==> captured
      ensures captured ==> dbi.entries == old(dbi.entries)
      ensures !captured ==>
                && dbi.entries == OutsideRange(dbi.flags.order, old(dbi.entries), from, to)
                && removed == Some(|RangeEntries(dbi.flags, old(dbi.entries), from, to)|)
    {
      if captured { return None; }
      var count := CutRange(dbi, from, to);
      WellFormedSub(old(dbi.entries), dbi.entries);
      removed := Some(count);
    }

    method Clear() returns (ghost delta: seq<LogicalOp>)
      requires Valid()
      modifies this`log, dbi
      ensures Valid() && dbi.entries == [] && delta == [ClearAll]
      ensures log == (if captured then old(log) + delta else old(log)) && Contents() == AppliedAll(old(Contents()), delta)
    {
      dbi.Drop();
      Record(ClearAll);
      delta := [ClearAll];
      AppliedSnoc(old(Contents()), [], ClearAll);
      assert Pairs([]) == [];
    }

    // -------------------------------------------------------------- reconcile

    /** The deleting scan of db_reconcile_impl: the earliest wanted copies stay, with
        their prefixes, and every other record is deleted and recorded. */
    method EraseSurplus(desired: PairCounts, ghost want: multiset<Pair>)
      returns (kept: PairCounts, ghost delta: seq<LogicalOp>)
      requires Valid() && Counts(desired, want)
      modifies this`log, dbi
      ensures Valid()
      ensures dbi.entries == Survivors(old(dbi.entries), want)
      ensures Counts(kept, Contents())
      ensures delta == EraseOps(Pairs(Surplus(old(dbi.entries), want)))
      ensures |delta| == |old(dbi.entries)| - |dbi.entries|
      ensures log == (if captured then old(log) + delta else old(log)) && Contents() == AppliedAll(old(Contents()), delta)
    {
      hide Survivors, Surplus, EraseOps, Pairs, PairSet, Told, Counts, RemoveAt, WellFormed, Sorted, PairOf, Incremented, CountIn;
      ghost var s := dbi.entries;
      ghost var i, front := 0, [];
      SurvivorsStart(s, want);
      kept, delta := map[], [];
      NothingTold();
      NoCounts();
      var cursor := Next(dbi.entries, Unset);
      while cursor.At?
        invariant dbi.Valid() && i <= |s|
        invariant front == Survivors(s[..i], want) && dbi.entries == front + s[i..]
        invariant cursor == Land(dbi.entries, |front|)
        invariant Counts(kept, PairSet(front))
        invariant |delta| + |front| == i && delta == EraseOps(Pairs(Surplus(s[..i], want)))
        invariant Told(old(log), old(Contents()), delta)
        decreases |s| - i
      {
        DropStep(front, s, i);
        var p := PairOf(dbi.entries[cursor.index]);
        KeepDecision(s, i, want, desired, kept);
        if p in desired && CountIn(kept, p) < desired[p] {
          CountsIncremented(kept, PairSet(front), p);
          PairSetOne(front, s[i]);
          kept := Incremented(kept, p);
          front := front + [s[i]];
        } else {
          cursor, delta := DropRecord(cursor, old(log), old(Contents()), delta);
        }
        cursor := Next(dbi.entries, cursor);
        i := i + 1;
      }
      assert s[..i] == s && front + s[i..] == front;
      SurvivorsPairs(s, want);
      WellFormedSub(s, dbi.entries);
      Reported(old(log), old(Contents()), delta);
    }

    lemma Reported(before: seq<LogicalOp>, base: multiset<Pair>, delta: seq<LogicalOp>)
      requires Told(before, base, delta)
      ensures Logged(before, delta) && Contents() == AppliedAll(base, delta)
    {
    }

    /** Delete the record under the cursor and record the pair it showed. */
    method DropRecord(cursor: Cursor, ghost before: seq<LogicalOp>, ghost base: multiset<Pair>, ghost delta: seq<LogicalOp>)
      returns (cursor': Cursor, ghost delta': seq<LogicalOp>)
      requires dbi.Valid() && cursor.At? && cursor.index < |dbi.entries| && Told(before, base, delta)
      modifies this`log, dbi
      ensures dbi.Valid() && dbi.entries == RemoveAt(old(dbi.entries), cursor.index)
      ensures cursor'.Erased? && cursor'.index == cursor.index
      ensures Told(before, base, delta')
      ensures var p := PairOf(old(dbi.entries)[cursor.index]); delta' == delta + [EraseOneValue(p.0, p.1)]
    {
      hide PairSet, AppliedAll;
      var p := PairOf(dbi.entries[cursor.index]);
      PairSetRemove(dbi.entries, cursor.index);
      cursor' := dbi.CursorDel(cursor);
      var op := EraseOneValue(p.0, p.1);
      Record(op);
      ConcatAssoc(before, delta, [op]);
      AppliedSnoc(base, delta, op);
      delta' := delta + [op];
    }

    lemma NothingTold()
      ensures Told(log, Contents(), [])
    {
      AppliedNone(Contents());
    }

    static lemma SurvivorsStart(s: seq<Entry>, want: multiset<Pair>)
      ensures Survivors(s[..0], want) == [] && [] + s[0..] == s
      ensures EraseOps(Pairs(Surplus(s[..0], want))) == []
    {
      assert s[..0] == [];
    }

    static lemma NoCounts()
      ensures Counts(map[], PairSet([]))
    {
      assert Pairs([]) == [];
    }

    static lemma PairSetOne(front: seq<Entry>, e: Entry)
      ensures PairSet(front + [e]) == PairSet(front) + multiset{PairOf(e)}
    {
      PairSetConcat(front, [e]);
      assert Pairs([e]) == [PairOf(e)];
    }

    static lemma DropStep(front: seq<Entry>, s: seq<Entry>, i: nat)
      requires i < |s|
      ensures (front + s[i..])[|front|] == s[i]
      ensures RemoveAt(front + s[i..], |front|) == front + s[i + 1..]
      ensures front + s[i..] == (front + [s[i]]) + s[i + 1..]
    {
      assert s[i..] == [s[i]] + s[i + 1..];
    }

    /** The count maps decide as the copies stored before decide. */
    static lemma KeepDecision(s: seq<Entry>, i: nat, want: multiset<Pair>, desired: PairCounts, kept: PairCounts)
      requires i < |s| && Counts(desired, want) && Counts(kept, PairSet(Survivors(s[..i], want)))
      ensures var p := PairOf(s[i]);
              var keep := p in desired && CountIn(kept, p) < desired[p];
              Survivors(s[..i + 1], want) ==
              if keep then Survivors(s[..i], want) + [s[i]] else Survivors(s[..i], want)
      ensures var p := PairOf(s[i]);
              var keep := p in desired && CountIn(kept, p) < desired[p];
              var erased := EraseOps(Pairs(Surplus(s[..i], want)));
              EraseOps(Pairs(Surplus(s[..i + 1], want))) == if keep then erased else erased + [EraseOneValue(p.0, p.1)]
    {
      var p := PairOf(s[i]);
      SurvivorsSnoc(s, i, want);
      SurplusSnoc(s, i, want);
      PairsConcat(Surplus(s[..i], want), [s[i]]);
      assert Pairs([s[i]]) == [p];
      OpsSnoc(Pairs(Surplus(s[..i], want)), p);
      SurvivorsPairs(s[..i], want);
      assert CountIn(desired, p) == want[p];
      assert CountIn(kept, p) == (PairSet(s[..i]) * want)[p];
    }

    /** The inserting loop of db_reconcile_impl. */
    method InsertMissing(src: seq<Pair>, desired: PairCounts, kept: PairCounts)
      returns (r: InsertResult, n: nat, ghost added: seq<Entry>, ghost delta: seq<LogicalOp>)
      requires Valid() && Counts(desired, multiset(src)) && Counts(kept, Contents()) && Contents() <= multiset(src)
      modifies this`log, dbi
      ensures Valid()
      ensures n <= |src| && (r.Inserted? ==> n == |src|)
      ensures !r.Inserted? ==> n < |src| && Refuses(src[n].0, src[n].1)
      ensures Pairs(added) == Missing(src[..n], old(Contents()), multiset(src))
      ensures Extends(dbi.entries, old(dbi.entries), added)
      ensures Contents() == old(Contents()) + multiset(Pairs(added))
      ensures delta == InsertOps(Pairs(added)) && Used(dbi.entries) <= Used(old(dbi.entries)) + n
      ensures log == (if captured then old(log) + delta else old(log)) && Contents() == AppliedAll(old(Contents()), delta)
    {
      hide Missing, PairSet, Told, Counts, Extends, WellFormed, KeyLess, UpperIndex, PairOf, PrefixOf, Incremented,
        CountIn, InsertOps, Used, Refused;
      ghost var have, want := Contents(), multiset(src);
      var inserted: PairCounts := map[];
      n, added, delta := 0, [], [];
      MissingStart(src, have, want);
      ExtendsNone(dbi.entries);
      NothingTold();
      for i := 0 to |src|
        invariant Valid() && n == i
        invariant Counts(inserted, multiset(Pairs(added)))
        invariant Pairs(added) == Missing(src[..i], have, want)
        invariant Extends(dbi.entries, old(dbi.entries), added)
        invariant Contents() == have + multiset(Pairs(added))
        invariant Told(old(log), have, delta)
        invariant delta == InsertOps(Pairs(added)) && Used(dbi.entries) <= Used(old(dbi.entries)) + n
      {
        var p := src[i];
        InsertDecision(src, i, have, desired, kept, inserted);
        if CountIn(kept, p) + CountIn(inserted, p) < CountIn(desired, p) {
          ghost var before := dbi.entries;
          var put; ghost var e;
          put, e, delta := InsertTold(p, old(log), have, delta);
          if !put.Inserted? {
            Reported(old(log), have, delta);
            return put, n, added, delta;
          }
          ExtendsStep(dbi.flags, before, old(dbi.entries), added, e);
          AddedStep(added, e, inserted);
          inserted := Incremented(inserted, p);
          added := added + [e];
        }
        n := n + 1;
      }
      Reported(old(log), have, delta);
      r := Inserted;
    }

    /** Insert, with what it recorded put after what was told already. */
    method InsertTold(p: Pair, ghost before: seq<LogicalOp>, ghost base: multiset<Pair>, ghost delta: seq<LogicalOp>)
      returns (r: InsertResult, ghost e: Entry, ghost delta': seq<LogicalOp>)
      requires Valid() && Told(before, base, delta)
      modifies this`log, dbi
      ensures Valid() && Told(before, base, delta') && Used(dbi.entries) <= Used(old(dbi.entries)) + 1
      ensures !r.Inserted? ==> dbi.entries == old(dbi.entries) && Refuses(p.0, p.1) && delta' == delta
      ensures r.Inserted? ==> delta' == delta + [InsertOne(p.0, p.1)]
      ensures r.Inserted? ==> PairOf(e) == p && Above(old(dbi.entries), e.key, PrefixOf(e))
      ensures r.Inserted? ==> var u := UpperIndex(dbi.flags.order, old(dbi.entries), e.key);
                              dbi.entries == old(dbi.entries)[..u] + [e] + old(dbi.entries)[u..]
      ensures r.Inserted? ==> Contents() == old(Contents()) + multiset{p}
    {
      hide PairSet, AppliedAll, WellFormed, UpperIndex, PairOf, PrefixOf;
      ghost var step;
      r, e, step := Insert(p.0, p.1);
      ConcatAssoc(before, delta, step);
      AppliedConcat(base, delta, step);
      OneInsert(AppliedAll(base, delta), p);
      delta' := delta + step;
    }

    static lemma OneInsert(m: multiset<Pair>, p: Pair)
      ensures AppliedAll(m, [InsertOne(p.0, p.1)]) == m + multiset{p}
    {
      AppliedNone(m);
    }

    static lemma MissingStart(src: seq<Pair>, have: multiset<Pair>, want: multiset<Pair>)
      ensures Missing(src[..0], have, want) == [] == Pairs([]) && InsertOps(Pairs([])) == []
      ensures Counts(map[], multiset(Pairs([])))
    {
      assert src[..0] == [];
    }

    static lemma AddedStep(added: seq<Entry>, e: Entry, inserted: PairCounts)
      requires Counts(inserted, multiset(Pairs(added)))
      ensures Pairs(added + [e]) == Pairs(added) + [PairOf(e)]
      ensures multiset(Pairs(added + [e])) == multiset(Pairs(added)) + multiset{PairOf(e)}
      ensures Counts(Incremented(inserted, PairOf(e)), multiset(Pairs(added + [e])))
      ensures InsertOps(Pairs(added + [e])) == InsertOps(Pairs(added)) + [InsertOne(PairOf(e).0, PairOf(e).1)]
    {
      OpsSnoc(Pairs(added), PairOf(e));
      PairsConcat(added, [e]);
      assert Pairs([e]) == [PairOf(e)];
      CountsIncremented(inserted, multiset(Pairs(added)), PairOf(e));
    }

    /** reconcile: afterwards the table holds exactly the source's pairs. The earliest
        wanted copies of each pair stay where they are, new copies follow them in source
        order, and no pair is removed or added that need not be. A refused pair stops it
        there: n source pairs have been dealt with. */
    method Reconcile(src: seq<Pair>)
      returns (r: InsertResult, n: nat, ghost removed: nat, ghost added: seq<Entry>, ghost delta: seq<LogicalOp>)
      requires Valid()
      modifies this`log, dbi
      ensures Valid()
      ensures n <= |src| && (r.Inserted? <==> n == |src|)
      ensures log == (if captured then old(log) + delta else old(log)) && Contents() == AppliedAll(old(Contents()), delta)
      ensures delta == EraseOps(Pairs(Surplus(old(dbi.entries), multiset(src)))) + InsertOps(Pairs(added))
      ensures Extends(dbi.entries, Survivors(old(dbi.entries), multiset(src)), added)
      ensures Pairs(added) == Missing(src[..n], old(Contents()) * multiset(src), multiset(src))
      ensures Contents() == old(Contents()) * multiset(src) + multiset(Pairs(added))
      ensures removed == |old(Contents()) - multiset(src)|
      ensures n < |src| ==> Refuses(src[n].0, src[n].1)
      ensures Used(dbi.entries) <= Used(old(dbi.entries)) + n
      ensures r.Inserted? ==> Contents() == multiset(src) && |added| == |multiset(src) - old(Contents())|
    {
      hide Missing, AppliedAll, Counts, Extends, WellFormed, Survivors, Surplus, EraseOps, InsertOps, PairSet, Used, Refused;
      ghost var stored, want := Contents(), multiset(src);
      var desired := CollectDesired(src);
      var kept; ghost var erased, put;
      kept, erased := EraseSurplus(desired, want);
      SurvivorsPairs(old(dbi.entries), want);
      UsedSub(old(dbi.entries), dbi.entries);
      SurplusSize(old(dbi.entries), want);
      removed := |erased|;
      r, n, added, put := InsertMissing(src, desired, kept);
      ConcatAssoc(old(log), erased, put);
      AppliedConcat(stored, erased, put);
      delta := erased + put;
      ReconciledPairs(stored, src);
      assert src[..|src|] == src;
    }
  }
}
