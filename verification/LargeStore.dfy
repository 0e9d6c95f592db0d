/** HashedKeyValueStore, LargeValues layout: a record table and a DUPSORT hash
    index that must never disagree with it. */
module LargeStore {
  import opened ByteStrings
  import opened OrderedStore
  import opened HashedRecords
  import opened LargeAgreement

  /** What a call can answer besides success: the bucket has no ordinal left; the configured
      duplicate-size limit does not even admit the eight-byte index entry; the record key a
      new record needs is taken; an index entry is missing; a record or its key is not one.
      The last three are for stores whose two DBIs have come apart. */
  datatype Result<+T> =
    | Ok(value: T)
    | OrdinalExhausted
    | IndexEntryTooLarge
    | RecordKeyTaken
    | IndexEntryMissing
    | Corrupted

  /** The same failure of another call. */
  function Failure<T, U>(r: Result<T>): Result<U>
    requires !r.Ok?
  {
    match r
    case OrdinalExhausted => OrdinalExhausted
    case IndexEntryTooLarge => IndexEntryTooLarge
    case RecordKeyTaken => RecordKeyTaken
    case IndexEntryMissing => IndexEntryMissing
    case Corrupted => Corrupted
  }

  // ---------------------------------------------------------------- the store

  class LargeValuesStore {
    const records: Dbi
    const index: Dbi
    const hash: Hasher
    /** Config::max_dupsort_value_size; no limit when not positive. */
    const limit: int
    /** The plain map this store stands for, where in its bucket each key lives,
        and a bound on every ordinal handed out since the store was created. */
    ghost var view: map<KeyBytes, Bytes>
    ghost var ordinal: map<KeyBytes, uint64>
    ghost var issued: nat

    /** Two DBIs of the right kinds. */
    ghost predicate Wired()
      reads this, records, index
    {
      && records != index
      && !records.flags.dupsort && index.flags.dupsort
      && records.Valid() && index.Valid()
    }

    /** Every key of the map is stored and indexed, and nothing else is indexed. */
    ghost predicate Indexed()
      reads this, records, index
    {
      && Wired()
      && view.Keys == ordinal.Keys
      && Covered(hash, records.entries, index.entries, view, ordinal)
      && forall k :: k in ordinal ==> ordinal[k] < issued
    }

    lemma IndexedIsWired()
      requires Indexed()
      ensures Wired()
    {
    }

    /** The two DBIs agree: besides, no other record is stored. */
    ghost predicate Valid()
      reads this, records, index
    {
      Indexed() && RecordsOwned(hash, records.entries, view, ordinal)
    }

    /** A record of a key the map does not have, right where the bucket's next record goes. */
    ghost predicate Orphaned(key: KeyBytes, value: Bytes, o: uint64)
      reads this, records, index
    {
      Indexed() && OrphanIn(hash, records.entries, view, ordinal, key, value, o)
    }

    /** The record key the bucket's next record needs is in use. */
    ghost predicate SlotTaken(h: uint64)
      reads this, records
    {
      exists o: uint64, e :: NextFree(hash, ordinal, h, o) && e in records.entries && e.key == RecordKey(h, o)
    }

    lemma OrphanTakesSlot(key: KeyBytes, value: Bytes, o: uint64)
      requires Orphaned(key, value, o)
      ensures SlotTaken(hash(key)) && !BucketExhausted(hash(key)) && !Valid()
    {
      hide Covered;
      assert RecordEntry(hash, key, value, o).key == RecordKey(hash(key), o);
      NobodysRecord(hash, view, ordinal, key, value, o);
      NotExhausted(key, o);
    }

    lemma NotExhausted(key: KeyBytes, o: uint64)
      requires Indexed() && NextFree(hash, ordinal, hash(key), o)
      ensures !BucketExhausted(hash(key))
    {
      if BucketExhausted(hash(key)) {
        var k := ExhaustedOwner(hash(key));
      }
    }

    constructor (hash: Hasher, limit: int)
      ensures Valid() && fresh(records) && fresh(index)
      ensures this.hash == hash && this.limit == limit && view == map[] && issued == 0
    {
      BytewiseIsStrictOrder();
      IntegerKeyIsStrictOrder();
      records := new Dbi(DbiFlags(BYTEWISE, false));
      index := new Dbi(DbiFlags(INTEGER_KEY, true));
      this.hash := hash;
      this.limit := limit;
      view, ordinal, issued := map[], map[], 0;
    }

    /** The same two DBIs opened again, under another configuration. */
    constructor Reopen(store: LargeValuesStore, limit: int)
      requires store.Indexed()
      ensures records == store.records && index == store.index && hash == store.hash && this.limit == limit
      ensures view == store.view && ordinal == store.ordinal && issued == store.issued
      ensures Indexed() && (store.Valid() ==> Valid())
    {
      records, index, hash := store.records, store.index, store.hash;
      this.limit := limit;
      view, ordinal, issued := store.view, store.ordinal, store.issued;
    }

    /** The bucket already holds the largest ordinal. */
    ghost predicate BucketExhausted(h: uint64)
      reads index
    {
      Entry(LittleEndian(h, 8), LittleEndian(MAX_UINT64, 8)) in index.entries
    }

    /** Every index entry is somebody's, and leads to that key's record. */
    lemma IndexEntryOwner(i: nat, h: uint64) returns (k: KeyBytes)
      requires Indexed() && i < |index.entries| && index.entries[i].key == LittleEndian(h, 8)
      ensures k in view && k in ordinal && hash(k) == h && index.entries[i] == IndexEntry(hash, k, ordinal[k])
      ensures LittleEndianValue(index.entries[i].val) == ordinal[k]
      ensures records.Get(RecordKey(h, ordinal[k])) == Some(Payload(k, view[k]))
      ensures ParseRecord(Payload(k, view[k])) == Some((k, view[k]))
      ensures forall x :: x in view && index.entries[i] == IndexEntry(hash, x, ordinal[x]) ==> x == k
    {
      assert OwnedIndex(hash, ordinal, index.entries[i]);
      k :| k in view && index.entries[i] == IndexEntry(hash, k, ordinal[k]);
      Pow256Widths();
      LittleEndianInjective(h, hash(k), 8);
      LittleEndianRoundTrip(ordinal[k], 8);
      LookupFound(records.flags, records.entries, RecordEntry(hash, k, view[k], ordinal[k]));
      RecordExact(Payload(k, view[k]), k, view[k]);
      forall x | x in view && index.entries[i] == IndexEntry(hash, x, ordinal[x]) ensures x == k {
        IndexEntryInjective(hash, x, ordinal[x], k, ordinal[k]);
        assert SameSlot(hash, ordinal, x, k);
      }
    }

    /** A key whose bucket has been walked without meeting its entry is not stored. */
    lemma NotInBucket(key: KeyBytes)
      requires Indexed()
      requires var lo := LowerIndex(index.flags.order, index.entries, LittleEndian(hash(key), 8));
               var hi := UpperIndex(index.flags.order, index.entries, LittleEndian(hash(key), 8));
               lo <= hi && (key in view ==> IndexEntry(hash, key, ordinal[key]) !in index.entries[lo..hi])
      ensures key !in view
    {
      hide LittleEndian, KeyLess, LowerIndex, UpperIndex;
      if key in view {
        assert IndexEntry(hash, key, ordinal[key]) in index.entries;
        var j :| 0 <= j < |index.entries| && index.entries[j] == IndexEntry(hash, key, ordinal[key]);
        Bounds(index.flags, index.entries, LittleEndian(hash(key), 8));
      }
    }

    /** db_find_record_bytes: walk the bucket, comparing the stored key bytes. */
    method FindRecord(key: KeyBytes) returns (r: Option<uint64>)
      requires Indexed()
      ensures r == if key in view then Some(ordinal[key]) else None
    {
      hide Covered, LittleEndian, LittleEndianValue, RecordKey, Payload, ParseRecord, LowerIndex, UpperIndex, SetKey, NextDup;
      var h := hash(key);
      var hashKey := WriteLittleEndian(h, 8);
      ghost var lo := LowerIndex(index.flags.order, index.entries, hashKey);
      ghost var hi := UpperIndex(index.flags.order, index.entries, hashKey);
      KeyRun(index.flags, index.entries, hashKey);
      var cursor := SetKey(index.flags.order, index.entries, hashKey);
      ghost var done := lo;
      while cursor.At?
        invariant lo <= done <= hi <= |index.entries|
        invariant cursor == if done < hi then At(done) else Missed
        invariant key in view ==> IndexEntry(hash, key, ordinal[key]) !in index.entries[lo..done]
        decreases hi - done
      {
        var o, stored := RecordAt(cursor.index, h);
        if stored == key { return Some(o); }
        SliceSnoc(index.entries, lo, done);
        cursor := NextDup(index.entries, cursor);
        done := done + 1;
      }
      NotInBucket(key);
      r := None;
    }

    /** The record an index entry of the bucket leads to: its ordinal and its key. */
    method RecordAt(i: nat, h: uint64) returns (o: uint64, stored: KeyBytes)
      requires Indexed() && i < |index.entries| && index.entries[i].key == LittleEndian(h, 8)
      ensures stored in view && ordinal[stored] == o
      ensures forall x :: x in view && index.entries[i] == IndexEntry(hash, x, ordinal[x]) ==> x == stored
    {
      hide Covered, LittleEndian, LittleEndianValue, RecordKey, Payload, ParseRecord;
      ghost var k := IndexEntryOwner(i, h);
      o := ReadLittleEndian(index.entries[i].val);
      var recordKey := MakeRecordKey(h, o);
      var payload := records.Get(recordKey);
      if payload.None? {
        assert false; // "Hashed key-value index references a missing record"
      }
      var record := Parse(payload.value);
      if record.None? {
        assert false; // "Corrupted hashed key-value record"
      }
      stored := record.value.0;
    }

    /** next_ordinal: little-endian ordinals are not in numeric order, so the whole
        bucket is scanned; the answer is above every live ordinal and is refused
        exactly when the bucket holds the largest one. */
    method NextOrdinal(h: uint64) returns (r: Option<uint64>)
      requires Indexed()
      ensures r.None? <==> BucketExhausted(h)
      ensures r.Some? ==> NextFree(hash, ordinal, h, r.value)
    {
      hide Covered, LittleEndian, LittleEndianValue, LowerIndex, UpperIndex, AtMost;
      var hashKey := WriteLittleEndian(h, 8);
      ghost var lo := LowerIndex(index.flags.order, index.entries, hashKey);
      ghost var hi := UpperIndex(index.flags.order, index.entries, hashKey);
      var maxOrdinal, hasOrdinal := BucketMax(index.flags, index.entries, hashKey);
      OutsideRun(index.flags, index.entries, hashKey);
      if !hasOrdinal {
        BucketBound(h, lo, hi, 0);
        return Some(0);
      }
      ghost var holder :| lo <= holder < hi && OrdinalOf(index.entries[holder]) == maxOrdinal;
      ghost var owner := HolderOf(h, lo, hi, holder);
      BucketBound(h, lo, hi, maxOrdinal);
      HeldOrdinal(owner);
      if maxOrdinal == MAX_UINT64 {
        return None;
      }
      r := Some(maxOrdinal + 1);
    }

    /** The bucket scan: the largest ordinal. */
    static method BucketMax(f: DbiFlags, s: seq<Entry>, hashKey: Bytes)
      returns (maxOrdinal: nat, hasOrdinal: bool)
      requires Sorted(f, s)
      ensures var lo, hi := LowerIndex(f.order, s, hashKey), UpperIndex(f.order, s, hashKey);
              && lo <= hi <= |s| && (hasOrdinal <==> lo < hi)
              && AtMost(s[lo..hi], maxOrdinal) && (!hasOrdinal ==> maxOrdinal == 0)
              && (hasOrdinal ==> exists j :: lo <= j < hi && OrdinalOf(s[j]) == maxOrdinal)
    {
      hide LowerIndex, UpperIndex, KeyLess, Sorted, SetKey, NextDup, LittleEndianValue;
      ghost var lo, hi := LowerIndex(f.order, s, hashKey), UpperIndex(f.order, s, hashKey);
      KeyRun(f, s, hashKey);
      var cursor := SetKey(f.order, s, hashKey);
      maxOrdinal, hasOrdinal := 0, false;
      ghost var done, holder := lo, lo;
      while cursor.At?
        invariant lo <= done <= hi <= |s|
        invariant cursor == if done < hi then At(done) else Missed
        invariant hasOrdinal <==> lo < done
        invariant hasOrdinal ==> lo <= holder < hi && OrdinalOf(s[holder]) == maxOrdinal
        invariant AtMost(s[lo..done], maxOrdinal) && (!hasOrdinal ==> maxOrdinal == 0)
        decreases hi - done
      {
        var o := ReadLittleEndian(s[cursor.index].val);
        AtMostSnoc(s[lo..done], s[done], maxOrdinal, if o > maxOrdinal then o else maxOrdinal);
        if !hasOrdinal || o > maxOrdinal {
          maxOrdinal, hasOrdinal, holder := o, true, done;
        }
        SliceSnoc(s, lo, done);
        cursor := NextDup(s, cursor);
        done := done + 1;
      }
    }

    lemma HolderOf(h: uint64, lo: nat, hi: nat, i: nat) returns (k: KeyBytes)
      requires Indexed() && lo <= i < hi <= |index.entries|
      requires forall e :: e in index.entries[lo..hi] ==> e.key == LittleEndian(h, 8)
      ensures k in view && hash(k) == h && ordinal[k] == OrdinalOf(index.entries[i])
    {
      assert index.entries[lo..hi][i - lo] == index.entries[i];
      k := IndexEntryOwner(i, h);
    }

    lemma HeldOrdinal(k: KeyBytes)
      requires Indexed() && k in view
      ensures Entry(LittleEndian(hash(k), 8), LittleEndian(ordinal[k], 8)) in index.entries
    {
      assert IndexEntry(hash, k, ordinal[k]) in index.entries;
    }

    static ghost function OrdinalOf(e: Entry): nat {
      LittleEndianValue(e.val)
    }

    static ghost predicate AtMost(bucket: seq<Entry>, bound: nat) {
      forall e {:trigger OrdinalOf(e)} :: e in bucket ==> OrdinalOf(e) <= bound
    }

    static lemma AtMostSnoc(bucket: seq<Entry>, e: Entry, bound: nat, bound': nat)
      requires AtMost(bucket, bound) && bound <= bound' && OrdinalOf(e) <= bound'
      ensures AtMost(bucket + [e], bound')
    {
    }

    /** What a scan of the whole bucket establishes. */
    lemma BucketBound(h: uint64, lo: nat, hi: nat, bound: uint64)
      requires Indexed()
      requires lo == LowerIndex(index.flags.order, index.entries, LittleEndian(h, 8))
      requires hi == UpperIndex(index.flags.order, index.entries, LittleEndian(h, 8))
      requires lo <= hi && AtMost(index.entries[lo..hi], bound)
      ensures forall k :: k in view && hash(k) == h ==> lo < hi && ordinal[k] <= bound
      ensures BucketExhausted(h) ==> lo < hi && bound == MAX_UINT64
    {
      hide LittleEndian, LittleEndianValue, LowerIndex, UpperIndex, KeyLess;
      Pow256Widths();
      Bounds(index.flags, index.entries, LittleEndian(h, 8));
      forall k | k in view && hash(k) == h ensures lo < hi && ordinal[k] <= bound {
        assert IndexEntry(hash, k, ordinal[k]) in index.entries;
        var j :| 0 <= j < |index.entries| && index.entries[j] == IndexEntry(hash, k, ordinal[k]);
        LittleEndianRoundTrip(ordinal[k], 8);
        assert index.entries[lo..hi][j - lo] == index.entries[j];
        assert OrdinalOf(index.entries[j]) <= bound;
      }
      if BucketExhausted(h) {
        var j :| 0 <= j < |index.entries| && index.entries[j] == Entry(LittleEndian(h, 8), LittleEndian(MAX_UINT64, 8));
        LittleEndianRoundTrip(MAX_UINT64, 8);
        assert index.entries[lo..hi][j - lo] == index.entries[j];
        assert OrdinalOf(index.entries[j]) <= bound;
      }
    }

    /** put_new_record: a record under a fresh ordinal, then its index entry. The
        size check stands between the two writes, so a limit of 1 to 7 leaves a
        record without an index entry; agreement is kept exactly otherwise. */
    method PutNewRecord(key: KeyBytes, value: Bytes) returns (r: Result<()>)
      requires Indexed() && key !in view
      modifies this, records, index
      ensures Indexed() && !r.IndexEntryMissing? && !r.Corrupted?
      ensures r.OrdinalExhausted? <==> old(BucketExhausted(hash(key)))
      ensures r.RecordKeyTaken? <==> !r.OrdinalExhausted? && old(SlotTaken(hash(key)))
      ensures r.IndexEntryTooLarge? <==> !r.OrdinalExhausted? && !r.RecordKeyTaken? && 0 < limit < 8
      ensures old(Valid()) ==> !r.RecordKeyTaken? && (Valid() <==> !r.IndexEntryTooLarge?)
      ensures r.OrdinalExhausted? ==> old(issued) >= TWO_TO_THE_64
      ensures r.OrdinalExhausted? || r.RecordKeyTaken? ==> records.entries == old(records.entries)
      ensures !r.Ok? ==> index.entries == old(index.entries)
                         && view == old(view) && ordinal == old(ordinal) && issued == old(issued)
      ensures r.IndexEntryTooLarge? ==> exists o: uint64 :: Orphaned(key, value, o)
      ensures r.Ok? ==> view == old(view)[key := value] && issued == old(issued) + 1
      ensures r.Ok? ==> KeepsOrphans(hash, old(records.entries), old(view), old(ordinal), records.entries, view, ordinal)
      ensures old(AllFormed(records.entries)) ==> AllFormed(records.entries)
    {
      hide Covered, RecordsOwned, NextFree;
      var next := NextOrdinal(hash(key));
      if next.None? {
        ghost var holder := ExhaustedOwner(hash(key));
        return OrdinalExhausted;
      }
      var recordKey := MakeRecordKey(hash(key), next.value);
      var payload := MakePayload(key, value);
      var hashKey := WriteLittleEndian(hash(key), 8);
      var ordinalBytes := WriteLittleEndian(next.value, 8);
      r := PutBytes(recordKey, payload, hashKey, ordinalBytes, key, value, next.value);
    }

    /** The two writes of put_new_record: put_record, then put_index_entry. */
    method PutBytes(recordKey: Bytes, payload: Bytes, hashKey: Bytes, ordinalBytes: Bytes,
                    ghost key: KeyBytes, ghost value: Bytes, ghost o: uint64) returns (r: Result<()>)
      requires recordKey == RecordKey(hash(key), o) && payload == Payload(key, value)
      requires hashKey == LittleEndian(hash(key), 8) && ordinalBytes == LittleEndian(o, 8)
      requires Indexed() && key !in view && NextFree(hash, ordinal, hash(key), o)
      modifies this, records, index
      ensures Indexed() && (r.Ok? || r.RecordKeyTaken? || r.IndexEntryTooLarge?)
      ensures r.RecordKeyTaken? <==> old(SlotTaken(hash(key)))
      ensures r.IndexEntryTooLarge? <==> !r.RecordKeyTaken? && 0 < limit < 8
      ensures old(Valid()) ==> !r.RecordKeyTaken? && (Valid() <==> !r.IndexEntryTooLarge?)
      ensures r.RecordKeyTaken? ==> records.entries == old(records.entries)
      ensures !r.Ok? ==> index.entries == old(index.entries)
                         && view == old(view) && ordinal == old(ordinal) && issued == old(issued)
      ensures r.IndexEntryTooLarge? ==> Orphaned(key, value, o)
      ensures r.Ok? ==> view == old(view)[key := value] && issued == old(issued) + 1
      ensures r.Ok? ==> KeepsOrphans(hash, old(records.entries), old(view), old(ordinal), records.entries, view, ordinal)
      ensures old(AllFormed(records.entries)) ==> AllFormed(records.entries)
    {
      hide LittleEndian, Payload, KeyLess, Covered, RecordsOwned, RecordKey, NextFree, KeepsOrphans, AllFormed;
      FreeSlot(key, o);
      SlotTakenAt(key, o);
      ghost var recs := records.entries;
      var rc := records.Put(recordKey, payload, NoOverwrite);
      FormedGrows(hash, recs, records.entries, key, value, o);
      if rc == KeyExist {
        return RecordKeyTaken; // "Failed to write hashed key-value record"
      }
      if 0 < limit < 8 {
        NobodysRecord(hash, view, ordinal, key, value, o);
        Grown(hash, recs, records.entries, index.entries, view, ordinal);
        NotOwned(hash, records.entries, view, ordinal, RecordEntry(hash, key, value, o));
        return IndexEntryTooLarge;
      }
      rc := index.PutDup(hashKey, ordinalBytes, NoDupData);
      if rc == KeyExist {
        assert false; // "Hashed key-value index ordinal already exists"
      }
      Inserted(hash, recs, records.entries, old(index.entries), index.entries, view, ordinal, key, value, o);
      OrdinalBelow(hash, ordinal, hash(key), o, issued);
      InsertKeepsOrphans(hash, recs, records.entries, view, ordinal, key, value, o);
      view, ordinal, issued := view[key := value], ordinal[key := o], issued + 1;
      r := Ok(());
    }

    static lemma FormedGrows(hash: Hasher, recs: seq<Entry>, recs': seq<Entry>, k: KeyBytes, v: Bytes, o: uint64)
      requires forall x :: x in recs' ==> x in recs || x == RecordEntry(hash, k, v, o)
      ensures AllFormed(recs) ==> AllFormed(recs')
    {
      RecordFormed(hash, k, v, o);
    }

    static lemma Grown(hash: Hasher, recs: seq<Entry>, recs': seq<Entry>, idx: seq<Entry>,
                       view: map<KeyBytes, Bytes>, ord: map<KeyBytes, uint64>)
      requires Covered(hash, recs, idx, view, ord) && forall x :: x in recs ==> x in recs'
      ensures Covered(hash, recs', idx, view, ord)
    {
      RecordsGrow(hash, recs, recs', view, ord);
    }

    static lemma NotOwned(hash: Hasher, recs: seq<Entry>, view: map<KeyBytes, Bytes>, ord: map<KeyBytes, uint64>, e: Entry)
      requires e in recs && !OwnedRecord(hash, view, ord, e)
      ensures !RecordsOwned(hash, recs, view, ord)
    {
    }

    static lemma Inserted(hash: Hasher, recs: seq<Entry>, recs': seq<Entry>, idx: seq<Entry>, idx': seq<Entry>,
                          view: map<KeyBytes, Bytes>, ord: map<KeyBytes, uint64>, k: KeyBytes, v: Bytes, o: uint64)
      requires Covered(hash, recs, idx, view, ord) && k !in view && NextFree(hash, ord, hash(k), o)
      requires forall x :: x in recs' <==> x in recs || x == RecordEntry(hash, k, v, o)
      requires forall x :: x in idx' <==> x in idx || x == IndexEntry(hash, k, o)
      ensures Covered(hash, recs', idx', view[k := v], ord[k := o])
      ensures RecordsOwned(hash, recs, view, ord) ==> RecordsOwned(hash, recs', view[k := v], ord[k := o])
    {
      RecordsInsert(hash, recs, recs', view, ord, k, v, o);
      IndexInsert(hash, idx, idx', ord, k, o);
    }

    static lemma OrdinalBelow(hash: Hasher, ord: map<KeyBytes, uint64>, h: uint64, o: nat, bound: nat)
      requires NextFree(hash, ord, h, o) && forall k :: k in ord ==> ord[k] < bound
      ensures o <= bound
    {
    }

    /** An ordinal nobody in the bucket has is free in the index, and in the records too
        when every record is somebody's. */
    lemma FreeSlot(key: KeyBytes, o: uint64)
      requires Indexed() && NextFree(hash, ordinal, hash(key), o)
      ensures IndexEntry(hash, key, o) !in index.entries
      ensures Valid() ==> forall e :: e in records.entries ==> e.key != RecordKey(hash(key), o)
    {
      if Valid() {
        forall e | e in records.entries ensures e.key != RecordKey(hash(key), o) {
          assert OwnedRecord(hash, view, ordinal, e);
          var k :| k in view && e == RecordEntry(hash, k, view[k], ordinal[k]);
          RecordKeyInjective(hash(k), ordinal[k], hash(key), o);
        }
      }
      if IndexEntry(hash, key, o) in index.entries {
        assert OwnedIndex(hash, ordinal, IndexEntry(hash, key, o));
        var k :| k in view && IndexEntry(hash, key, o) == IndexEntry(hash, k, ordinal[k]);
        IndexEntryInjective(hash, k, ordinal[k], key, o);
        assert false;
      }
    }

    lemma SlotTakenAt(key: KeyBytes, o: uint64)
      requires NextFree(hash, ordinal, hash(key), o)
      ensures SlotTaken(hash(key)) <==> exists e :: e in records.entries && e.key == RecordKey(hash(key), o)
    {
      hide NextFree, RecordKey;
      if SlotTaken(hash(key)) {
        var p: uint64, e :| NextFree(hash, ordinal, hash(key), p) && e in records.entries && e.key == RecordKey(hash(key), p);
        NextFreeUnique(hash, ordinal, hash(key), o, p);
      }
    }

    lemma ExhaustedOwner(h: uint64) returns (k: KeyBytes)
      requires Indexed() && BucketExhausted(h)
      ensures k in ordinal && hash(k) == h && ordinal[k] == MAX_UINT64 && issued >= TWO_TO_THE_64
    {
      var e := Entry(LittleEndian(h, 8), LittleEndian(MAX_UINT64, 8));
      assert OwnedIndex(hash, ordinal, e);
      k :| k in view && e == IndexEntry(hash, k, ordinal[k]);
      EntryParts(h, MAX_UINT64, hash(k), ordinal[k]);
    }

    /** put_record over the record a lookup has found. */
    method PutRecord(key: KeyBytes, value: Bytes, o: uint64)
      requires Indexed() && key in view && o == ordinal[key]
      modifies this, records
      ensures Indexed() && view == old(view)[key := value] && ordinal == old(ordinal) && issued == old(issued)
      ensures old(Valid()) ==> Valid()
      ensures KeepsOrphans(hash, old(records.entries), old(view), old(ordinal), records.entries, view, ordinal)
    {
      hide LittleEndian, Payload, RecordsCover, RecordsOwned, IndexAgrees, RecordKey, NextFree, KeepsOrphans;
      var recordKey := MakeRecordKey(hash(key), o);
      var payload := MakePayload(key, value);
      ghost var recs := records.entries;
      var rc := records.Put(recordKey, payload, Upsert);
      RecordsAssign(hash, recs, records.entries, index.entries, view, ordinal, key, value);
      AssignKeepsOrphans(hash, recs, records.entries, view, ordinal, key, value);
      view := view[key := value];
    }

    method Get(key: KeyBytes) returns (r: Option<Bytes>)
      requires Indexed()
      ensures r == if key in view then Some(view[key]) else None
    {
      var located := FindRecord(key);
      if located.None? { return None; }
      var recordKey := MakeRecordKey(hash(key), located.value);
      var payload := records.Get(recordKey);
      LookupFound(records.flags, records.entries, RecordEntry(hash, key, view[key], located.value));
      if payload.None? {
        assert false; // "Hashed key-value index references a missing record"
      }
      var record := Parse(payload.value);
      RecordExact(payload.value, key, view[key]);
      r := Some(record.value.1);
    }

    method Contains(key: KeyBytes) returns (found: bool)
      requires Indexed()
      ensures found <==> key in view
    {
      var located := FindRecord(key);
      found := located.Some?;
    }

    method InsertIfAbsent(key: KeyBytes, value: Bytes) returns (r: Result<bool>)
      requires Indexed()
      modifies this, records, index
      ensures Indexed() && !r.IndexEntryMissing? && !r.Corrupted?
      ensures old(Valid()) ==> !r.RecordKeyTaken? && (Valid() <==> !r.IndexEntryTooLarge?)
      ensures r.OrdinalExhausted? <==> key !in old(view) && old(BucketExhausted(hash(key)))
      ensures r.RecordKeyTaken? <==> key !in old(view) && !r.OrdinalExhausted? && old(SlotTaken(hash(key)))
      ensures r.IndexEntryTooLarge? <==>
                key !in old(view) && !r.OrdinalExhausted? && !r.RecordKeyTaken? && 0 < limit < 8
      ensures r.OrdinalExhausted? ==> old(issued) >= TWO_TO_THE_64 && BucketExhausted(hash(key))
      ensures !r.Ok? ==> view == old(view) && issued == old(issued) && index.entries == old(index.entries)
      ensures r.RecordKeyTaken? ==> records.entries == old(records.entries) && ordinal == old(ordinal) && SlotTaken(hash(key))
      ensures r.IndexEntryTooLarge? ==> exists o: uint64 :: Orphaned(key, value, o)
      ensures r.Ok? ==> r.value == (key !in old(view))
      ensures r.Ok? && key in old(view) ==> view == old(view)
      ensures r.Ok? && key !in old(view) ==> view == old(view)[key := value]
      ensures issued <= old(issued) + 1
      ensures old(AllFormed(records.entries)) ==> AllFormed(records.entries)
    {
      hide Covered, RecordsOwned, NextFree, RecordKey;
      var located := FindRecord(key);
      if located.Some? { return Ok(false); }
      var put := PutNewRecord(key, value);
      r := if put.Ok? then Ok(true) else Failure(put);
    }

    method InsertOrAssign(key: KeyBytes, value: Bytes) returns (r: Result<()>)
      requires Indexed()
      modifies this, records, index
      ensures Indexed() && !r.IndexEntryMissing? && !r.Corrupted?
      ensures old(Valid()) ==> !r.RecordKeyTaken? && (Valid() <==> !r.IndexEntryTooLarge?)
      ensures r.OrdinalExhausted? <==> key !in old(view) && old(BucketExhausted(hash(key)))
      ensures r.RecordKeyTaken? <==> key !in old(view) && !r.OrdinalExhausted? && old(SlotTaken(hash(key)))
      ensures r.IndexEntryTooLarge? <==>
                key !in old(view) && !r.OrdinalExhausted? && !r.RecordKeyTaken? && 0 < limit < 8
      ensures r.OrdinalExhausted? ==> old(issued) >= TWO_TO_THE_64 && BucketExhausted(hash(key))
      ensures !r.Ok? ==> view == old(view) && issued == old(issued) && index.entries == old(index.entries)
      ensures r.RecordKeyTaken? ==> records.entries == old(records.entries) && ordinal == old(ordinal) && SlotTaken(hash(key))
      ensures r.IndexEntryTooLarge? ==> exists o: uint64 :: Orphaned(key, value, o)
      ensures r.Ok? ==> view == old(view)[key := value]
      ensures r.Ok? ==> KeepsOrphans(hash, old(records.entries), old(view), old(ordinal), records.entries, view, ordinal)
      ensures issued <= old(issued) + 1
    {
      hide Covered, RecordsOwned, NextFree, RecordKey;
      var located := FindRecord(key);
      if located.Some? {
        PutRecord(key, value, located.value);
        return Ok(());
      }
      r := PutNewRecord(key, value);
    }

    method Erase(key: KeyBytes) returns (removed: bool)
      requires Indexed()
      modifies this, records, index
      ensures Indexed() && (old(Valid()) ==> Valid())
      ensures removed == (key in old(view))
      ensures view == old(view) - {key} && issued == old(issued)
    {
      hide LittleEndian, Payload, RecordKey, Covered, RecordsOwned;
      var located := FindRecord(key);
      if located.None? { return false; }
      var recordKey := MakeRecordKey(hash(key), located.value);
      SoleRecord(key);
      HeldOrdinal(key);
      var rc := records.DelKey(recordKey);
      if rc == NotFound {
        assert false; // "Hashed key-value index references a missing record"
      }
      var found := DeleteIndexEntry(hash(key), located.value);
      if !found {
        assert false; // "Hashed key-value index entry is missing"
      }
      Erased(hash, old(records.entries), records.entries, old(index.entries), index.entries, view, ordinal, key);
      view, ordinal := view - {key}, ordinal - {key};
      removed := true;
    }

    static lemma Erased(hash: Hasher, recs: seq<Entry>, recs': seq<Entry>, idx: seq<Entry>, idx': seq<Entry>,
                        view: map<KeyBytes, Bytes>, ord: map<KeyBytes, uint64>, k: KeyBytes)
      requires Covered(hash, recs, idx, view, ord) && k in view
      requires forall x :: x in recs' <==> x in recs && x != RecordEntry(hash, k, view[k], ord[k])
      requires forall x :: x in idx' <==> x in idx && x != IndexEntry(hash, k, ord[k])
      ensures Covered(hash, recs', idx', view - {k}, ord - {k})
      ensures RecordsOwned(hash, recs, view, ord) ==> RecordsOwned(hash, recs', view - {k}, ord - {k})
    {
      RecordsErase(hash, recs, recs', view, ord, k);
      IndexErase(hash, idx, idx', ord, k);
    }

    /** The record DBI holds one entry per record key. */
    lemma SoleRecord(key: KeyBytes)
      requires Indexed() && key in view
      ensures RecordEntry(hash, key, view[key], ordinal[key]) in records.entries
      ensures forall e :: e in records.entries && e.key == RecordKey(hash(key), ordinal[key])
                          ==> e == RecordEntry(hash, key, view[key], ordinal[key])
    {
      var e := RecordEntry(hash, key, view[key], ordinal[key]);
      assert e in records.entries;
      var i :| 0 <= i < |records.entries| && records.entries[i] == e;
      SoleKey(records.flags, records.entries, i);
    }

    /** delete_index_entry: false is the exception on a missing entry. */
    method DeleteIndexEntry(h: uint64, o: uint64) returns (found: bool)
      requires index.Valid()
      modifies index
      ensures index.Valid()
      ensures found <==> Entry(LittleEndian(h, 8), LittleEndian(o, 8)) in old(index.entries)
      ensures !found ==> index.entries == old(index.entries)
      ensures forall x :: x in index.entries <==>
                x in old(index.entries) && x != Entry(LittleEndian(h, 8), LittleEndian(o, 8))
    {
      var hashKey := WriteLittleEndian(h, 8);
      var ordinalBytes := WriteLittleEndian(o, 8);
      var rc := index.DelPair(hashKey, ordinalBytes);
      found := rc != NotFound; // "Hashed key-value index entry is missing"
    }

    /** db_count counts records; they are the keys of the map exactly when no record is
        nobody's. */
    method Count() returns (n: nat)
      requires Indexed()
      ensures n == |records.entries| >= |view|
      ensures n == |view| <==> Valid()
    {
      CoverCount(hash, records.flags, records.entries, view, ordinal);
      if RecordsOwned(hash, records.entries, view, ordinal) {
        AgreeCount(hash, records.flags, index.flags, records.entries, index.entries, view, ordinal);
      } else {
        ghost var e :| e in records.entries && !OwnedRecord(hash, view, ordinal, e);
        ExtraCount(hash, records.flags, records.entries, view, ordinal, e);
      }
      n := |records.entries|;
    }

    /** db_load into a vector: every pair once, in record order. */
    method Load() returns (out: Pairs)
      requires Valid()
      ensures |out| == |view|
      ensures forall i :: 0 <= i < |out| ==> out[i].0 in view && view[out[i].0] == out[i].1
      ensures forall k :: k in view ==> (k, view[k]) in out
    {
      AgreeCount(hash, records.flags, index.flags, records.entries, index.entries, view, ordinal);
      out := [];
      var cursor := Next(records.entries, Unset);
      while cursor.At?
        invariant |out| <= |records.entries|
        invariant cursor == Land(records.entries, |out|)
        invariant forall i :: 0 <= i < |out| ==> ParseRecord(records.entries[i].val) == Some(out[i])
        invariant forall i :: 0 <= i < |out| ==> out[i].0 in view && view[out[i].0] == out[i].1
        decreases |records.entries| - |out|
      {
        ghost var k := RecordOwner(|out|);
        var record := ParseRecord(records.entries[cursor.index].val);
        if record.None? {
          assert false; // "Corrupted hashed key-value record"
        }
        out := out + [record.value];
        cursor := Next(records.entries, cursor);
      }
      forall k | k in view ensures (k, view[k]) in out {
        assert RecordEntry(hash, k, view[k], ordinal[k]) in records.entries;
        var i :| 0 <= i < |records.entries| && records.entries[i] == RecordEntry(hash, k, view[k], ordinal[k]);
        RecordExact(records.entries[i].val, k, view[k]);
        assert out[i] == (k, view[k]);
      }
    }

    /** Every record is some key's, and parses back to that key and its value. */
    lemma RecordOwner(i: nat) returns (k: KeyBytes)
      requires Valid() && i < |records.entries|
      ensures k in view && k in ordinal && records.entries[i] == RecordEntry(hash, k, view[k], ordinal[k])
      ensures ParseRecord(records.entries[i].val) == Some((k, view[k]))
    {
      assert OwnedRecord(hash, view, ordinal, records.entries[i]);
      k :| k in view && records.entries[i] == RecordEntry(hash, k, view[k], ordinal[k]);
      RecordExact(records.entries[i].val, k, view[k]);
    }

    /** db_append: insert_or_assign in order; a refused pair stops the run there. */
    method AppendAll(pairs: Pairs) returns (r: Result<()>, n: nat)
      requires Indexed()
      modifies this, records, index
      ensures Indexed() && (r.IndexEntryTooLarge? ==> 0 < limit < 8)
      ensures old(Valid()) ==> !r.RecordKeyTaken? && (Valid() <==> !r.IndexEntryTooLarge?)
      ensures n <= |pairs| && view == old(view) + MapOf(pairs[..n])
      ensures !r.Ok? ==> n < |pairs| && pairs[n].0 !in view && !r.IndexEntryMissing? && !r.Corrupted?
      ensures r.OrdinalExhausted? ==> BucketExhausted(hash(pairs[n].0)) && old(issued) + n >= TWO_TO_THE_64
      ensures r.RecordKeyTaken? ==> SlotTaken(hash(pairs[n].0))
      ensures r.IndexEntryTooLarge? ==> exists o: uint64 :: Orphaned(pairs[n].0, pairs[n].1, o)
      ensures r.Ok? ==> n == |pairs| && view == old(view) + MapOf(pairs)
      ensures issued <= old(issued) + n
    {
      assert MapOf(pairs[..0]) == map[];
      hide Indexed, Valid, Orphaned, SlotTaken, BucketExhausted, KeepsOrphans, MapOf;
      n := 0;
      while n < |pairs|
        invariant Indexed() && (old(Valid()) ==> Valid())
        invariant n <= |pairs| && view == old(view) + MapOf(pairs[..n])
        invariant issued <= old(issued) + n
      {
        var put := InsertOrAssign(pairs[n].0, pairs[n].1);
        if !put.Ok? { return put, n; }
        MapOfSnoc(pairs, n, old(view));
        n := n + 1;
      }
      assert pairs[..n] == pairs;
      r := Ok(());
    }

    /** db_reconcile_impl: write the source, then drop every stored key it does not name.
        When the DBIs agree only a write can be refused. While an orphan is there, no
        source gets through. */
    method ReconcileWith(pairs: Pairs) returns (r: Result<()>, n: nat)
      requires Indexed()
      modifies this, records, index
      ensures Indexed() && (r.IndexEntryTooLarge? ==> 0 < limit < 8)
      ensures old(Valid()) ==> !r.RecordKeyTaken? && (Valid() <==> !r.IndexEntryTooLarge?)
      ensures old(Valid()) ==> !r.IndexEntryMissing? && !r.Corrupted?
      ensures n <= |pairs| && (r.Ok? ==> n == |pairs| && view == MapOf(pairs))
      ensures n < |pairs| ==> !r.Ok? && view == old(view) + MapOf(pairs[..n]) && pairs[n].0 !in view
      ensures n < |pairs| && r.OrdinalExhausted? ==> BucketExhausted(hash(pairs[n].0))
      ensures r.OrdinalExhausted? ==> n < |pairs| && old(issued) + n >= TWO_TO_THE_64
      ensures n < |pairs| && r.RecordKeyTaken? ==> SlotTaken(hash(pairs[n].0))
      ensures n < |pairs| && r.IndexEntryTooLarge? ==> exists o: uint64 :: Orphaned(pairs[n].0, pairs[n].1, o)
      ensures n == |pairs| && !r.Ok? ==> r.IndexEntryMissing? || r.Corrupted?
      ensures n < |pairs| ==> r.OrdinalExhausted? || r.RecordKeyTaken? || r.IndexEntryTooLarge?
      ensures r.Corrupted? ==> !AllFormed(old(records.entries))
      ensures forall k, v, o: uint64 {:trigger OrphanIn(hash, old(records.entries), old(view), old(ordinal), k, v, o)} ::
                OrphanIn(hash, old(records.entries), old(view), old(ordinal), k, v, o) ==> !r.Ok?
      ensures issued <= old(issued) + n
    {
      hide Covered, RecordsOwned, NextFree, RecordKey, SlotTaken, Restrict, AllFormed;
      var desired;
      r, n, desired := WriteSource(pairs);
      if !r.Ok? {
        return;
      }
      forall k, v, o: uint64 | OrphanIn(hash, old(records.entries), old(view), old(ordinal), k, v, o)
        ensures !Reconcilable(desired)
      {
        assert OrphanIn(hash, records.entries, view, ordinal, k, v, o);
        StaleOrphan(k, v, o, desired);
      }
      ghost var visited;
      r, visited := EraseStale(desired);
      RestrictToSource(old(view), pairs);
    }

    /** db_reconcile_impl's first loop. */
    method WriteSource(pairs: Pairs) returns (r: Result<()>, n: nat, desired: set<KeyBytes>)
      requires Indexed()
      modifies this, records, index
      ensures Indexed() && (r.IndexEntryTooLarge? ==> 0 < limit < 8)
      ensures old(Valid()) ==> !r.RecordKeyTaken? && (Valid() <==> !r.IndexEntryTooLarge?)
      ensures n <= |pairs| && view == old(view) + MapOf(pairs[..n])
      ensures !r.Ok? ==> n < |pairs| && pairs[n].0 !in view && !r.IndexEntryMissing? && !r.Corrupted?
      ensures r.OrdinalExhausted? ==> BucketExhausted(hash(pairs[n].0)) && old(issued) + n >= TWO_TO_THE_64
      ensures r.RecordKeyTaken? ==> SlotTaken(hash(pairs[n].0))
      ensures r.IndexEntryTooLarge? ==> exists o: uint64 :: Orphaned(pairs[n].0, pairs[n].1, o)
      ensures r.Ok? ==> n == |pairs| && view == old(view) + MapOf(pairs) && desired == MapOf(pairs).Keys
      ensures r.Ok? ==> KeepsOrphans(hash, old(records.entries), old(view), old(ordinal), records.entries, view, ordinal)
      ensures issued <= old(issued) + n
    {
      assert MapOf(pairs[..0]) == map[];
      hide Indexed, Valid, Orphaned, SlotTaken, BucketExhausted, KeepsOrphans, MapOf;
      desired := {};
      n := 0;
      KeepsNone(hash, records.entries, view, ordinal);
      while n < |pairs|
        invariant Indexed() && (old(Valid()) ==> Valid())
        invariant n <= |pairs| && view == old(view) + MapOf(pairs[..n])
        invariant desired == MapOf(pairs[..n]).Keys
        invariant KeepsOrphans(hash, old(records.entries), old(view), old(ordinal), records.entries, view, ordinal)
        invariant issued <= old(issued) + n
      {
        MapOfSnoc(pairs, n, old(view));
        desired := desired + {pairs[n].0};
        ghost var recs, m, ord := records.entries, view, ordinal;
        var put := InsertOrAssign(pairs[n].0, pairs[n].1);
        if !put.Ok? { return put, n, desired; }
        KeepsTrans(hash, old(records.entries), old(view), old(ordinal), recs, m, ord, records.entries, view, ordinal);
        n := n + 1;
      }
      assert pairs[..n] == pairs;
      r := Ok(());
    }

    /** Every record is one the source names or one the scan can delete. */
    ghost predicate Reconcilable(desired: set<KeyBytes>)
      reads this, records
    {
      Accounted(hash, records.entries, view, ordinal, desired)
    }

    static ghost predicate Accounted(hash: Hasher, recs: seq<Entry>, view: map<KeyBytes, Bytes>, ord: map<KeyBytes, uint64>,
                                     desired: set<KeyBytes>)
    {
      forall e {:trigger OwnedRecord(hash, view, ord, e)} :: e in recs ==> Desired(e, desired) || OwnedRecord(hash, view, ord, e)
    }

    lemma StaleOrphan(k: KeyBytes, v: Bytes, o: uint64, desired: set<KeyBytes>)
      requires Orphaned(k, v, o) && desired <= view.Keys
      ensures !Reconcilable(desired)
    {
      hide Covered, NextFree;
      var e := RecordEntry(hash, k, v, o);
      NobodysRecord(hash, view, ordinal, k, v, o);
      RecordExact(e.val, k, v);
      assert !Desired(e, desired);
    }

    /** The deleting scan: it visits every record that was there, each once and in order,
        although it deletes under its own cursor. It gets through exactly when every stale
        record is somebody's, which is always so when the DBIs agree. */
    method EraseStale(desired: set<KeyBytes>) returns (r: Result<()>, ghost visited: seq<Entry>)
      requires Indexed()
      modifies this, records, index
      ensures Indexed() && issued == old(issued)
      ensures r.Ok? || r.IndexEntryMissing? || r.Corrupted?
      ensures r.Ok? <==> old(Reconcilable(desired))
      ensures r.Corrupted? ==> !AllFormed(old(records.entries))
      ensures old(Valid()) ==> r.Ok? && Valid()
      ensures r.Ok? ==> view == Restrict(old(view), desired) && visited == old(records.entries)
    {
      ghost var scan, agreed, fine := Scan(records.entries, view, desired), Valid(), Reconcilable(desired);
      ValidReconcilable(desired);
      ScannedStart(records.entries, desired);
      var cursor := Next(records.entries, Unset);
      visited := [];
      ghost var kept: nat := 0;
      ghost var bound := issued;
      assert Scanning(scan, cursor, kept, visited) && Keeping(scan, agreed, fine, bound);
      hide Indexed, Valid, Reconcilable, Scanning, Keeping, Restrict, AllFormed;
      while cursor.At?
        invariant Scanning(scan, cursor, kept, visited) && Keeping(scan, agreed, fine, bound)
        decreases |scan.all| - |visited|
      {
        r, cursor, kept, visited := ScanOne(cursor, desired, scan, kept, visited, agreed, fine, bound);
        if !r.Ok? { return; }
      }
      ScanDone(scan, cursor, kept, visited, agreed, fine, bound);
      r := Ok(());
    }

    /** Where the scan is. */
    ghost predicate Scanning(scan: Scan, cursor: Cursor, kept: nat, visited: seq<Entry>)
      reads this, records
    {
      && Scanned(visited, records.entries, kept, scan.all, scan.desired)
      && cursor == Land(records.entries, kept) && Trimmed(view, scan.base, scan.desired)
    }

    /** What the scan keeps of the store. */
    ghost predicate Keeping(scan: Scan, agreed: bool, fine: bool, bound: nat)
      reads this, records, index
    {
      && Indexed() && issued == bound && (agreed ==> Valid())
      && (Reconcilable(scan.desired) <==> fine)
    }

    /** One turn of the scan. */
    method ScanOne(cursor: Cursor, desired: set<KeyBytes>, ghost scan: Scan, ghost kept: nat, ghost visited: seq<Entry>,
                   ghost agreed: bool, ghost fine: bool, ghost bound: nat)
      returns (r: Result<()>, cursor': Cursor, ghost kept': nat, ghost visited': seq<Entry>)
      requires cursor.At? && desired == scan.desired
      requires Scanning(scan, cursor, kept, visited) && Keeping(scan, agreed, fine, bound)
      modifies this, records, index
      ensures r.Ok? || r.IndexEntryMissing? || r.Corrupted?
      ensures !r.Ok? ==> !fine && !agreed && Indexed() && issued == bound
      ensures r.Corrupted? ==> !AllFormed(scan.all)
      ensures r.Ok? ==> Scanning(scan, cursor', kept', visited') && Keeping(scan, agreed, fine, bound)
      ensures r.Ok? ==> |visited| < |visited'| <= |scan.all|
    {
      hide Indexed, Valid, Reconcilable, ParseRecord, Trimmed, RemoveAt, AllDesired, Scanned, OwnedRecord, AllFormed;
      ScannedSize(visited, records.entries, kept, scan.all, desired);
      Malformed(visited, records.entries, kept, scan);
      ValidReconcilable(desired);
      ghost var s, before := records.entries, view;
      cursor', kept', visited' := cursor, kept, visited + [s[kept]];
      var record := ParseRecord(records.entries[cursor.index].val);
      if record.None? {
        NotReconcilable(cursor.index, desired);
        return Corrupted, cursor', kept', visited'; // "Corrupted hashed key-value record"
      }
      if record.value.0 !in desired {
        r, cursor' := EraseCurrent(cursor, desired);
        if !r.Ok? { return; }
        TrimmedStep(before, scan.base, desired, record.value.0);
        ScannedDrop(visited, s, kept, scan.all, desired);
      } else {
        ScannedKeep(visited, s, kept, scan.all, desired);
        kept' := kept + 1;
        r := Ok(());
      }
      cursor' := Next(records.entries, cursor');
    }

    static lemma Malformed(visited: seq<Entry>, s: seq<Entry>, kept: nat, scan: Scan)
      requires Scanned(visited, s, kept, scan.all, scan.desired) && kept < |s|
      ensures ParseRecord(s[kept].val).None? || |s[kept].key| != 16 ==> !AllFormed(scan.all)
    {
      assert scan.all[|visited|] == s[kept];
      assert s[kept] in scan.all && (Formed(s[kept]) <==> ParseRecord(s[kept].val).Some? && |s[kept].key| == 16);
    }

    lemma ScanDone(scan: Scan, cursor: Cursor, kept: nat, visited: seq<Entry>, agreed: bool, fine: bool, bound: nat)
      requires !cursor.At? && Scanning(scan, cursor, kept, visited) && Keeping(scan, agreed, fine, bound)
      ensures fine && visited == scan.all && view == Restrict(scan.base, scan.desired)
      ensures Indexed() && issued == bound && (agreed ==> Valid())
    {
      hide Covered, RecordsOwned, Trimmed, Restrict, AllDesired, Scanned;
      ScannedSize(visited, records.entries, kept, scan.all, scan.desired);
      ScannedDone(visited, records.entries, scan.all, scan.desired);
      OnlyDesired(scan.desired);
      DesiredReconcilable(scan.desired);
      TrimmedDone(view, scan.base, scan.desired);
    }

    lemma ValidReconcilable(desired: set<KeyBytes>)
      ensures Valid() ==> Reconcilable(desired)
    {
    }

    lemma DesiredReconcilable(desired: set<KeyBytes>)
      requires AllDesired(records.entries, desired)
      ensures Reconcilable(desired)
    {
      forall e | e in records.entries ensures Desired(e, desired) {
      }
    }

    /** A record that does not parse is neither named nor anybody's. */
    lemma NotReconcilable(i: nat, desired: set<KeyBytes>)
      requires i < |records.entries| && ParseRecord(records.entries[i].val).None?
      ensures !Reconcilable(desired)
    {
      var e := records.entries[i];
      if OwnedRecord(hash, view, ordinal, e) {
        var k :| k in view && k in ordinal && e == RecordEntry(hash, k, view[k], ordinal[k]);
        RecordExact(e.val, k, view[k]);
      }
      assert !Desired(e, desired);
    }

    lemma OnlyDesired(desired: set<KeyBytes>)
      requires Indexed() && AllDesired(records.entries, desired)
      ensures view.Keys <= desired
    {
      forall k | k in view ensures k in desired {
        var e := RecordEntry(hash, k, view[k], ordinal[k]);
        assert e in records.entries;
        assert Desired(e, desired);
        RecordExact(e.val, k, view[k]);
      }
    }

    /** The loop's delete step: the record under the cursor, then its index entry. It gets
        through exactly when the record is somebody's. */
    method EraseCurrent(cursor: Cursor, ghost desired: set<KeyBytes>) returns (r: Result<()>, cursor': Cursor)
      requires Indexed() && cursor.At? && cursor.index < |records.entries|
      requires var p := ParseRecord(records.entries[cursor.index].val); p.Some? && p.value.0 !in desired
      modifies this, records, index
      ensures Indexed() && issued == old(issued) && (old(Valid()) ==> Valid())
      ensures r.Ok? || r.IndexEntryMissing? || r.Corrupted?
      ensures r.Ok? <==> OwnedRecord(hash, old(view), old(ordinal), old(records.entries)[cursor.index])
      ensures !r.Ok? ==> !old(Reconcilable(desired))
      ensures r.Corrupted? ==> |old(records.entries)[cursor.index].key| != 16
      ensures r.Ok? ==> view == old(view) - {ParseRecord(old(records.entries)[cursor.index].val).value.0}
      ensures r.Ok? ==> (Reconcilable(desired) <==> old(Reconcilable(desired)))
      ensures r.Ok? ==> records.entries == RemoveAt(old(records.entries), cursor.index)
                        && cursor'.Erased? && cursor'.index == cursor.index
    {
      hide Covered, RecordsOwned, Accounted, ParseRecord, Payload, RecordKey, LittleEndian, RemoveAt;
      ghost var i, recs, idx := cursor.index, records.entries, index.entries;
      ghost var e := recs[i];
      StaleFate(i, desired);
      cursor' := cursor;
      var decoded := DecodeRecordKey(records.entries[cursor.index].key);
      if decoded.None? {
        return Corrupted, cursor'; // "Corrupted hashed key-value record key"
      }
      var (h, o) := decoded.value;
      IndexedIffOwned(hash, records.flags, recs, idx, view, ordinal, i, h, o);
      cursor' := records.CursorDel(cursor);
      var found := DeleteIndexEntry(h, o);
      if !found {
        Dropped(hash, recs, records.entries, idx, view, ordinal, e);
        return IndexEntryMissing, cursor';
      }
      ghost var k := OwnerOf(hash, view, ordinal, e, h, o);
      Erased(hash, recs, records.entries, idx, index.entries, view, ordinal, k);
      StillAccounted(hash, recs, records.entries, view, ordinal, k, desired);
      view, ordinal := view - {k}, ordinal - {k};
      r := Ok(());
    }

    /** A stale record has to be somebody's for the whole to be accounted for, and then its
        record key decodes. */
    lemma StaleFate(i: nat, desired: set<KeyBytes>)
      requires i < |records.entries|
      requires var p := ParseRecord(records.entries[i].val); p.Some? && p.value.0 !in desired
      ensures Reconcilable(desired) ==> OwnedRecord(hash, view, ordinal, records.entries[i])
      ensures OwnedRecord(hash, view, ordinal, records.entries[i]) ==> |records.entries[i].key| == 16
      ensures RecordsOwned(hash, records.entries, view, ordinal) ==> OwnedRecord(hash, view, ordinal, records.entries[i])
    {
      var e := records.entries[i];
      assert e in records.entries && !Desired(e, desired);
    }

    static lemma OwnerOf(hash: Hasher, view: map<KeyBytes, Bytes>, ord: map<KeyBytes, uint64>, e: Entry, h: uint64, o: uint64)
      returns (k: KeyBytes)
      requires OwnedRecord(hash, view, ord, e) && e.key == RecordKey(h, o)
      ensures k in view && k in ord && e == RecordEntry(hash, k, view[k], ord[k]) && hash(k) == h && ord[k] == o
      ensures ParseRecord(e.val) == Some((k, view[k]))
    {
      k :| k in view && k in ord && e == RecordEntry(hash, k, view[k], ord[k]);
      RecordKeyInjective(h, o, hash(k), ord[k]);
      RecordExact(e.val, k, view[k]);
    }

    /** A record nobody owns has gone: the others are still covered. */
    static lemma Dropped(hash: Hasher, recs: seq<Entry>, recs': seq<Entry>, idx: seq<Entry>,
                         view: map<KeyBytes, Bytes>, ord: map<KeyBytes, uint64>, e: Entry)
      requires Covered(hash, recs, idx, view, ord) && !OwnedRecord(hash, view, ord, e)
      requires forall x :: x in recs' <==> x in recs && x != e
      ensures Covered(hash, recs', idx, view, ord)
    {
      RecordsShrink(hash, recs, recs', view, ord, e);
    }

    static lemma StillAccounted(hash: Hasher, recs: seq<Entry>, recs': seq<Entry>, view: map<KeyBytes, Bytes>,
                                ord: map<KeyBytes, uint64>, k: KeyBytes, desired: set<KeyBytes>)
      requires k in view && k in ord && RecordEntry(hash, k, view[k], ord[k]) in recs
      requires forall x :: x in recs' <==> x in recs && x != RecordEntry(hash, k, view[k], ord[k])
      ensures Accounted(hash, recs, view, ord, desired) <==> Accounted(hash, recs', view - {k}, ord - {k}, desired)
    {
      hide RecordKey, Payload;
      if Accounted(hash, recs, view, ord, desired) {
        forall e | e in recs' ensures Desired(e, desired) || OwnedRecord(hash, view - {k}, ord - {k}, e) {
          if OwnedRecord(hash, view, ord, e) { StillOwned(hash, view, ord, k, e); }
        }
      }
      if Accounted(hash, recs', view - {k}, ord - {k}, desired) {
        forall e | e in recs ensures Desired(e, desired) || OwnedRecord(hash, view, ord, e) {
          if e in recs' && OwnedRecord(hash, view - {k}, ord - {k}, e) {
            var x :| x in view - {k} && x in ord - {k} && e == RecordEntry(hash, x, (view - {k})[x], (ord - {k})[x]);
            assert x in view && x in ord && e == RecordEntry(hash, x, view[x], ord[x]);
          }
        }
      }
    }

    /** db_clear empties both DBIs, whatever state they were in. */
    method ClearAll()
      requires Wired()
      modifies this, records, index
      ensures Valid() && view == map[] && issued == old(issued)
    {
      records.Drop();
      index.Drop();
      view, ordinal := map[], map[];
    }
  }
}
