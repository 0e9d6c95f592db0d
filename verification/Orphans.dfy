/** What a duplicate-size limit of 1 to 7 bytes does to the LargeValues layout when the
    caller's own transaction goes on after the refused write: a record is left that the
    index does not know, and what every later call makes of it. */
module Orphans {
  import opened ByteStrings
  import opened OrderedStore
  import opened HashedRecords
  import opened LargeAgreement
  import opened LargeStore

  /** The witness: the first insert into an empty store. */
  method OrphanRecord(hash: Hasher, limit: int, key: KeyBytes, value: Bytes) returns (store: LargeValuesStore)
    requires 0 < limit < 8
    ensures fresh(store) && fresh(store.records) && fresh(store.index) && store.hash == hash && store.limit == limit
    ensures store.Orphaned(key, value, 0) && !store.Valid() && store.view == map[] && AllFormed(store.records.entries)
  {
    hide Covered, RecordsOwned, AllFormed;
    store := new LargeValuesStore(hash, limit);
    OwnedFormed(hash, store.records.entries, store.view, store.ordinal);
    var r := store.InsertIfAbsent(key, value);
    FirstSlot(store, key, value);
  }

  lemma FirstSlot(store: LargeValuesStore, key: KeyBytes, value: Bytes)
    requires store.view == map[] && store.Indexed()
    ensures forall o: uint64 {:trigger store.Orphaned(key, value, o)} :: store.Orphaned(key, value, o) ==> o == 0
    ensures !store.BucketExhausted(store.hash(key))
  {
    hide Covered;
    if store.BucketExhausted(store.hash(key)) {
      var k := store.ExhaustedOwner(store.hash(key));
      assert false;
    }
  }

  /** On any store that agrees, a new key's insert leaves an orphan exactly when its bucket
      has an ordinal left and the limit does not admit an index entry. */
  method InsertOrphansIff(store: LargeValuesStore, key: KeyBytes, value: Bytes) returns (r: Result<bool>)
    requires store.Valid() && key !in store.view
    modifies store, store.records, store.index
    ensures (exists o: uint64 :: store.Orphaned(key, value, o)) <==>
            !old(store.BucketExhausted(store.hash(key))) && 0 < store.limit < 8
    ensures store.Valid() <==> !(exists o: uint64 :: store.Orphaned(key, value, o))
    ensures AllFormed(store.records.entries)
  {
    hide Covered, RecordsOwned, AllFormed;
    OwnedFormed(store.hash, store.records.entries, store.view, store.ordinal);
    r := store.InsertIfAbsent(key, value);
    forall o: uint64 | store.Orphaned(key, value, o) ensures !store.Valid() {
      store.OrphanTakesSlot(key, value, o);
    }
  }

  /** Lookups do not see the orphan, but the count does. */
  method OrphanIsCounted(store: LargeValuesStore, key: KeyBytes, value: Bytes, o: uint64)
    returns (found: bool, got: Option<Bytes>, n: nat)
    requires store.Orphaned(key, value, o)
    ensures !found && got.None? && n > |store.view|
  {
    hide Covered, RecordsOwned, OrphanIn;
    store.OrphanTakesSlot(key, value, o);
    OrphanNotStored(store, key, value, o);
    found := store.Contains(key);
    got := store.Get(key);
    n := store.Count();
  }

  lemma OrphanNotStored(store: LargeValuesStore, key: KeyBytes, value: Bytes, o: uint64)
    requires store.Orphaned(key, value, o)
    ensures key !in store.view
  {
  }

  /** Opened again under any configuration: the orphan is still there, every new key of its
      bucket, the orphan's own included, is refused at the record write by both insert
      calls, and nothing changes. */
  method OrphanBlocksBucket(store: LargeValuesStore, limit: int, key: KeyBytes, value: Bytes, o: uint64,
                            other: KeyBytes, otherValue: Bytes)
    returns (again: LargeValuesStore, inserted: Result<bool>, upserted: Result<()>)
    requires store.Orphaned(key, value, o) && other !in store.view && store.hash(other) == store.hash(key)
    modifies store.records, store.index
    ensures fresh(again) && again.records == store.records && again.index == store.index && again.limit == limit
    ensures inserted.RecordKeyTaken? && upserted.RecordKeyTaken?
    ensures again.Orphaned(key, value, o) && again.view == store.view
    ensures store.records.entries == old(store.records.entries) && store.index.entries == old(store.index.entries)
  {
    hide Covered, RecordsOwned, OrphanIn;
    again := new LargeValuesStore.Reopen(store, limit);
    again.OrphanTakesSlot(key, value, o);
    inserted := again.InsertIfAbsent(other, otherValue);
    again.OrphanTakesSlot(key, value, o);
    upserted := again.InsertOrAssign(other, otherValue);
  }

  /** Opened again under any configuration, no source at all can be reconciled: either the
      write of a new key is refused, or the deleting scan meets the orphan, deletes it and
      misses its index entry. The latter for every source that names stored keys only. */
  method OrphanBlocksReconcile(store: LargeValuesStore, limit: int, key: KeyBytes, value: Bytes, o: uint64, source: Pairs)
    returns (r: Result<()>, n: nat)
    requires store.Orphaned(key, value, o) && AllFormed(store.records.entries)
    modifies store.records, store.index
    ensures n <= |source|
    ensures n == |source| ==> r.IndexEntryMissing?
    ensures n < |source| ==> source[n].0 !in store.view && (r.OrdinalExhausted? || r.RecordKeyTaken? || r.IndexEntryTooLarge?)
    ensures (forall p :: p in source ==> p.0 in store.view) ==> n == |source|
  {
    var again := new LargeValuesStore.Reopen(store, limit);
    assert OrphanIn(again.hash, again.records.entries, again.view, again.ordinal, key, value, o);
    hide Covered, RecordsOwned, OrphanIn, AllFormed;
    r, n := again.ReconcileWith(source);
    assert n < |source| ==> source[n] in source;
  }

  /** Clearing repairs the store, whatever state its DBIs were in. */
  method ClearRepairs(store: LargeValuesStore, key: KeyBytes, value: Bytes, o: uint64)
    requires store.Orphaned(key, value, o)
    modifies store, store.records, store.index
    ensures store.Valid() && store.view == map[]
  {
    store.ClearAll();
  }
}
