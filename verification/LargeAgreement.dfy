/** When the record table and the hash index of the LargeValues layout agree with a map
    from key bytes to values, and what each kind of write does to that. */
module LargeAgreement {
  import opened ByteStrings
  import opened OrderedStore
  import opened HashedRecords

  function RecordEntry(hash: Hasher, k: KeyBytes, v: Bytes, o: uint64): Entry {
    Entry(RecordKey(hash(k), o), Payload(k, v))
  }

  function IndexEntry(hash: Hasher, k: KeyBytes, o: uint64): Entry {
    Entry(LittleEndian(hash(k), 8), LittleEndian(o, 8))
  }

  /** The record entry belongs to a key of the map. */
  ghost predicate OwnedRecord(hash: Hasher, view: map<KeyBytes, Bytes>, ord: map<KeyBytes, uint64>, e: Entry) {
    exists k :: k in view && k in ord && e == RecordEntry(hash, k, view[k], ord[k])
  }

  /** The index entry belongs to a key of the map. */
  ghost predicate OwnedIndex(hash: Hasher, ord: map<KeyBytes, uint64>, e: Entry) {
    exists k :: k in ord && e == IndexEntry(hash, k, ord[k])
  }

  ghost predicate SameSlot(hash: Hasher, ord: map<KeyBytes, uint64>, k: KeyBytes, k': KeyBytes) {
    k in ord && k' in ord && hash(k) == hash(k') && ord[k] == ord[k']
  }

  /** Every key of the map has its record. */
  ghost predicate RecordsCover(hash: Hasher, recs: seq<Entry>, view: map<KeyBytes, Bytes>, ord: map<KeyBytes, uint64>) {
    && view.Keys == ord.Keys
    && (forall k {:trigger RecordEntry(hash, k, view[k], ord[k])} ::
          k in view ==> RecordEntry(hash, k, view[k], ord[k]) in recs)
  }

  /** No other record is there. */
  ghost predicate RecordsOwned(hash: Hasher, recs: seq<Entry>, view: map<KeyBytes, Bytes>, ord: map<KeyBytes, uint64>) {
    forall e {:trigger OwnedRecord(hash, view, ord, e)} :: e in recs ==> OwnedRecord(hash, view, ord, e)
  }

  /** One index entry per key, no other entry, and no two keys in one slot. */
  ghost predicate IndexAgrees(hash: Hasher, idx: seq<Entry>, ord: map<KeyBytes, uint64>) {
    && (forall k {:trigger IndexEntry(hash, k, ord[k])} :: k in ord ==> IndexEntry(hash, k, ord[k]) in idx)
    && (forall e {:trigger OwnedIndex(hash, ord, e)} :: e in idx ==> OwnedIndex(hash, ord, e))
    && (forall k, k' {:trigger SameSlot(hash, ord, k, k')} :: SameSlot(hash, ord, k, k') ==> k == k')
  }

  /** The index is exact and leads to the record of every key of the map. */
  ghost predicate Covered(hash: Hasher, recs: seq<Entry>, idx: seq<Entry>,
                          view: map<KeyBytes, Bytes>, ord: map<KeyBytes, uint64>)
  {
    RecordsCover(hash, recs, view, ord) && IndexAgrees(hash, idx, ord)
  }

  /** The ordinal next_ordinal gives: above all of the bucket, by one. */
  ghost predicate NextFree(hash: Hasher, ord: map<KeyBytes, uint64>, h: uint64, o: nat) {
    && (forall k :: k in ord && hash(k) == h ==> ord[k] < o)
    && (o > 0 ==> exists k :: k in ord && hash(k) == h && ord[k] == o - 1)
  }

  lemma NextFreeUnique(hash: Hasher, ord: map<KeyBytes, uint64>, h: uint64, o: nat, o': nat)
    requires NextFree(hash, ord, h, o) && NextFree(hash, ord, h, o')
    ensures o == o'
  {
  }

  /** A record of a key the map does not have, right where the bucket's next record goes. */
  ghost predicate OrphanIn(hash: Hasher, recs: seq<Entry>, view: map<KeyBytes, Bytes>, ord: map<KeyBytes, uint64>,
                           k: KeyBytes, v: Bytes, o: uint64)
  {
    k !in view && NextFree(hash, ord, hash(k), o) && RecordEntry(hash, k, v, o) in recs
  }

  /** The record parses and its key decodes. */
  ghost predicate Formed(e: Entry) {
    ParseRecord(e.val).Some? && |e.key| == 16
  }

  ghost predicate AllFormed(recs: seq<Entry>) {
    forall e {:trigger Formed(e)} :: e in recs ==> Formed(e)
  }

  /** Every orphan of one state is one of the other, and no malformed record is new. */
  ghost predicate KeepsOrphans(hash: Hasher, recs: seq<Entry>, view: map<KeyBytes, Bytes>, ord: map<KeyBytes, uint64>,
                               recs': seq<Entry>, view': map<KeyBytes, Bytes>, ord': map<KeyBytes, uint64>)
  {
    && (AllFormed(recs) ==> AllFormed(recs'))
    && (forall k, v, o: uint64 {:trigger OrphanIn(hash, recs', view', ord', k, v, o)} ::
          OrphanIn(hash, recs, view, ord, k, v, o) ==> OrphanIn(hash, recs', view', ord', k, v, o))
  }

  lemma RecordFormed(hash: Hasher, k: KeyBytes, v: Bytes, o: uint64)
    ensures Formed(RecordEntry(hash, k, v, o))
  {
    RecordExact(Payload(k, v), k, v);
  }

  lemma OwnedFormed(hash: Hasher, recs: seq<Entry>, view: map<KeyBytes, Bytes>, ord: map<KeyBytes, uint64>)
    requires RecordsOwned(hash, recs, view, ord)
    ensures AllFormed(recs)
  {
    forall e | e in recs ensures Formed(e) {
      assert OwnedRecord(hash, view, ord, e);
      var k :| k in view && k in ord && e == RecordEntry(hash, k, view[k], ord[k]);
      RecordFormed(hash, k, view[k], ord[k]);
    }
  }

  lemma IndexEntryInjective(hash: Hasher, k: KeyBytes, o: uint64, k': KeyBytes, o': uint64)
    requires IndexEntry(hash, k, o) == IndexEntry(hash, k', o')
    ensures hash(k) == hash(k') && o == o'
  {
    Pow256Widths();
    LittleEndianInjective(hash(k), hash(k'), 8);
    LittleEndianInjective(o, o', 8);
  }

  lemma PayloadInjective(k: KeyBytes, v: Bytes, k': KeyBytes, v': Bytes)
    requires Payload(k, v) == Payload(k', v')
    ensures k == k' && v == v'
  {
    RecordExact(Payload(k, v), k, v);
    RecordExact(Payload(k, v), k', v');
  }

  lemma RecordsInsert(hash: Hasher, recs: seq<Entry>, recs': seq<Entry>,
                      view: map<KeyBytes, Bytes>, ord: map<KeyBytes, uint64>, k: KeyBytes, v: Bytes, o: uint64)
    requires RecordsCover(hash, recs, view, ord) && k !in view
    requires forall x :: x in recs' <==> x in recs || x == RecordEntry(hash, k, v, o)
    ensures RecordsCover(hash, recs', view[k := v], ord[k := o])
    ensures RecordsOwned(hash, recs, view, ord) ==> RecordsOwned(hash, recs', view[k := v], ord[k := o])
  {
    hide RecordKey, Payload, LittleEndian;
    var view', ord' := view[k := v], ord[k := o];
    forall x | x in view' ensures RecordEntry(hash, x, view'[x], ord'[x]) in recs' {
      if x != k { assert RecordEntry(hash, x, view[x], ord[x]) in recs; }
    }
    if RecordsOwned(hash, recs, view, ord) {
      forall e | e in recs' ensures OwnedRecord(hash, view', ord', e) {
        if e in recs {
          assert OwnedRecord(hash, view, ord, e);
          var x :| x in view && e == RecordEntry(hash, x, view[x], ord[x]);
          assert x in view' && view'[x] == view[x];
        } else {
          assert k in view';
        }
      }
    }
  }

  /** A new key takes a slot nobody has. */
  lemma IndexInsert(hash: Hasher, idx: seq<Entry>, idx': seq<Entry>, ord: map<KeyBytes, uint64>, k: KeyBytes, o: uint64)
    requires IndexAgrees(hash, idx, ord) && k !in ord
    requires forall x :: x in ord && hash(x) == hash(k) ==> ord[x] != o
    requires forall x :: x in idx' <==> x in idx || x == IndexEntry(hash, k, o)
    ensures IndexAgrees(hash, idx', ord[k := o])
  {
    hide LittleEndian;
    var ord' := ord[k := o];
    forall x, y | SameSlot(hash, ord', x, y) ensures x == y {
      assert x != k && y != k ==> SameSlot(hash, ord, x, y);
    }
    forall x | x in ord' ensures IndexEntry(hash, x, ord'[x]) in idx' {
      if x != k { assert IndexEntry(hash, x, ord[x]) in idx; }
    }
    forall e | e in idx' ensures OwnedIndex(hash, ord', e) {
      if e in idx {
        assert OwnedIndex(hash, ord, e);
        var x :| x in ord && e == IndexEntry(hash, x, ord[x]);
        assert x in ord' && ord'[x] == ord[x];
      } else {
        assert k in ord';
      }
    }
  }

  /** Writing a known key replaces its record; the index is not touched. */
  lemma RecordsAssign(hash: Hasher, recs: seq<Entry>, recs': seq<Entry>, idx: seq<Entry>,
                      view: map<KeyBytes, Bytes>, ord: map<KeyBytes, uint64>, k: KeyBytes, v: Bytes)
    requires RecordsCover(hash, recs, view, ord) && IndexAgrees(hash, idx, ord) && k in view
    requires var e := RecordEntry(hash, k, v, ord[k]);
             forall x :: x in recs' <==> x == e || (x in recs && x.key != e.key)
    ensures RecordsCover(hash, recs', view[k := v], ord)
    ensures RecordsOwned(hash, recs, view, ord) ==> RecordsOwned(hash, recs', view[k := v], ord)
  {
    hide RecordKey, Payload, LittleEndian;
    var view' := view[k := v];
    assert view'.Keys == view.Keys;
    forall x | x in view' ensures RecordEntry(hash, x, view'[x], ord[x]) in recs' {
      if x != k {
        assert RecordEntry(hash, x, view[x], ord[x]) in recs;
        assert !SameSlot(hash, ord, x, k);
        RecordKeyInjective(hash(x), ord[x], hash(k), ord[k]);
      }
    }
    if RecordsOwned(hash, recs, view, ord) {
      forall e | e in recs' ensures OwnedRecord(hash, view', ord, e) {
        if e != RecordEntry(hash, k, v, ord[k]) {
          assert OwnedRecord(hash, view, ord, e);
          var x :| x in view && e == RecordEntry(hash, x, view[x], ord[x]);
          assert x in view' && view'[x] == view[x];
        } else {
          assert k in view';
        }
      }
    }
  }

  /** Dropping a key's record and its index entry drops the key. */
  lemma RecordsErase(hash: Hasher, recs: seq<Entry>, recs': seq<Entry>,
                     view: map<KeyBytes, Bytes>, ord: map<KeyBytes, uint64>, k: KeyBytes)
    requires RecordsCover(hash, recs, view, ord) && k in view
    requires forall x :: x in recs' <==> x in recs && x != RecordEntry(hash, k, view[k], ord[k])
    ensures RecordsCover(hash, recs', view - {k}, ord - {k})
    ensures RecordsOwned(hash, recs, view, ord) ==> RecordsOwned(hash, recs', view - {k}, ord - {k})
  {
    hide RecordKey, Payload, LittleEndian;
    var view', ord' := view - {k}, ord - {k};
    forall x | x in view' ensures RecordEntry(hash, x, view'[x], ord'[x]) in recs' {
      assert RecordEntry(hash, x, view[x], ord[x]) in recs;
      if RecordEntry(hash, x, view[x], ord[x]) == RecordEntry(hash, k, view[k], ord[k]) {
        PayloadInjective(x, view[x], k, view[k]);
      }
    }
    if RecordsOwned(hash, recs, view, ord) {
      forall e | e in recs' ensures OwnedRecord(hash, view', ord', e) {
        assert OwnedRecord(hash, view, ord, e);
        StillOwned(hash, view, ord, k, e);
      }
    }
  }

  /** Dropping a key leaves the records of the others owned. */
  lemma StillOwned(hash: Hasher, view: map<KeyBytes, Bytes>, ord: map<KeyBytes, uint64>, k: KeyBytes, e: Entry)
    requires k in view && k in ord && OwnedRecord(hash, view, ord, e) && e != RecordEntry(hash, k, view[k], ord[k])
    ensures OwnedRecord(hash, view - {k}, ord - {k}, e)
  {
    hide RecordKey, Payload;
    var x :| x in view && x in ord && e == RecordEntry(hash, x, view[x], ord[x]);
    assert x in view - {k} && x in ord - {k};
  }

  lemma IndexErase(hash: Hasher, idx: seq<Entry>, idx': seq<Entry>, ord: map<KeyBytes, uint64>, k: KeyBytes)
    requires IndexAgrees(hash, idx, ord) && k in ord
    requires forall x :: x in idx' <==> x in idx && x != IndexEntry(hash, k, ord[k])
    ensures IndexAgrees(hash, idx', ord - {k})
  {
    hide LittleEndian;
    var ord' := ord - {k};
    forall x, y | SameSlot(hash, ord', x, y) ensures x == y {
      assert SameSlot(hash, ord, x, y);
    }
    forall x | x in ord' ensures IndexEntry(hash, x, ord'[x]) in idx' {
      assert IndexEntry(hash, x, ord[x]) in idx;
      assert SameSlot(hash, ord, x, k) ==> x == k;
      if IndexEntry(hash, x, ord[x]) == IndexEntry(hash, k, ord[k]) {
        IndexEntryInjective(hash, x, ord[x], k, ord[k]);
      }
    }
    forall e | e in idx' ensures OwnedIndex(hash, ord', e) {
      assert OwnedIndex(hash, ord, e);
      var x :| x in ord && e == IndexEntry(hash, x, ord[x]);
      assert x in ord';
    }
  }

  /** A record of a key the map does not have is nobody's. */
  lemma NobodysRecord(hash: Hasher, view: map<KeyBytes, Bytes>, ord: map<KeyBytes, uint64>, k: KeyBytes, v: Bytes, o: uint64)
    requires k !in view
    ensures !OwnedRecord(hash, view, ord, RecordEntry(hash, k, v, o))
  {
    var e := RecordEntry(hash, k, v, o);
    if OwnedRecord(hash, view, ord, e) {
      var x :| x in view && x in ord && e == RecordEntry(hash, x, view[x], ord[x]);
      PayloadInjective(x, view[x], k, v);
    }
  }

  /** A record that stays while a key's record is added keeps the others covered. */
  lemma RecordsGrow(hash: Hasher, recs: seq<Entry>, recs': seq<Entry>, view: map<KeyBytes, Bytes>, ord: map<KeyBytes, uint64>)
    requires RecordsCover(hash, recs, view, ord) && forall x :: x in recs ==> x in recs'
    ensures RecordsCover(hash, recs', view, ord)
  {
  }

  /** A record nobody owns can go without uncovering anybody. */
  lemma RecordsShrink(hash: Hasher, recs: seq<Entry>, recs': seq<Entry>, view: map<KeyBytes, Bytes>, ord: map<KeyBytes, uint64>,
                      e: Entry)
    requires RecordsCover(hash, recs, view, ord) && !OwnedRecord(hash, view, ord, e)
    requires forall x :: x in recs' <==> x in recs && x != e
    ensures RecordsCover(hash, recs', view, ord)
  {
    hide RecordKey, Payload;
    forall k | k in view ensures RecordEntry(hash, k, view[k], ord[k]) in recs' {
      assert RecordEntry(hash, k, view[k], ord[k]) in recs;
    }
  }

  /** The index entry of a record is there exactly when the record is somebody's. */
  lemma IndexedIffOwned(hash: Hasher, f: DbiFlags, recs: seq<Entry>, idx: seq<Entry>, view: map<KeyBytes, Bytes>,
                        ord: map<KeyBytes, uint64>, i: nat, h: uint64, o: uint64)
    requires Sorted(f, recs) && !f.dupsort && Covered(hash, recs, idx, view, ord)
    requires i < |recs| && recs[i].key == RecordKey(h, o)
    ensures Entry(LittleEndian(h, 8), LittleEndian(o, 8)) in idx <==> OwnedRecord(hash, view, ord, recs[i])
  {
    hide RecordKey, Payload, LittleEndian, Sorted;
    var e := Entry(LittleEndian(h, 8), LittleEndian(o, 8));
    if e in idx {
      assert OwnedIndex(hash, ord, e);
      var x :| x in ord && e == IndexEntry(hash, x, ord[x]);
      EntryParts(h, o, hash(x), ord[x]);
      SoleKey(f, recs, i);
      assert RecordEntry(hash, x, view[x], ord[x]) in recs;
      assert recs[i] == RecordEntry(hash, x, view[x], ord[x]);
    }
    if OwnedRecord(hash, view, ord, recs[i]) {
      var x :| x in view && x in ord && recs[i] == RecordEntry(hash, x, view[x], ord[x]);
      RecordKeyInjective(h, o, hash(x), ord[x]);
      assert IndexEntry(hash, x, ord[x]) in idx;
    }
  }

  lemma EntryParts(h: uint64, o: uint64, h': uint64, o': uint64)
    requires LittleEndian(h, 8) == LittleEndian(h', 8) && LittleEndian(o, 8) == LittleEndian(o', 8)
    ensures h == h' && o == o'
  {
    Pow256Widths();
    LittleEndianInjective(h, h', 8);
    LittleEndianInjective(o, o', 8);
  }

  lemma SomeOwner(hash: Hasher, recs: seq<Entry>, view: map<KeyBytes, Bytes>, ord: map<KeyBytes, uint64>)
    requires RecordsOwned(hash, recs, view, ord) && recs != []
    ensures view.Keys != {}
  {
    assert OwnedRecord(hash, view, ord, recs[0]);
  }

  lemma SomeIndexOwner(hash: Hasher, idx: seq<Entry>, ord: map<KeyBytes, uint64>)
    requires IndexAgrees(hash, idx, ord) && idx != []
    ensures ord.Keys != {}
  {
    assert OwnedIndex(hash, ord, idx[0]);
  }

  /** One record and one index entry per key, so the counts are equal too. */
  lemma {:induction false} AgreeCount(hash: Hasher, f: DbiFlags, g: DbiFlags, recs: seq<Entry>, idx: seq<Entry>,
                                      view: map<KeyBytes, Bytes>, ord: map<KeyBytes, uint64>)
    requires Covered(hash, recs, idx, view, ord) && RecordsOwned(hash, recs, view, ord) && Sorted(f, recs) && Sorted(g, idx)
    ensures |recs| == |view| == |idx|
    decreases |view|
  {
    hide RecordKey, Payload, LittleEndian;
    if |view| == 0 {
      assert view == map[];
      if recs != [] {
        SomeOwner(hash, recs, view, ord);
        assert false;
      }
      if idx != [] {
        SomeIndexOwner(hash, idx, ord);
        assert false;
      }
    } else {
      assert view.Keys != {};
      var k :| k in view;
      var i :| 0 <= i < |recs| && recs[i] == RecordEntry(hash, k, view[k], ord[k]);
      var j :| 0 <= j < |idx| && idx[j] == IndexEntry(hash, k, ord[k]);
      RemoveSorted(f, recs, i);
      RemoveSorted(g, idx, j);
      RecordsErase(hash, recs, RemoveAt(recs, i), view, ord, k);
      IndexErase(hash, idx, RemoveAt(idx, j), ord, k);
      assert (view - {k}).Keys == view.Keys - {k};
      AgreeCount(hash, f, g, RemoveAt(recs, i), RemoveAt(idx, j), view - {k}, ord - {k});
    }
  }

  /** Covering records are at least as many as the keys. */
  lemma {:induction false} CoverCount(hash: Hasher, f: DbiFlags, recs: seq<Entry>, view: map<KeyBytes, Bytes>,
                                      ord: map<KeyBytes, uint64>)
    requires RecordsCover(hash, recs, view, ord) && Sorted(f, recs)
    ensures |recs| >= |view|
    decreases |view|
  {
    hide RecordKey, Payload;
    if |view| > 0 {
      assert view.Keys != {};
      var k :| k in view;
      assert RecordEntry(hash, k, view[k], ord[k]) in recs;
      var i :| 0 <= i < |recs| && recs[i] == RecordEntry(hash, k, view[k], ord[k]);
      RemoveSorted(f, recs, i);
      RecordsErase(hash, recs, RemoveAt(recs, i), view, ord, k);
      assert (view - {k}).Keys == view.Keys - {k};
      CoverCount(hash, f, RemoveAt(recs, i), view - {k}, ord - {k});
    }
  }

  /** A record nobody owns makes them more. */
  lemma ExtraCount(hash: Hasher, f: DbiFlags, recs: seq<Entry>, view: map<KeyBytes, Bytes>, ord: map<KeyBytes, uint64>, e: Entry)
    requires RecordsCover(hash, recs, view, ord) && Sorted(f, recs) && e in recs && !OwnedRecord(hash, view, ord, e)
    ensures |recs| > |view|
  {
    var i :| 0 <= i < |recs| && recs[i] == e;
    RemoveSorted(f, recs, i);
    RecordsShrink(hash, recs, RemoveAt(recs, i), view, ord, e);
    CoverCount(hash, f, RemoveAt(recs, i), view, ord);
  }

  // ---------------------------------------------------------------- orphans

  lemma KeepsNone(hash: Hasher, recs: seq<Entry>, view: map<KeyBytes, Bytes>, ord: map<KeyBytes, uint64>)
    ensures KeepsOrphans(hash, recs, view, ord, recs, view, ord)
  {
  }

  lemma KeepsTrans(hash: Hasher, recs: seq<Entry>, view: map<KeyBytes, Bytes>, ord: map<KeyBytes, uint64>,
                   recs': seq<Entry>, view': map<KeyBytes, Bytes>, ord': map<KeyBytes, uint64>,
                   recs'': seq<Entry>, view'': map<KeyBytes, Bytes>, ord'': map<KeyBytes, uint64>)
    requires KeepsOrphans(hash, recs, view, ord, recs', view', ord')
    requires KeepsOrphans(hash, recs', view', ord', recs'', view'', ord'')
    ensures KeepsOrphans(hash, recs, view, ord, recs'', view'', ord'')
  {
    hide OrphanIn;
    forall k, v, o: uint64 | OrphanIn(hash, recs, view, ord, k, v, o) ensures OrphanIn(hash, recs'', view'', ord'', k, v, o) {
      assert OrphanIn(hash, recs', view', ord', k, v, o);
    }
  }

  /** A new key that found its slot free is in another bucket than any orphan. */
  lemma InsertKeepsOrphans(hash: Hasher, recs: seq<Entry>, recs': seq<Entry>, view: map<KeyBytes, Bytes>,
                           ord: map<KeyBytes, uint64>, key: KeyBytes, value: Bytes, o: uint64)
    requires NextFree(hash, ord, hash(key), o) && forall e :: e in recs ==> e.key != RecordKey(hash(key), o)
    requires forall e :: e in recs' <==> e in recs || e == RecordEntry(hash, key, value, o)
    ensures KeepsOrphans(hash, recs, view, ord, recs', view[key := value], ord[key := o])
  {
    RecordFormed(hash, key, value, o);
    forall k, v, p: uint64 | OrphanIn(hash, recs, view, ord, k, v, p)
      ensures OrphanIn(hash, recs', view[key := value], ord[key := o], k, v, p)
    {
      OneSlot(hash, ord, k, p, key, o);
      assert RecordEntry(hash, k, v, p).key == RecordKey(hash(k), p);
      if p > 0 {
        var x :| x in ord && hash(x) == hash(k) && ord[x] == p - 1;
        assert x in ord[key := o] && ord[key := o][x] == p - 1;
      }
    }
  }

  lemma OneSlot(hash: Hasher, ord: map<KeyBytes, uint64>, k: KeyBytes, p: nat, key: KeyBytes, o: nat)
    requires NextFree(hash, ord, hash(k), p) && NextFree(hash, ord, hash(key), o)
    ensures hash(k) == hash(key) ==> p == o
  {
    if hash(k) == hash(key) { NextFreeUnique(hash, ord, hash(k), p, o); }
  }

  /** Overwriting a stored key's record touches no orphan: its record key is no stored key's. */
  lemma AssignKeepsOrphans(hash: Hasher, recs: seq<Entry>, recs': seq<Entry>, view: map<KeyBytes, Bytes>,
                           ord: map<KeyBytes, uint64>, key: KeyBytes, value: Bytes)
    requires key in view && key in ord
    requires var e := RecordEntry(hash, key, value, ord[key]);
             forall x :: x in recs' <==> x == e || (x in recs && x.key != e.key)
    ensures KeepsOrphans(hash, recs, view, ord, recs', view[key := value], ord)
  {
    hide RecordKey, Payload, Formed;
    RecordFormed(hash, key, value, ord[key]);
    forall k, v, p: uint64 | OrphanIn(hash, recs, view, ord, k, v, p)
      ensures OrphanIn(hash, recs', view[key := value], ord, k, v, p)
    {
      RecordKeyInjective(hash(k), p, hash(key), ord[key]);
    }
  }
}
