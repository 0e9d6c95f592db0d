/** HashedKeyValueStore, SmallValues layout: one DUPSORT DBI whose duplicates carry
    key and value together. */
module SmallStore {
  import opened ByteStrings
  import opened OrderedStore
  import opened HashedRecords

  datatype Result<+T> = Ok(value: T) | TooLarge

  function DupEntry(hash: Hasher, k: KeyBytes, v: Bytes): Entry {
    Entry(LittleEndian(hash(k), 8), Payload(k, v))
  }

  ghost predicate OwnedDup(hash: Hasher, view: map<KeyBytes, Bytes>, e: Entry) {
    exists k :: k in view && e == DupEntry(hash, k, view[k])
  }

  /** Exactly one duplicate per key of `view`. */
  ghost predicate DupsAgree(hash: Hasher, s: seq<Entry>, view: map<KeyBytes, Bytes>) {
    && (forall k {:trigger DupEntry(hash, k, view[k])} :: k in view ==> DupEntry(hash, k, view[k]) in s)
    && (forall e {:trigger OwnedDup(hash, view, e)} :: e in s ==> OwnedDup(hash, view, e))
  }

  lemma DupEntryInjective(hash: Hasher, k: KeyBytes, v: Bytes, k': KeyBytes, v': Bytes)
    requires DupEntry(hash, k, v) == DupEntry(hash, k', v')
    ensures k == k' && v == v'
  {
    RecordExact(Payload(k, v), k, v);
    RecordExact(Payload(k, v), k', v');
  }

  lemma DupsInsert(hash: Hasher, s: seq<Entry>, s': seq<Entry>, view: map<KeyBytes, Bytes>, k: KeyBytes, v: Bytes)
    requires DupsAgree(hash, s, view) && k !in view
    requires forall x :: x in s' <==> x in s || x == DupEntry(hash, k, v)
    ensures DupsAgree(hash, s', view[k := v])
  {
    hide Payload, LittleEndian;
    var view' := view[k := v];
    forall x | x in view' ensures DupEntry(hash, x, view'[x]) in s' {
      if x != k { assert DupEntry(hash, x, view[x]) in s; }
    }
    forall e | e in s' ensures OwnedDup(hash, view', e) {
      if e in s {
        assert OwnedDup(hash, view, e);
        var x :| x in view && e == DupEntry(hash, x, view[x]);
        assert x in view' && view'[x] == view[x];
      } else {
        assert k in view';
      }
    }
  }

  lemma DupsErase(hash: Hasher, s: seq<Entry>, s': seq<Entry>, view: map<KeyBytes, Bytes>, k: KeyBytes)
    requires DupsAgree(hash, s, view) && k in view
    requires forall x :: x in s' <==> x in s && x != DupEntry(hash, k, view[k])
    ensures DupsAgree(hash, s', view - {k})
  {
    hide Payload, LittleEndian;
    var view' := view - {k};
    forall x | x in view' ensures DupEntry(hash, x, view'[x]) in s' {
      assert DupEntry(hash, x, view[x]) in s;
      if DupEntry(hash, x, view[x]) == DupEntry(hash, k, view[k]) {
        DupEntryInjective(hash, x, view[x], k, view[k]);
      }
    }
    forall e | e in s' ensures OwnedDup(hash, view', e) {
      assert OwnedDup(hash, view, e);
      var x :| x in view && e == DupEntry(hash, x, view[x]);
      assert x in view';
    }
  }

  lemma SomeDupOwner(hash: Hasher, s: seq<Entry>, view: map<KeyBytes, Bytes>)
    requires DupsAgree(hash, s, view) && s != []
    ensures view.Keys != {}
  {
    assert OwnedDup(hash, view, s[0]);
  }

  /** At most one duplicate per original key ever exists. */
  lemma {:induction false} DupsCount(hash: Hasher, f: DbiFlags, s: seq<Entry>, view: map<KeyBytes, Bytes>)
    requires DupsAgree(hash, s, view) && Sorted(f, s)
    ensures |s| == |view|
    decreases |view|
  {
    hide Payload, LittleEndian;
    if |view| == 0 {
      assert view == map[];
      if s != [] {
        SomeDupOwner(hash, s, view);
        assert false;
      }
    } else {
      assert view.Keys != {};
      var k :| k in view;
      assert DupEntry(hash, k, view[k]) in s;
      var i :| 0 <= i < |s| && s[i] == DupEntry(hash, k, view[k]);
      RemoveSorted(f, s, i);
      DupsErase(hash, s, RemoveAt(s, i), view, k);
      assert (view - {k}).Keys == view.Keys - {k};
      DupsCount(hash, f, RemoveAt(s, i), view - {k});
    }
  }

  // ---------------------------------------------------------------- the store

  class SmallValuesStore {
    const dups: Dbi
    const hash: Hasher
    /** Config::max_dupsort_value_size; no limit when not positive. */
    const limit: int
    ghost var view: map<KeyBytes, Bytes>

    ghost predicate Valid()
      reads this, dups
    {
      dups.flags.dupsort && dups.Valid() && DupsAgree(hash, dups.entries, view)
    }

    constructor (hash: Hasher, limit: int)
      ensures Valid() && fresh(dups)
      ensures this.hash == hash && this.limit == limit && view == map[]
    {
      IntegerKeyIsStrictOrder();
      dups := new Dbi(DbiFlags(INTEGER_KEY, true));
      this.hash := hash;
      this.limit := limit;
      view := map[];
    }

    /** Every duplicate is some key's, and parses back to that key and its value. */
    lemma DupOwner(i: nat) returns (k: KeyBytes)
      requires Valid() && i < |dups.entries|
      ensures k in view && dups.entries[i] == DupEntry(hash, k, view[k])
      ensures ParseRecord(dups.entries[i].val) == Some((k, view[k]))
      ensures forall x :: x in view && dups.entries[i] == DupEntry(hash, x, view[x]) ==> x == k
    {
      assert OwnedDup(hash, view, dups.entries[i]);
      k :| k in view && dups.entries[i] == DupEntry(hash, k, view[k]);
      RecordExact(dups.entries[i].val, k, view[k]);
      forall x | x in view && dups.entries[i] == DupEntry(hash, x, view[x]) ensures x == k {
        DupEntryInjective(hash, x, view[x], k, view[k]);
      }
    }

    lemma NotInBucket(key: KeyBytes)
      requires Valid()
      requires var lo := LowerIndex(dups.flags.order, dups.entries, LittleEndian(hash(key), 8));
               var hi := UpperIndex(dups.flags.order, dups.entries, LittleEndian(hash(key), 8));
               lo <= hi && (key in view ==> DupEntry(hash, key, view[key]) !in dups.entries[lo..hi])
      ensures key !in view
    {
      hide LittleEndian, KeyLess, LowerIndex, UpperIndex, Payload;
      if key in view {
        assert DupEntry(hash, key, view[key]) in dups.entries;
        var j :| 0 <= j < |dups.entries| && dups.entries[j] == DupEntry(hash, key, view[key]);
        Bounds(dups.flags, dups.entries, LittleEndian(hash(key), 8));
      }
    }

    /** with_matching_duplicate's search: the cursor on the key's duplicate. */
    method FindDup(key: KeyBytes) returns (cursor: Cursor)
      requires Valid()
      ensures cursor.At? <==> key in view
      ensures cursor.At? ==> cursor.index < |dups.entries| && dups.entries[cursor.index] == DupEntry(hash, key, view[key])
      ensures cursor.At? ==> ParseRecord(dups.entries[cursor.index].val) == Some((key, view[key]))
    {
      hide DupsAgree, LittleEndian, LittleEndianValue, Payload, ParseRecord, LowerIndex, UpperIndex, SetKey, NextDup;
      var hashKey := WriteLittleEndian(hash(key), 8);
      ghost var lo := LowerIndex(dups.flags.order, dups.entries, hashKey);
      ghost var hi := UpperIndex(dups.flags.order, dups.entries, hashKey);
      KeyRun(dups.flags, dups.entries, hashKey);
      cursor := SetKey(dups.flags.order, dups.entries, hashKey);
      ghost var done := lo;
      while cursor.At?
        invariant lo <= done <= hi <= |dups.entries|
        invariant cursor == if done < hi then At(done) else Missed
        invariant key in view ==> DupEntry(hash, key, view[key]) !in dups.entries[lo..done]
        decreases hi - done
      {
        ghost var owner := DupOwner(done);
        var record := Parse(dups.entries[cursor.index].val);
        if record.None? {
          assert false; // "Corrupted hashed key-value duplicate value"
        }
        if record.value.0 == key { return; }
        SliceSnoc(dups.entries, lo, done);
        cursor := NextDup(dups.entries, cursor);
        done := done + 1;
      }
      NotInBucket(key);
    }

    method Get(key: KeyBytes) returns (r: Option<Bytes>)
      requires Valid()
      ensures r == if key in view then Some(view[key]) else None
    {
      var cursor := FindDup(key);
      if !cursor.At? { return None; }
      r := Some(ParseRecord(dups.entries[cursor.index].val).value.1);
    }

    method Contains(key: KeyBytes) returns (found: bool)
      requires Valid()
      ensures found <==> key in view
    {
      var cursor := FindDup(key);
      found := cursor.At?;
    }

    /** put_duplicate_payload for a key that is not stored: the pair is always new. */
    method PutDuplicate(key: KeyBytes, value: Bytes) returns (r: Result<()>)
      requires Valid() && key !in view
      modifies this, dups
      ensures Valid()
      ensures r.TooLarge? <==> 0 < limit < |Payload(key, value)|
      ensures view == if r.Ok? then old(view)[key := value] else old(view)
    {
      hide LittleEndian;
      var payload := MakePayload(key, value);
      var hashKey := WriteLittleEndian(hash(key), 8);
      if limit > 0 && |payload| > limit { return TooLarge; }
      if DupEntry(hash, key, value) in dups.entries {
        assert OwnedDup(hash, view, DupEntry(hash, key, value));
        ghost var k :| k in view && DupEntry(hash, key, value) == DupEntry(hash, k, view[k]);
        DupEntryInjective(hash, key, value, k, view[k]);
      }
      var rc := dups.PutDup(hashKey, payload, NoDupData);
      if rc == KeyExist {
        assert false; // "Hashed key-value duplicate already exists"
      }
      DupsInsert(hash, old(dups.entries), dups.entries, view, key, value);
      view := view[key := value];
      r := Ok(());
    }

    /** The found-callback that deletes: cursor_del on the key's duplicate. */
    method DropAt(cursor: Cursor, ghost key: KeyBytes) returns (cursor': Cursor)
      requires Valid() && cursor.At? && cursor.index < |dups.entries|
      requires key in view && dups.entries[cursor.index] == DupEntry(hash, key, view[key])
      modifies this, dups
      ensures Valid() && view == old(view) - {key}
      ensures dups.entries == RemoveAt(old(dups.entries), cursor.index)
      ensures cursor'.Erased? && cursor'.index == cursor.index
    {
      cursor' := dups.CursorDel(cursor);
      DupsErase(hash, old(dups.entries), dups.entries, view, key);
      view := view - {key};
    }

    method InsertIfAbsent(key: KeyBytes, value: Bytes) returns (r: Result<bool>)
      requires Valid()
      modifies this, dups
      ensures Valid()
      ensures r.TooLarge? <==> key !in old(view) && 0 < limit < |Payload(key, value)|
      ensures r.TooLarge? ==> view == old(view)
      ensures r.Ok? ==> r.value == (key !in old(view))
      ensures r.Ok? && key in old(view) ==> view == old(view)
      ensures r.Ok? && key !in old(view) ==> view == old(view)[key := value]
    {
      var cursor := FindDup(key);
      if cursor.At? { return Ok(false); }
      var put := PutDuplicate(key, value);
      r := if put.Ok? then Ok(true) else TooLarge;
    }

    /** The size is checked before the old duplicate goes, so a refusal changes nothing. */
    method InsertOrAssign(key: KeyBytes, value: Bytes) returns (r: Result<()>)
      requires Valid()
      modifies this, dups
      ensures Valid()
      ensures r.TooLarge? <==> 0 < limit < |Payload(key, value)|
      ensures view == if r.Ok? then old(view)[key := value] else old(view)
    {
      var payload := MakePayload(key, value);
      if limit > 0 && |payload| > limit { return TooLarge; }
      var cursor := FindDup(key);
      if cursor.At? {
        cursor := DropAt(cursor, key);
      }
      r := PutDuplicate(key, value);
      assert view == old(view)[key := value];
    }

    method Erase(key: KeyBytes) returns (removed: bool)
      requires Valid()
      modifies this, dups
      ensures Valid()
      ensures removed == (key in old(view)) && view == old(view) - {key}
    {
      var cursor := FindDup(key);
      if !cursor.At? { return false; }
      cursor := DropAt(cursor, key);
      removed := true;
    }

    method Count() returns (n: nat)
      requires Valid()
      ensures n == |view|
    {
      DupsCount(hash, dups.flags, dups.entries, view);
      n := |dups.entries|;
    }

    /** db_load into a vector: every pair once, in bucket order. */
    method Load() returns (out: Pairs)
      requires Valid()
      ensures |out| == |view|
      ensures forall i :: 0 <= i < |out| ==> out[i].0 in view && view[out[i].0] == out[i].1
      ensures forall k :: k in view ==> (k, view[k]) in out
    {
      DupsCount(hash, dups.flags, dups.entries, view);
      out := [];
      var cursor := Next(dups.entries, Unset);
      while cursor.At?
        invariant |out| <= |dups.entries|
        invariant cursor == Land(dups.entries, |out|)
        invariant forall i :: 0 <= i < |out| ==> ParseRecord(dups.entries[i].val) == Some(out[i])
        invariant forall i :: 0 <= i < |out| ==> out[i].0 in view && view[out[i].0] == out[i].1
        decreases |dups.entries| - |out|
      {
        ghost var k := DupOwner(|out|);
        var record := Parse(dups.entries[cursor.index].val);
        if record.None? {
          assert false; // "Corrupted hashed key-value duplicate value"
        }
        out := out + [record.value];
        cursor := Next(dups.entries, cursor);
      }
      forall k | k in view ensures (k, view[k]) in out {
        assert DupEntry(hash, k, view[k]) in dups.entries;
        var i :| 0 <= i < |dups.entries| && dups.entries[i] == DupEntry(hash, k, view[k]);
        RecordExact(dups.entries[i].val, k, view[k]);
        assert out[i] == (k, view[k]);
      }
    }

    /** db_append: stops at the first pair that is too large. */
    method AppendAll(pairs: Pairs) returns (r: Result<()>, n: nat)
      requires Valid()
      modifies this, dups
      ensures Valid()
      ensures n <= |pairs| && view == old(view) + MapOf(pairs[..n])
      ensures r.Ok? <==> limit <= 0 || forall i :: 0 <= i < |pairs| ==> |Payload(pairs[i].0, pairs[i].1)| <= limit
      ensures forall i :: 0 <= i < n ==> !(0 < limit < |Payload(pairs[i].0, pairs[i].1)|)
      ensures r.Ok? ==> n == |pairs| && view == old(view) + MapOf(pairs)
      ensures r.TooLarge? ==> n < |pairs| && 0 < limit < |Payload(pairs[n].0, pairs[n].1)|
    {
      hide DupsAgree;
      n := 0;
      while n < |pairs|
        invariant Valid()
        invariant n <= |pairs| && view == old(view) + MapOf(pairs[..n])
        invariant forall i :: 0 <= i < n ==> !(0 < limit < |Payload(pairs[i].0, pairs[i].1)|)
      {
        var put := InsertOrAssign(pairs[n].0, pairs[n].1);
        if put.TooLarge? { return put, n; }
        MapOfSnoc(pairs, n, old(view));
        n := n + 1;
      }
      assert pairs[..n] == pairs;
      r := Ok(());
    }

    /** db_reconcile_impl: write the source, then drop every stored key it does not name. */
    method ReconcileWith(pairs: Pairs) returns (r: Result<()>, n: nat)
      requires Valid()
      modifies this, dups
      ensures Valid()
      ensures n <= |pairs|
      ensures r.Ok? <==> limit <= 0 || forall i :: 0 <= i < |pairs| ==> |Payload(pairs[i].0, pairs[i].1)| <= limit
      ensures forall i :: 0 <= i < n ==> !(0 < limit < |Payload(pairs[i].0, pairs[i].1)|)
      ensures r.Ok? ==> view == MapOf(pairs)
      ensures r.TooLarge? ==> view == old(view) + MapOf(pairs[..n])
      ensures r.TooLarge? ==> n < |pairs| && 0 < limit < |Payload(pairs[n].0, pairs[n].1)|
    {
      hide DupsAgree, Payload;
      var desired;
      r, n, desired := WriteSource(pairs);
      if r.TooLarge? { return; }
      assert pairs[..n] == pairs;
      ghost var visited := EraseStale(desired);
      RestrictToSource(old(view), pairs);
    }

    /** db_reconcile_impl's first loop. */
    method WriteSource(pairs: Pairs) returns (r: Result<()>, n: nat, desired: set<KeyBytes>)
      requires Valid()
      modifies this, dups
      ensures Valid()
      ensures n <= |pairs| && view == old(view) + MapOf(pairs[..n])
      ensures forall i :: 0 <= i < n ==> !(0 < limit < |Payload(pairs[i].0, pairs[i].1)|)
      ensures r.Ok? ==> n == |pairs| && desired == MapOf(pairs).Keys
      ensures r.TooLarge? ==> n < |pairs| && 0 < limit < |Payload(pairs[n].0, pairs[n].1)|
    {
      hide DupsAgree, Payload;
      desired, n := {}, 0;
      while n < |pairs|
        invariant Valid()
        invariant n <= |pairs| && view == old(view) + MapOf(pairs[..n])
        invariant desired == MapOf(pairs[..n]).Keys
        invariant forall i :: 0 <= i < n ==> !(0 < limit < |Payload(pairs[i].0, pairs[i].1)|)
      {
        MapOfSnoc(pairs, n, old(view));
        var put := InsertOrAssign(pairs[n].0, pairs[n].1);
        if put.TooLarge? { return put, n, desired; }
        desired, n := desired + {pairs[n].0}, n + 1;
      }
      assert pairs[..n] == pairs;
      r := Ok(());
    }

    lemma OnlyDesired(desired: set<KeyBytes>)
      requires Valid() && AllDesired(dups.entries, desired)
      ensures view.Keys <= desired
    {
      forall k | k in view ensures k in desired {
        var e := DupEntry(hash, k, view[k]);
        assert e in dups.entries;
        assert Desired(e, desired);
        RecordExact(e.val, k, view[k]);
      }
    }

    /** The deleting scan: every duplicate that was there is visited once, in order. */
    method EraseStale(desired: set<KeyBytes>) returns (ghost visited: seq<Entry>)
      requires Valid()
      modifies this, dups
      ensures Valid()
      ensures view == Restrict(old(view), desired)
      ensures visited == old(dups.entries)
    {
      ghost var scan := Scan(dups.entries, view, desired);
      ScannedStart(dups.entries, desired);
      var cursor := Next(dups.entries, Unset);
      visited := [];
      ghost var kept: nat := 0;
      assert Scanning(scan, cursor, kept, visited);
      hide Valid, Scanning, Restrict;
      while cursor.At?
        invariant Valid() && Scanning(scan, cursor, kept, visited)
        decreases |scan.all| - |visited|
      {
        cursor, kept, visited := ScanOne(cursor, desired, scan, kept, visited);
      }
      ScanDone(scan, cursor, kept, visited);
    }

    /** Where the scan is. */
    ghost predicate Scanning(scan: Scan, cursor: Cursor, kept: nat, visited: seq<Entry>)
      reads this, dups
    {
      && Scanned(visited, dups.entries, kept, scan.all, scan.desired)
      && cursor == Land(dups.entries, kept) && Trimmed(view, scan.base, scan.desired)
    }

    /** One turn of the scan. */
    method ScanOne(cursor: Cursor, desired: set<KeyBytes>, ghost scan: Scan, ghost kept: nat, ghost visited: seq<Entry>)
      returns (cursor': Cursor, ghost kept': nat, ghost visited': seq<Entry>)
      requires Valid() && cursor.At? && desired == scan.desired && Scanning(scan, cursor, kept, visited)
      modifies this, dups
      ensures Valid() && Scanning(scan, cursor', kept', visited')
      ensures |visited| < |visited'| <= |scan.all|
    {
      hide Valid, ParseRecord, Trimmed, RemoveAt, AllDesired, Scanned, DupEntry;
      ScannedSize(visited, dups.entries, kept, scan.all, desired);
      ghost var k := DupOwner(kept);
      ghost var s := dups.entries;
      cursor', kept', visited' := cursor, kept, visited + [s[kept]];
      var record := ParseRecord(dups.entries[cursor.index].val);
      if record.None? {
        assert false; // "Corrupted hashed key-value duplicate value"
      }
      if record.value.0 !in desired {
        TrimmedStep(view, scan.base, desired, k);
        ScannedDrop(visited, s, kept, scan.all, desired);
        cursor' := DropAt(cursor, k);
      } else {
        ScannedKeep(visited, s, kept, scan.all, desired);
        kept' := kept + 1;
      }
      cursor' := Next(dups.entries, cursor');
    }

    lemma ScanDone(scan: Scan, cursor: Cursor, kept: nat, visited: seq<Entry>)
      requires Valid() && !cursor.At? && Scanning(scan, cursor, kept, visited)
      ensures visited == scan.all && view == Restrict(scan.base, scan.desired)
    {
      hide Trimmed, Restrict, AllDesired, Scanned, DupsAgree;
      ScannedSize(visited, dups.entries, kept, scan.all, scan.desired);
      ScannedDone(visited, dups.entries, scan.all, scan.desired);
      OnlyDesired(scan.desired);
      TrimmedDone(view, scan.base, scan.desired);
    }

    method ClearAll()
      requires Valid()
      modifies this, dups
      ensures Valid() && view == map[]
    {
      dups.Drop();
      view := map[];
    }
  }
}
