/** What both layouts of HashedKeyValueStore share: the record format, and the
    plain map each of them must behave as. */
module HashedRecords {
  import opened ByteStrings
  import opened OrderedStore

  /** A key as size_t can measure it. */
  type KeyBytes = k: Bytes | |k| < TWO_TO_THE_64

  type Hasher = KeyBytes -> uint64

  // ---------------------------------------------------------------- record format

  /** make_record_payload: key length, key, value. */
  function Payload(key: KeyBytes, value: Bytes): Bytes {
    LittleEndian(|key|, 8) + key + value
  }

  /** parse_record: the key length must fit in what is left. */
  function ParseRecord(b: Bytes): Option<(KeyBytes, Bytes)> {
    if |b| < 8 then None
    else
      LittleEndianOfValue(b[..8]);
      Pow256Widths();
      var n := LittleEndianValue(b[..8]);
      if n > |b| - 8 then None else Some((b[8..8 + n], b[8 + n..]))
  }

  /** parse_record accepts exactly the payloads, and takes each apart into the
      key and value it was made from. */
  lemma RecordExact(b: Bytes, key: KeyBytes, value: Bytes)
    ensures ParseRecord(b) == Some((key, value)) <==> b == Payload(key, value)
  {
    Pow256Widths();
    if b == Payload(key, value) {
      LittleEndianRoundTrip(|key|, 8);
      assert b[..8] == LittleEndian(|key|, 8);
      assert b[8..8 + |key|] == key && b[8 + |key|..] == value;
    }
    if ParseRecord(b) == Some((key, value)) {
      LittleEndianOfValue(b[..8]);
      assert b == b[..8] + b[8..8 + |key|] + b[8 + |key|..];
    }
  }

  /** Where a payload has what. */
  lemma PayloadLayout(key: KeyBytes, value: Bytes)
    ensures var b := Payload(key, value);
            && |b| == 8 + |key| + |value|
            && LittleEndianValue(b[..8]) == |key|
            && b[8..8 + |key|] == key && b[8 + |key|..] == value
  {
    var b := Payload(key, value);
    Pow256Widths();
    LittleEndianRoundTrip(|key|, 8);
    assert b[..8] == LittleEndian(|key|, 8);
  }

  method MakePayload(key: KeyBytes, value: Bytes) returns (b: Bytes)
    ensures b == Payload(key, value)
  {
    var size := WriteLittleEndian(|key|, 8);
    b := size + key + value;
  }

  method Parse(b: Bytes) returns (r: Option<(KeyBytes, Bytes)>)
    ensures r == ParseRecord(b)
  {
    if |b| < 8 { return None; }
    var n := ReadLittleEndian(b[..8]);
    Pow256Widths();
    if n > |b| - 8 { return None; }
    r := Some((b[8..8 + n], b[8 + n..]));
  }

  /** make_record_key: the bucket and the place in it. */
  function RecordKey(hash: uint64, ordinal: uint64): Bytes {
    LittleEndian(hash, 8) + LittleEndian(ordinal, 8)
  }

  method MakeRecordKey(hash: uint64, ordinal: uint64) returns (b: Bytes)
    ensures b == RecordKey(hash, ordinal)
  {
    var h := WriteLittleEndian(hash, 8);
    var o := WriteLittleEndian(ordinal, 8);
    b := h + o;
  }

  method DecodeRecordKey(b: Bytes) returns (r: Option<(uint64, uint64)>)
    ensures r.Some? <==> |b| == 16
    ensures r.Some? ==> b == RecordKey(r.value.0, r.value.1)
  {
    if |b| != 16 { return None; }
    var h := ReadLittleEndian(b[..8]);
    var o := ReadLittleEndian(b[8..]);
    Pow256Widths();
    LittleEndianOfValue(b[..8]);
    LittleEndianOfValue(b[8..]);
    assert b == b[..8] + b[8..];
    r := Some((h, o));
  }

  /** decode_record_key undoes make_record_key. */
  lemma RecordKeyRoundTrip(hash: uint64, ordinal: uint64)
    ensures var b := RecordKey(hash, ordinal);
            |b| == 16 && LittleEndianValue(b[..8]) == hash && LittleEndianValue(b[8..]) == ordinal
  {
    Pow256Widths();
    var b := RecordKey(hash, ordinal);
    assert b[..8] == LittleEndian(hash, 8) && b[8..] == LittleEndian(ordinal, 8);
    LittleEndianRoundTrip(hash, 8);
    LittleEndianRoundTrip(ordinal, 8);
  }

  lemma RecordKeyInjective(h1: uint64, o1: uint64, h2: uint64, o2: uint64)
    ensures RecordKey(h1, o1) == RecordKey(h2, o2) <==> h1 == h2 && o1 == o2
  {
    RecordKeyRoundTrip(h1, o1);
    RecordKeyRoundTrip(h2, o2);
  }

  // ---------------------------------------------------------------- the plain map

  type Pairs = seq<(KeyBytes, Bytes)>

  /** The map a list of pairs stands for: the last occurrence of a key wins. */
  function MapOf(pairs: Pairs): map<KeyBytes, Bytes> {
    if pairs == [] then map[]
    else var p := pairs[|pairs| - 1]; MapOf(pairs[..|pairs| - 1])[p.0 := p.1]
  }

  lemma MapOfSnoc(pairs: Pairs, n: nat, m: map<KeyBytes, Bytes>)
    requires n < |pairs|
    ensures MapOf(pairs[..n + 1]) == MapOf(pairs[..n])[pairs[n].0 := pairs[n].1]
    ensures MapOf(pairs[..n + 1]).Keys == MapOf(pairs[..n]).Keys + {pairs[n].0}
    ensures m + MapOf(pairs[..n + 1]) == (m + MapOf(pairs[..n]))[pairs[n].0 := pairs[n].1]
  {
    assert pairs[..n + 1][..n] == pairs[..n];
    MergeUpdate(m, MapOf(pairs[..n]), pairs[n].0, pairs[n].1);
  }

  /** A list with exactly the pairs of a map stands for it. */
  lemma ListedMap(pairs: Pairs, m: map<KeyBytes, Bytes>)
    requires forall i :: 0 <= i < |pairs| ==> pairs[i].0 in m && m[pairs[i].0] == pairs[i].1
    requires forall k :: k in m ==> (k, m[k]) in pairs
    ensures MapOf(pairs) == m
  {
    MapOfPairs(pairs);
    forall k | k in m ensures k in MapOf(pairs) {
      assert (k, m[k]) in pairs;
    }
    forall k | k in MapOf(pairs) ensures k in m && m[k] == MapOf(pairs)[k] {
      var i :| 0 <= i < |pairs| && pairs[i] == (k, MapOf(pairs)[k]);
    }
  }

  lemma {:induction false} MapOfPairs(pairs: Pairs)
    ensures forall p :: p in pairs ==> p.0 in MapOf(pairs)
    ensures forall k {:trigger MapOf(pairs)[k]} :: k in MapOf(pairs) ==> (k, MapOf(pairs)[k]) in pairs
  {
    if pairs != [] {
      var n := |pairs| - 1;
      MapOfPairs(pairs[..n]);
      assert pairs == pairs[..n] + [pairs[n]];
    }
  }

  /** A key has the value of its last occurrence, and only occurring keys have one. */
  lemma {:induction false} LastWins(pairs: Pairs, k: KeyBytes)
    ensures k in MapOf(pairs) <==> exists i :: 0 <= i < |pairs| && pairs[i].0 == k
    ensures forall i :: 0 <= i < |pairs| && pairs[i].0 == k && (forall j :: i < j < |pairs| ==> pairs[j].0 != k) ==>
              k in MapOf(pairs) && MapOf(pairs)[k] == pairs[i].1
  {
    MapOfPairs(pairs);
    if k in MapOf(pairs) {
      assert (k, MapOf(pairs)[k]) in pairs;
    }
    forall i | 0 <= i < |pairs| && pairs[i].0 == k ensures k in MapOf(pairs) {
      assert pairs[i] in pairs;
    }
    forall i | 0 <= i < |pairs| && pairs[i].0 == k && (forall j :: i < j < |pairs| ==> pairs[j].0 != k)
      ensures k in MapOf(pairs) && MapOf(pairs)[k] == pairs[i].1
    {
      LastValue(pairs, i);
    }
  }

  lemma {:induction false} LastValue(pairs: Pairs, i: nat)
    requires i < |pairs| && forall j :: i < j < |pairs| ==> pairs[j].0 != pairs[i].0
    ensures pairs[i].0 in MapOf(pairs) && MapOf(pairs)[pairs[i].0] == pairs[i].1
  {
    if i < |pairs| - 1 { LastValue(pairs[..|pairs| - 1], i); }
  }

  lemma MergeUpdate<K, V>(a: map<K, V>, b: map<K, V>, k: K, v: V)
    ensures a + b[k := v] == (a + b)[k := v]
  {
  }

  function Restrict(m: map<KeyBytes, Bytes>, keys: set<KeyBytes>): map<KeyBytes, Bytes> {
    map k | k in m && k in keys :: m[k]
  }

  /** Some keys of `m` are gone, none of them in `keys`. */
  ghost predicate Trimmed(r: map<KeyBytes, Bytes>, m: map<KeyBytes, Bytes>, keys: set<KeyBytes>) {
    r.Keys <= m.Keys && m.Keys * keys <= r.Keys && forall k {:trigger r[k]} :: k in r ==> r[k] == m[k]
  }

  lemma TrimmedStep(r: map<KeyBytes, Bytes>, m: map<KeyBytes, Bytes>, keys: set<KeyBytes>, k: KeyBytes)
    requires Trimmed(r, m, keys) && k !in keys
    ensures Trimmed(r - {k}, m, keys)
  {
  }

  lemma TrimmedDone(r: map<KeyBytes, Bytes>, m: map<KeyBytes, Bytes>, keys: set<KeyBytes>)
    requires Trimmed(r, m, keys) && r.Keys <= keys
    ensures r == Restrict(m, keys)
  {
  }

  lemma RestrictToSource(m: map<KeyBytes, Bytes>, pairs: Pairs)
    ensures Restrict(m + MapOf(pairs), MapOf(pairs).Keys) == MapOf(pairs)
  {
  }

  // ---------------------------------------------------------------- what a source names

  /** The stored record's key is one the source names. */
  ghost predicate Desired(e: Entry, desired: set<KeyBytes>) {
    ParseRecord(e.val).Some? && ParseRecord(e.val).value.0 in desired
  }

  ghost predicate AllDesired(s: seq<Entry>, desired: set<KeyBytes>) {
    forall e {:trigger Desired(e, desired)} :: e in s ==> Desired(e, desired)
  }

  /** What a deleting scan started from. */
  datatype Scan = Scan(all: seq<Entry>, base: map<KeyBytes, Bytes>, desired: set<KeyBytes>)

  /** A deleting scan on its way: what it visited and what is left make up all there was,
      and what it passed over is named. */
  ghost predicate Scanned(visited: seq<Entry>, s: seq<Entry>, kept: nat, all: seq<Entry>, desired: set<KeyBytes>) {
    kept <= |s| && visited + s[kept..] == all && AllDesired(s[..kept], desired)
  }

  lemma ScannedStart(all: seq<Entry>, desired: set<KeyBytes>)
    ensures Scanned([], all, 0, all, desired)
  {
  }

  lemma ScannedSize(visited: seq<Entry>, s: seq<Entry>, kept: nat, all: seq<Entry>, desired: set<KeyBytes>)
    requires Scanned(visited, s, kept, all, desired)
    ensures kept <= |s| && |visited| + |s| == |all| + kept
  {
  }

  lemma ScannedKeep(visited: seq<Entry>, s: seq<Entry>, kept: nat, all: seq<Entry>, desired: set<KeyBytes>)
    requires Scanned(visited, s, kept, all, desired) && kept < |s| && Desired(s[kept], desired)
    ensures Scanned(visited + [s[kept]], s, kept + 1, all, desired)
  {
    ScanStep(visited, s, kept);
    SliceSnoc(s, 0, kept);
  }

  lemma ScannedDrop(visited: seq<Entry>, s: seq<Entry>, kept: nat, all: seq<Entry>, desired: set<KeyBytes>)
    requires Scanned(visited, s, kept, all, desired) && kept < |s|
    ensures Scanned(visited + [s[kept]], RemoveAt(s, kept), kept, all, desired)
  {
    hide RemoveAt;
    ScanStep(visited, s, kept);
  }

  lemma ScannedDone(visited: seq<Entry>, s: seq<Entry>, all: seq<Entry>, desired: set<KeyBytes>)
    requires Scanned(visited, s, |s|, all, desired)
    ensures visited == all && AllDesired(s, desired)
  {
    assert s[..|s|] == s && s[|s|..] == [];
  }

  // ---------------------------------------------------------------- calls and runs

  datatype Op =
    | Insert(key: KeyBytes, value: Bytes)
    | InsertOrAssign(key: KeyBytes, value: Bytes)
    | Erase(key: KeyBytes)
    | Append(pairs: Pairs)
    | Reconcile(pairs: Pairs)
    | Clear
    | Get(key: KeyBytes)
    | Contains(key: KeyBytes)
    | Count
    | Load

  datatype Answer =
    | Done
    | Flag(flag: bool)
    | Found(value: Option<Bytes>)
    | Number(n: nat)
    | Loaded(contents: map<KeyBytes, Bytes>)

  /** What the call does to a plain map. */
  function After(m: map<KeyBytes, Bytes>, op: Op): map<KeyBytes, Bytes> {
    match op
    case Insert(k, v) => if k in m then m else m[k := v]
    case InsertOrAssign(k, v) => m[k := v]
    case Erase(k) => m - {k}
    case Append(ps) => m + MapOf(ps)
    case Reconcile(ps) => MapOf(ps)
    case Clear => map[]
    case _ => m
  }

  /** What the call answers on a plain map. */
  function AnswerOf(m: map<KeyBytes, Bytes>, op: Op): Answer {
    match op
    case Insert(k, _) => Flag(k !in m)
    case Erase(k) => Flag(k in m)
    case Get(k) => Found(if k in m then Some(m[k]) else None)
    case Contains(k) => Flag(k in m)
    case Count => Number(|m|)
    case Load => Loaded(m)
    case _ => Done
  }

  function AfterAll(m: map<KeyBytes, Bytes>, ops: seq<Op>): map<KeyBytes, Bytes> {
    if ops == [] then m else After(AfterAll(m, ops[..|ops| - 1]), ops[|ops| - 1])
  }

  function Answers(m: map<KeyBytes, Bytes>, ops: seq<Op>): seq<Answer> {
    if ops == [] then []
    else Answers(m, ops[..|ops| - 1]) + [AnswerOf(AfterAll(m, ops[..|ops| - 1]), ops[|ops| - 1])]
  }

  lemma RunSnoc(m: map<KeyBytes, Bytes>, ops: seq<Op>, n: nat)
    requires n < |ops|
    ensures AfterAll(m, ops[..n + 1]) == After(AfterAll(m, ops[..n]), ops[n])
    ensures Answers(m, ops[..n + 1]) == Answers(m, ops[..n]) + [AnswerOf(AfterAll(m, ops[..n]), ops[n])]
  {
    assert ops[..n + 1][..n] == ops[..n];
  }

  /** The pairs a call may write. */
  function Written(op: Op): Pairs {
    match op
    case Insert(k, v) => [(k, v)]
    case InsertOrAssign(k, v) => [(k, v)]
    case Append(ps) => ps
    case Reconcile(ps) => ps
    case _ => []
  }

  /** How many pairs a run may write. */
  function Writes(ops: seq<Op>): nat {
    if ops == [] then 0 else Writes(ops[..|ops| - 1]) + |Written(ops[|ops| - 1])|
  }

  lemma WritesSnoc(ops: seq<Op>, n: nat)
    requires n < |ops|
    ensures Writes(ops[..n + 1]) == Writes(ops[..n]) + |Written(ops[n])|
  {
    assert ops[..n + 1][..n] == ops[..n];
  }

  lemma {:induction false} WritesMonotone(ops: seq<Op>, n: nat)
    requires n <= |ops|
    ensures Writes(ops[..n]) <= Writes(ops)
  {
    if n < |ops| {
      WritesMonotone(ops[..|ops| - 1], n);
      assert ops[..|ops| - 1][..n] == ops[..n];
    } else {
      assert ops[..n] == ops;
    }
  }

  lemma {:induction false} WritesAtMost(ops: seq<Op>, n: nat)
    requires 1 <= n
    requires forall i :: 0 <= i < |ops| ==>
               (ops[i].Append? ==> |ops[i].pairs| <= n) && (ops[i].Reconcile? ==> |ops[i].pairs| <= n)
    ensures Writes(ops) <= n * |ops|
  {
    if ops != [] {
      var k := |ops| - 1;
      WritesAtMost(ops[..k], n);
      assert |Written(ops[k])| <= n;
      assert n * |ops| == n * k + n;
    }
  }
}
