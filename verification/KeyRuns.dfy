/** Whole runs of KeyTable against a plain set of keys, with what they answer and record. */
module KeyRuns {
  import opened ByteStrings
  import opened OrderedStore
  import opened RangeScan
  import opened RawLog
  import opened KeyTables

  datatype KeyOp =
    | DoInsert(key: Bytes)
    | DoErase(key: Bytes)
    | DoAppend(keys: seq<Bytes>)
    | DoReconcile(keys: seq<Bytes>)
    | DoEraseRange(from: Bytes, to: Bytes)
    | DoClear

  datatype Reply = Done | Flag(flag: bool) | Number(n: nat)

  // ---------------------------------------------------------------- what a call means

  ghost function KeySet(s: seq<Entry>): set<Bytes> {
    set e | e in s :: e.key
  }

  /** What a call does to a plain set of keys. */
  function KeysAfter(o: KeyOrder, keys: set<Bytes>, op: KeyOp): set<Bytes> {
    match op
    case DoInsert(k) => keys + {k}
    case DoErase(k) => keys - {k}
    case DoAppend(ks) => keys + set k | k in ks
    case DoReconcile(ks) => set k | k in ks
    case DoEraseRange(from, to) => set k | k in keys && !InRange(o, from, to, k)
    case DoClear => {}
  }

  /** What it answers; s holds the keys before the call, in key order. */
  ghost function ReplyOf(o: KeyOrder, s: seq<Entry>, op: KeyOp): Reply {
    match op
    case DoInsert(k) => Flag(k !in KeySet(s))
    case DoErase(k) => Flag(k in KeySet(s))
    case DoEraseRange(from, to) => Number(|FilterRange(o, s, from, to)|)
    case _ => Done
  }

  /** What it records: nothing for a key that is there to insert or not there to erase. */
  ghost function Recorded(o: KeyOrder, s: seq<Entry>, op: KeyOp): seq<RawOp> {
    match op
    case DoInsert(k) => if k in KeySet(s) then [] else [PutOp(k, [])]
    case DoErase(k) => if k in KeySet(s) then [DeleteOp(k)] else []
    case DoAppend(ks) => NewPuts(KeySet(s), ks)
    case DoReconcile(ks) => [ClearTableOp] + NewPuts({}, ks)
    case DoEraseRange(from, to) => Deletes(FilterRange(o, s, from, to))
    case DoClear => [ClearTableOp]
  }

  /** One call from entries s to entries t. */
  ghost predicate Stepped(o: KeyOrder, s: seq<Entry>, op: KeyOp, reply: Reply, t: seq<Entry>) {
    KeySet(t) == KeysAfter(o, KeySet(s), op) && reply == ReplyOf(o, s, op)
  }

  lemma HoldsKeySet(s: seq<Entry>, m: Contents)
    requires Holds(s, m)
    ensures KeySet(s) == m.Keys
  {
    forall k | k in m ensures k in KeySet(s) {
      assert Entry(k, m[k]) in s;
    }
  }

  method Step(table: KeyTable, op: KeyOp) returns (reply: Reply, ghost delta: seq<RawOp>)
    requires table.Valid()
    modifies table, table.dbi
    ensures table.Valid()
    ensures Stepped(table.dbi.flags.order, old(table.dbi.entries), op, reply, table.dbi.entries)
    ensures delta == Recorded(table.dbi.flags.order, old(table.dbi.entries), op)
    ensures table.log == old(table.log) + delta && table.contents == ReplayedAll(old(table.contents), delta)
  {
    HoldsKeySet(table.dbi.entries, table.contents);
    hide ReplayedAll, Holds, FilterRange, OutsideRange, InRange, NewPuts, KeySet, Deletes;
    reply := Done;
    match op {
      case DoInsert(k) =>
        var inserted;
        inserted, delta := table.Insert(k);
        reply := Flag(inserted);
      case DoErase(k) =>
        var removed;
        removed, delta := table.Erase(k);
        reply := Flag(removed);
      case DoAppend(ks) =>
        delta := table.Append(ks);
      case DoReconcile(ks) =>
        delta := table.Reconcile(ks);
      case DoEraseRange(from, to) =>
        var n;
        n, delta := table.EraseRange(from, to);
        reply := Number(n);
        KeysOutside(table.dbi.flags.order, old(table.dbi.entries), old(table.contents), table.contents, from, to);
      case DoClear =>
        delta := table.Clear();
    }
    HoldsKeySet(table.dbi.entries, table.contents);
  }

  // ---------------------------------------------------------------- a run

  function KeysAfterAll(o: KeyOrder, keys: set<Bytes>, ops: seq<KeyOp>): set<Bytes> {
    if ops == [] then keys else KeysAfter(o, KeysAfterAll(o, keys, ops[..|ops| - 1]), ops[|ops| - 1])
  }

  lemma KeysAfterSnoc(o: KeyOrder, keys: set<Bytes>, ops: seq<KeyOp>, i: nat)
    requires i < |ops|
    ensures KeysAfterAll(o, keys, ops[..i + 1]) == KeysAfter(o, KeysAfterAll(o, keys, ops[..i]), ops[i])
  {
    assert ops[..i + 1][..i] == ops[..i];
  }

  /** The sorted entries before, between and after the calls: each holds the keys the plain
      set has there, and each reply is the one they give. */
  ghost predicate IsTrace(f: DbiFlags, trace: seq<seq<Entry>>, ops: seq<KeyOp>, replies: seq<Reply>) {
    && |trace| == |ops| + 1 && |replies| == |ops|
    && (forall i :: 0 <= i < |trace| ==>
          Sorted(f, trace[i]) && KeySet(trace[i]) == KeysAfterAll(f.order, KeySet(trace[0]), ops[..i]))
    && (forall i :: 0 <= i < |ops| ==> replies[i] == ReplyOf(f.order, trace[i], ops[i]))
  }

  /** Everything the calls of a run record, one after the other. */
  ghost function RecordedAll(o: KeyOrder, trace: seq<seq<Entry>>, ops: seq<KeyOp>): seq<RawOp>
    requires |trace| >= |ops|
  {
    if ops == [] then []
    else
      var n := |ops| - 1;
      RecordedAll(o, trace, ops[..n]) + Recorded(o, trace[n], ops[n])
  }

  lemma {:induction false} RecordedGrows(o: KeyOrder, trace: seq<seq<Entry>>, t: seq<Entry>, ops: seq<KeyOp>)
    requires |trace| >= |ops|
    ensures RecordedAll(o, trace + [t], ops) == RecordedAll(o, trace, ops)
  {
    if ops != [] { RecordedGrows(o, trace, t, ops[..|ops| - 1]); }
  }

  lemma RecordedSnoc(o: KeyOrder, trace: seq<seq<Entry>>, t: seq<Entry>, ops: seq<KeyOp>, i: nat)
    requires i < |ops| && |trace| == i + 1
    ensures RecordedAll(o, trace + [t], ops[..i + 1]) == RecordedAll(o, trace, ops[..i]) + Recorded(o, trace[i], ops[i])
  {
    hide Recorded;
    assert ops[..i + 1][..i] == ops[..i];
    RecordedGrows(o, trace, t, ops[..i]);
  }

  lemma TraceSnoc(f: DbiFlags, trace: seq<seq<Entry>>, ops: seq<KeyOp>, i: nat,
                  replies: seq<Reply>, reply: Reply, t: seq<Entry>)
    requires i < |ops| && IsTrace(f, trace, ops[..i], replies)
    requires Sorted(f, t) && Stepped(f.order, trace[i], ops[i], reply, t)
    ensures IsTrace(f, trace + [t], ops[..i + 1], replies + [reply])
  {
    hide Sorted, KeySet, KeysAfter, KeysAfterAll, ReplyOf;
    var trace', replies', ops' := trace + [t], replies + [reply], ops[..i + 1];
    KeysAfterSnoc(f.order, KeySet(trace[0]), ops, i);
    forall j | 0 <= j < |trace'|
      ensures Sorted(f, trace'[j]) && KeySet(trace'[j]) == KeysAfterAll(f.order, KeySet(trace'[0]), ops'[..j])
    {
      if j <= i {
        assert trace'[j] == trace[j] && ops'[..j] == ops[..i][..j];
      } else {
        assert ops'[..j] == ops' && ops[..i][..i] == ops[..i];
      }
    }
    forall j | 0 <= j < |ops'| ensures replies'[j] == ReplyOf(f.order, trace'[j], ops'[j]) {
      assert j < i ==> ops'[j] == ops[..i][j];
    }
  }

  /** A run, call by call and key by key. */
  lemma {:induction false} CallMeans(f: DbiFlags, trace: seq<seq<Entry>>, ops: seq<KeyOp>, replies: seq<Reply>, i: nat, k: Bytes)
    requires IsTrace(f, trace, ops, replies) && i < |ops|
    ensures |trace| == |ops| + 1 && |replies| == |ops|
    ensures var before, after := exists e :: e in trace[i] && e.key == k, exists e :: e in trace[i + 1] && e.key == k;
            match ops[i]
            case DoInsert(x) => (after <==> before || k == x) && (x == k ==> replies[i] == Flag(!before))
            case DoErase(x) => (after <==> before && k != x) && (x == k ==> replies[i] == Flag(before))
            case DoAppend(ks) => (after <==> before || k in ks) && replies[i].Done?
            case DoReconcile(ks) => (after <==> k in ks) && replies[i].Done?
            case DoEraseRange(from, to) =>
              && (after <==> before && (f.order(k, from) || f.order(to, k)))
              && replies[i] == Number(|FilterRange(f.order, trace[i], from, to)|)
            case DoClear => !after && replies[i].Done?
  {
    KeysAfterSnoc(f.order, KeySet(trace[0]), ops, i);
    assert KeySet(trace[i + 1]) == KeysAfter(f.order, KeySet(trace[i]), ops[i]);
    hide KeysAfterAll, Sorted, FilterRange;
    assert k in KeySet(trace[i]) <==> exists e :: e in trace[i] && e.key == k;
    assert k in KeySet(trace[i + 1]) <==> exists e :: e in trace[i + 1] && e.key == k;
  }

  /** Any run leaves the keys a plain set would have, answers every call from the keys at
      that point, and records exactly what the calls record; folding that over the starting
      contents gives the final ones. */
  method Run(table: KeyTable, ops: seq<KeyOp>)
    returns (replies: seq<Reply>, ghost trace: seq<seq<Entry>>, ghost delta: seq<RawOp>)
    requires table.Valid()
    modifies table, table.dbi
    ensures table.Valid()
    ensures IsTrace(table.dbi.flags, trace, ops, replies)
    ensures trace[0] == old(table.dbi.entries) && trace[|ops|] == table.dbi.entries
    ensures table.contents.Keys == KeysAfterAll(table.dbi.flags.order, old(table.contents).Keys, ops)
    ensures delta == RecordedAll(table.dbi.flags.order, trace, ops)
    ensures table.log == old(table.log) + delta && table.contents == ReplayedAll(old(table.contents), delta)
  {
    HoldsKeySet(table.dbi.entries, table.contents);
    replies, trace, delta := [], [table.dbi.entries], [];
    NothingReplayed(table.contents);
    for i := 0 to |ops|
      invariant table.Valid()
      invariant IsTrace(table.dbi.flags, trace, ops[..i], replies)
      invariant trace[0] == old(table.dbi.entries) && trace[i] == table.dbi.entries
      invariant delta == RecordedAll(table.dbi.flags.order, trace, ops[..i])
      invariant table.log == old(table.log) + delta && table.contents == ReplayedAll(old(table.contents), delta)
    {
      hide ReplayedAll, Holds, Sorted, KeySet, KeysAfter, KeysAfterAll, ReplyOf, Recorded, RecordedAll, Stepped;
      var reply; ghost var step;
      reply, step := Step(table, ops[i]);
      ConcatAssoc(old(table.log), delta, step);
      ReplayedConcat(old(table.contents), delta, step);
      TraceSnoc(table.dbi.flags, trace, ops, i, replies, reply, table.dbi.entries);
      RecordedSnoc(table.dbi.flags.order, trace, table.dbi.entries, ops, i);
      replies, trace, delta := replies + [reply], trace + [table.dbi.entries], delta + step;
    }
    assert ops[..|ops|] == ops;
    HoldsKeySet(table.dbi.entries, table.contents);
  }
}
