/** Whole runs of SequenceTable against a plain map from id to value. */
module SequenceRuns {
  import opened ByteStrings
  import opened OrderedStore
  import opened RawLog
  import opened SequenceTables

  type Slots = map<nat, Bytes>

  datatype SequenceOp =
    | DoAppend(value: Bytes)
    | DoAppendMany(values: seq<Bytes>)
    | DoSet(id: uint64, value: Bytes)
    | DoErase(id: uint64)
    | DoClear

  ghost function Largest(ids: set<nat>): (n: nat)
    requires ids != {}
    ensures n in ids && forall x :: x in ids ==> x <= n
  {
    var x :| x in ids;
    if ids - {x} == {} then
      assert ids == {x};
      x
    else
      assert ids == (ids - {x}) + {x};
      var y := Largest(ids - {x});
      if x > y then x else y
  }

  /** Append takes the id above the largest one; a table whose last id is taken stays. */
  ghost function Push(m: Slots, value: Bytes): Slots {
    if m == map[] then map[0 := value]
    else if Largest(m.Keys) >= MAX_UINT64 then m
    else m[Largest(m.Keys) + 1 := value]
  }

  /** The id the next append takes. */
  ghost predicate IsNext(m: Slots, n: nat) {
    n == if m == map[] then 0 else Largest(m.Keys) + 1
  }

  lemma PushNext(m: Slots, n: nat, v: Bytes)
    requires IsNext(m, n) && n <= MAX_UINT64
    ensures Push(m, v) == m[n := v] && IsNext(m[n := v], n + 1) && !Full(m) && NextSlotOf(m) == n
  {
    LargestIs(m[n := v].Keys, n);
  }

  lemma LargestIs(ids: set<nat>, n: nat)
    requires n in ids && forall x :: x in ids ==> x <= n
    ensures Largest(ids) == n
  {
  }

  ghost function PushAll(m: Slots, values: seq<Bytes>): Slots {
    if values == [] then m else Push(PushAll(m, values[..|values| - 1]), values[|values| - 1])
  }

  /** The ids appending values one by one gives; none once the last id is taken. */
  ghost function PushIds(m: Slots, values: seq<Bytes>): seq<nat> {
    if values == [] then []
    else
      var n := |values| - 1;
      var t := PushAll(m, values[..n]);
      PushIds(m, values[..n]) + if Full(t) then [] else [NextSlotOf(t)]
  }

  /** And the Puts it records. */
  ghost function PushOps(m: Slots, values: seq<Bytes>): seq<RawOp> {
    if values == [] then []
    else
      var n := |values| - 1;
      var t := PushAll(m, values[..n]);
      PushOps(m, values[..n]) + if Full(t) then [] else [PutOp(KeyOf(NextSlotOf(t)), values[n])]
  }

  ghost predicate Full(m: Slots) {
    m != map[] && Largest(m.Keys) >= MAX_UINT64
  }

  ghost function NextSlotOf(m: Slots): uint64
    requires !Full(m)
  {
    if m == map[] then 0 else Largest(m.Keys) + 1
  }

  datatype Reply = Done | Ids(ids: seq<nat>) | Flag(flag: bool)

  /** What the map answers: the ids taken, or whether there was something to erase. */
  ghost function ReplyOf(m: Slots, op: SequenceOp): Reply {
    match op
    case DoAppend(v) => Ids(PushIds(m, [v]))
    case DoAppendMany(vs) => Ids(PushIds(m, vs))
    case DoErase(id) => Flag(id in m)
    case _ => Done
  }

  /** What a call records: nothing for an id that is not there to erase. */
  ghost function Recorded(m: Slots, op: SequenceOp): seq<RawOp> {
    match op
    case DoAppend(v) => PushOps(m, [v])
    case DoAppendMany(vs) => PushOps(m, vs)
    case DoSet(id, v) => [PutOp(KeyOf(id), v)]
    case DoErase(id) => if id in m then [DeleteOp(KeyOf(id))] else []
    case DoClear => [ClearTableOp]
  }

  ghost function After(m: Slots, op: SequenceOp): Slots {
    match op
    case DoAppend(v) => Push(m, v)
    case DoAppendMany(vs) => PushAll(m, vs)
    case DoSet(id, v) => m[id := v]
    case DoErase(id) => m - {id}
    case DoClear => map[]
  }

  ghost function AfterAll(m: Slots, ops: seq<SequenceOp>): Slots {
    if ops == [] then m else After(AfterAll(m, ops[..|ops| - 1]), ops[|ops| - 1])
  }

  ghost function Replies(m: Slots, ops: seq<SequenceOp>): seq<Reply> {
    if ops == [] then []
    else Replies(m, ops[..|ops| - 1]) + [ReplyOf(AfterAll(m, ops[..|ops| - 1]), ops[|ops| - 1])]
  }

  ghost function RecordedAll(m: Slots, ops: seq<SequenceOp>): seq<RawOp> {
    if ops == [] then []
    else RecordedAll(m, ops[..|ops| - 1]) + Recorded(AfterAll(m, ops[..|ops| - 1]), ops[|ops| - 1])
  }

  lemma RunSnoc(m: Slots, ops: seq<SequenceOp>, i: nat)
    requires i < |ops|
    ensures AfterAll(m, ops[..i + 1]) == After(AfterAll(m, ops[..i]), ops[i])
    ensures Replies(m, ops[..i + 1]) == Replies(m, ops[..i]) + [ReplyOf(AfterAll(m, ops[..i]), ops[i])]
    ensures RecordedAll(m, ops[..i + 1]) == RecordedAll(m, ops[..i]) + Recorded(AfterAll(m, ops[..i]), ops[i])
  {
    hide After, ReplyOf, Recorded;
    assert ops[..i + 1][..i] == ops[..i];
  }

  /** Append takes zero or the id above all in use, and nothing once the last id is taken. */
  lemma {:induction false} AppendMeans(m: Slots, v: Bytes)
    requires forall id :: id in m ==> id <= MAX_UINT64
    ensures var op := DoAppend(v);
            if MAX_UINT64 in m then After(m, op) == m && ReplyOf(m, op) == Ids([]) && Recorded(m, op) == []
            else exists id: uint64 ::
              && (forall x :: x in m ==> x < id) && (id > 0 ==> id - 1 in m)
              && After(m, op) == m[id := v] && ReplyOf(m, op) == Ids([id]) && Recorded(m, op) == [PutOp(KeyOf(id), v)]
  {
    OnePushed(m, v);
    if MAX_UINT64 !in m {
      var id: uint64 := NextSlotOf(m);
      assert After(m, DoAppend(v)) == m[id := v];
    }
  }

  /** A batch is its values appended one by one. */
  lemma {:induction false} AppendManyMeans(m: Slots, values: seq<Bytes>, v: Bytes)
    ensures var none := DoAppendMany([]);
            After(m, none) == m && ReplyOf(m, none) == Ids([]) && Recorded(m, none) == []
    ensures var t := After(m, DoAppendMany(values));
            && After(m, DoAppendMany(values + [v])) == After(t, DoAppend(v))
            && ReplyOf(m, DoAppendMany(values + [v])) == Ids(ReplyOf(m, DoAppendMany(values)).ids + ReplyOf(t, DoAppend(v)).ids)
            && Recorded(m, DoAppendMany(values + [v])) == Recorded(m, DoAppendMany(values)) + Recorded(t, DoAppend(v))
  {
    var t, all := PushAll(m, values), values + [v];
    NothingPushed(m);
    OnePushed(t, v);
    hide PushAll, PushIds, PushOps, Push, Full, NextSlotOf;
    PushSnoc(m, all, |values|);
    assert all[..|values| + 1] == all && all[..|values|] == values;
  }

  lemma OnePushed(m: Slots, v: Bytes)
    ensures PushAll(m, [v]) == Push(m, v)
    ensures PushIds(m, [v]) == if Full(m) then [] else [NextSlotOf(m)]
    ensures PushOps(m, [v]) == if Full(m) then [] else [PutOp(KeyOf(NextSlotOf(m)), v)]
  {
    hide Full, Push, NextSlotOf, KeyOf;
    NothingPushed(m);
    assert [v][..0] == [];
  }

  lemma NothingPushed(m: Slots)
    ensures PushAll(m, []) == m && PushIds(m, []) == [] && PushOps(m, []) == []
  {
  }

  /** The other calls, slot by slot. */
  lemma {:induction false} SlotMeans(m: Slots, op: SequenceOp, x: nat)
    requires op.DoSet? || op.DoErase? || op.DoClear?
    ensures var a := After(m, op);
            match op
            case DoSet(id, v) =>
              && (x in a <==> x in m || x == id) && (x in a ==> a[x] == if x == id then v else m[x])
              && ReplyOf(m, op) == Done && Recorded(m, op) == [PutOp(KeyOf(id), v)]
            case DoErase(id) =>
              && (x in a <==> x in m && x != id) && (x in a ==> a[x] == m[x])
              && (x == id ==> ReplyOf(m, op) == Flag(x in m) && (x !in m ==> Recorded(m, op) == []))
              && (x == id && x in m ==> Recorded(m, op) == [DeleteOp(KeyOf(id))])
            case _ => x !in a && ReplyOf(m, op) == Done && Recorded(m, op) == [ClearTableOp]
  {
  }

  // ---------------------------------------------------------------- contents against slots

  /** The bytes of an id are a key exactly when the id has a slot, with the slot's value. */
  ghost predicate Shows(c: Contents, m: Slots) {
    && (forall id :: id in m ==> id < TWO_TO_THE_64)
    && (forall k :: k in c ==> |k| == 8)
    && (forall id: uint64 {:trigger KeyOf(id)} :: (KeyOf(id) in c <==> id in m) && (id in m ==> c[KeyOf(id)] == m[id]))
  }

  /** The slots the contents stand for. */
  ghost function SlotsOf(c: Contents): Slots {
    var ids := set k | k in c :: LittleEndianValue(k);
    map id | id in ids && id < TWO_TO_THE_64 && KeyOf(id) in c :: c[KeyOf(id)]
  }

  /** They are the only ones it shows. */
  lemma SlotsShown(c: Contents, m: Slots)
    requires forall k :: k in c ==> |k| == 8
    ensures Shows(c, m) <==> m == SlotsOf(c)
  {
    forall id: uint64 ensures KeyOf(id) in c ==> id in SlotsOf(c) {
      IdRoundTrip(id, []);
    }
    if Shows(c, m) {
      assert m.Keys == SlotsOf(c).Keys;
    }
  }

  lemma KeyOfInjective(a: uint64, b: uint64)
    ensures KeyOf(a) == KeyOf(b) <==> a == b
  {
    IdRoundTrip(a, []);
    IdRoundTrip(b, []);
  }

  lemma ShowsPut(c: Contents, m: Slots, id: uint64, v: Bytes)
    requires Shows(c, m)
    ensures Shows(c[KeyOf(id) := v], m[id := v])
  {
    forall x: uint64 ensures KeyOf(x) == KeyOf(id) <==> x == id {
      KeyOfInjective(x, id);
    }
  }

  lemma ShowsDelete(c: Contents, m: Slots, id: uint64)
    requires Shows(c, m)
    ensures Shows(c - {KeyOf(id)}, m - {id})
  {
    forall x: uint64 ensures KeyOf(x) == KeyOf(id) <==> x == id {
      KeyOfInjective(x, id);
    }
  }

  /** The id append computes from the entries is the one the slots give. */
  lemma NextSlot(s: seq<Entry>, c: Contents, m: Slots, id: Option<uint64>)
    requires Holds(s, c) && IdKeys(s) && Shows(c, m) && NextId(s, id)
    ensures id.None? ==> m != map[] && Largest(m.Keys) == MAX_UINT64
    ensures id.Some? ==> IsNext(m, id.value)
  {
    match id
    case None =>
      var e :| e in s && IdOf(e) == MAX_UINT64;
      EntrySlot(s, c, m, e);
    case Some(n) =>
      if m != map[] {
        var top := Largest(m.Keys);
        SlotEntry(s, c, m, top);
        var e := Entry(KeyOf(top), m[top]);
        assert IdOf(e) < n;
        var below :| below in s && IdOf(below) == n - 1;
        EntrySlot(s, c, m, below);
      } else if n > 0 {
        var below :| below in s && IdOf(below) == n - 1;
        EntrySlot(s, c, m, below);
      }
  }

  lemma EntrySlot(s: seq<Entry>, c: Contents, m: Slots, e: Entry)
    requires Holds(s, c) && IdKeys(s) && Shows(c, m) && e in s
    ensures IdOf(e) in m && m[IdOf(e)] == e.val
  {
    IdKey(e);
    assert e.key in c;
  }

  lemma SlotEntry(s: seq<Entry>, c: Contents, m: Slots, id: nat)
    requires Holds(s, c) && Shows(c, m) && id in m
    ensures id < TWO_TO_THE_64 && Entry(KeyOf(id), m[id]) in s && IdOf(Entry(KeyOf(id), m[id])) == id
  {
    assert KeyOf(id) in c;
    IdRoundTrip(id, m[id]);
  }

  lemma PushSnoc(m: Slots, values: seq<Bytes>, k: nat)
    requires k < |values|
    ensures var t := PushAll(m, values[..k]);
            && PushAll(m, values[..k + 1]) == Push(t, values[k])
            && PushIds(m, values[..k + 1]) == PushIds(m, values[..k]) + (if Full(t) then [] else [NextSlotOf(t)])
            && PushOps(m, values[..k + 1]) ==
               PushOps(m, values[..k]) + if Full(t) then [] else [PutOp(KeyOf(NextSlotOf(t)), values[k])]
  {
    hide Full, Push;
    assert values[..k + 1][..k] == values[..k];
  }

  /** A batch took consecutive ids and recorded one Put for each. */
  ghost predicate Batch(ids: seq<uint64>, values: seq<Bytes>, delta: seq<RawOp>) {
    && |ids| == |delta| && |ids| <= |values|
    && (forall i :: 0 <= i < |ids| ==> ids[i] == ids[0] + i)
    && (forall i :: 0 <= i < |ids| ==> delta[i] == PutOp(KeyOf(ids[i]), values[i]))
  }

  lemma BatchAt(ids: seq<uint64>, values: seq<Bytes>, delta: seq<RawOp>, i: nat)
    requires Batch(ids, values, delta) && i < |ids|
    ensures |ids| == |delta| && |ids| <= |values|
    ensures ids[i] == ids[0] + i && delta[i] == PutOp(KeyOf(ids[i]), values[i])
  {
  }

  /** The ids of a batch, one after the other, are what pushing its values gives. */
  lemma {:induction false} BatchShows(c: Contents, m: Slots, ids: seq<uint64>, values: seq<Bytes>, delta: seq<RawOp>, k: nat)
    requires Shows(c, m) && Batch(ids, values, delta) && k <= |ids| == |delta| <= |values|
    requires ids != [] ==> IsNext(m, ids[0])
    ensures Shows(ReplayedAll(c, delta[..k]), PushAll(m, values[..k]))
    ensures ids != [] ==> IsNext(PushAll(m, values[..k]), ids[0] + k)
    ensures PushIds(m, values[..k]) == ids[..k] && PushOps(m, values[..k]) == delta[..k]
  {
    hide Shows, IsNext, Push, KeyOf, Batch, Full, NextSlotOf;
    if k > 0 {
      hide PushAll, PushIds, PushOps, ReplayedAll;
      var n := k - 1;
      BatchShows(c, m, ids, values, delta, n);
      BatchAt(ids, values, delta, n);
      PushSnoc(m, values, n);
      SliceSnoc(delta, 0, n);
      SliceSnoc(ids, 0, n);
      ReplayedSnoc(c, delta[..n], delta[n]);
      PushNext(PushAll(m, values[..n]), ids[n], values[n]);
      ShowsPut(ReplayedAll(c, delta[..n]), PushAll(m, values[..n]), ids[n], values[n]);
    }
  }

  lemma {:induction false} FullStays(m: Slots, values: seq<Bytes>, k: nat)
    requires k <= |values|
    requires var t := PushAll(m, values[..k]); t != map[] && Largest(t.Keys) == MAX_UINT64
    ensures PushAll(m, values) == PushAll(m, values[..k])
    ensures PushIds(m, values) == PushIds(m, values[..k]) && PushOps(m, values) == PushOps(m, values[..k])
    decreases |values| - k
  {
    if k == |values| {
      assert values[..k] == values;
    } else {
      PushSnoc(m, values, k);
      FullStays(m, values, k + 1);
    }
  }

  /** The whole batch, refused part included. */
  lemma BatchDone(c: Contents, m: Slots, s': seq<Entry>, ids: seq<uint64>, values: seq<Bytes>, delta: seq<RawOp>)
    requires Shows(c, m) && Batch(ids, values, delta) && (ids != [] ==> IsNext(m, ids[0]))
    requires Holds(s', ReplayedAll(c, delta)) && IdKeys(s')
    requires |ids| < |values| ==> NextId(s', None)
    ensures Shows(ReplayedAll(c, delta), PushAll(m, values))
    ensures PushIds(m, values) == ids && PushOps(m, values) == delta
  {
    hide Shows, Holds, IdKeys, NextId;
    var k := |ids|;
    BatchShows(c, m, ids, values, delta, k);
    assert delta[..k] == delta && ids[..k] == ids;
    if k < |values| {
      NextSlot(s', ReplayedAll(c, delta), PushAll(m, values[..k]), None);
      FullStays(m, values, k);
    } else {
      assert values[..k] == values;
    }
  }

  // ---------------------------------------------------------------- runs

  method Step(table: SequenceTable, op: SequenceOp, ghost m: Slots) returns (reply: Reply, ghost delta: seq<RawOp>)
    requires table.Valid() && Shows(table.contents, m)
    modifies table, table.dbi
    ensures table.Valid() && Shows(table.contents, After(m, op))
    ensures reply == ReplyOf(m, op) && delta == Recorded(m, op)
    ensures table.log == old(table.log) + delta && table.contents == ReplayedAll(old(table.contents), delta)
  {
    hide ReplayedAll, Holds, IdKeys, NextId, KeyOf, PushAll, PushIds, PushOps, Shows, Push, Full;
    ghost var s, c := table.dbi.entries, table.contents;
    reply := Done;
    match op {
      case DoAppend(v) =>
        var id;
        id, delta := table.Append(v);
        NextSlot(s, c, m, id);
        AppendOne(c, m, id, v);
        reply := Ids(if id.Some? then [id.value] else []);
      case DoAppendMany(vs) =>
        var ids;
        ids, delta := table.AppendMany(vs);
        if ids != [] { NextSlot(s, c, m, Some(ids[0])); }
        BatchDone(c, m, table.dbi.entries, ids, vs, delta);
        reply := Ids(ids);
      case DoSet(id, v) =>
        delta := table.Set(id, v);
        ShowsPut(c, m, id, v);
      case DoErase(id) =>
        var removed;
        removed, delta := table.Erase(id);
        ShowsKey(c, m, id);
        ShowsDelete(c, m, id);
        reply := Flag(removed);
      case DoClear =>
        delta := table.Clear();
        NothingShown();
    }
  }

  lemma NothingShown()
    ensures Shows(map[], map[])
  {
  }

  lemma ShowsKey(c: Contents, m: Slots, id: uint64)
    requires Shows(c, m)
    ensures KeyOf(id) in c <==> id in m
  {
  }

  /** One append, or its refusal, is one push. */
  lemma AppendOne(c: Contents, m: Slots, id: Option<uint64>, v: Bytes)
    requires Shows(c, m)
    requires id.None? ==> m != map[] && Largest(m.Keys) == MAX_UINT64
    requires id.Some? ==> IsNext(m, id.value)
    ensures Shows(if id.Some? then c[KeyOf(id.value) := v] else c, Push(m, v))
    ensures PushIds(m, [v]) == (if id.Some? then [id.value] else [])
    ensures PushOps(m, [v]) == (if id.Some? then [PutOp(KeyOf(id.value), v)] else [])
  {
    hide Shows;
    OnePushed(m, v);
    if id.Some? {
      PushNext(m, id.value, v);
      ShowsPut(c, m, id.value, v);
    }
  }

  lemma KeysAreIds(s: seq<Entry>, c: Contents)
    requires Holds(s, c) && IdKeys(s)
    ensures forall k :: k in c ==> |k| == 8
  {
    forall k | k in c ensures |k| == 8 {
      assert Entry(k, c[k]) in s;
    }
  }

  /** Any run leaves the slots a plain map from id to value would have, answers as it does,
      chosen ids included, and records exactly what the calls record; folding that over the
      starting contents gives the final ones. */
  method Run(table: SequenceTable, ops: seq<SequenceOp>) returns (replies: seq<Reply>, ghost delta: seq<RawOp>, ghost m: Slots)
    requires table.Valid()
    modifies table, table.dbi
    ensures table.Valid()
    ensures Shows(old(table.contents), m) && Shows(table.contents, AfterAll(m, ops))
    ensures replies == Replies(m, ops) && delta == RecordedAll(m, ops)
    ensures table.log == old(table.log) + delta && table.contents == ReplayedAll(old(table.contents), delta)
  {
    KeysAreIds(table.dbi.entries, table.contents);
    m := SlotsOf(table.contents);
    SlotsShown(table.contents, m);
    replies, delta := [], [];
    NothingReplayed(table.contents);
    for i := 0 to |ops|
      invariant table.Valid() && Shows(table.contents, AfterAll(m, ops[..i]))
      invariant replies == Replies(m, ops[..i]) && delta == RecordedAll(m, ops[..i])
      invariant table.log == old(table.log) + delta && table.contents == ReplayedAll(old(table.contents), delta)
    {
      hide ReplayedAll, Holds, IdKeys, Shows, After, AfterAll, Replies, ReplyOf, Recorded, RecordedAll;
      RunSnoc(m, ops, i);
      var reply; ghost var step;
      reply, step := Step(table, ops[i], AfterAll(m, ops[..i]));
      ConcatAssoc(old(table.log), delta, step);
      ReplayedConcat(old(table.contents), delta, step);
      replies, delta := replies + [reply], delta + step;
    }
    assert ops[..|ops|] == ops;
  }
}
