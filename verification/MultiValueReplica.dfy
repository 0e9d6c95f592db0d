/** Whole captured runs of KeyMultiValueTable, and a replica that replays what they
    recorded through the same public operations. */
module MultiValueReplica {
  import opened ByteStrings
  import opened OrderedStore
  import opened RangeScan
  import opened Prefixed
  import opened PairLog
  import opened PairReconcile
  import opened KeyMultiValue

  datatype TableOp =
    | DoInsert(key: Bytes, value: Bytes)
    | DoAppend(pairs: seq<Pair>)
    | DoEraseKey(key: Bytes)
    | DoErasePair(key: Bytes, value: Bytes)
    | DoEraseOne(key: Bytes, value: Bytes)
    | DoEraseRange(from: Bytes, to: Bytes)
    | DoReconcile(pairs: seq<Pair>)
    | DoClear

  /** The pairs a call tries to put in. */
  function Offered(op: TableOp): seq<Pair> {
    match op
    case DoInsert(k, v) => [(k, v)]
    case DoAppend(ps) => ps
    case DoReconcile(ps) => ps
    case _ => []
  }

  // ---------------------------------------------------------------- what a call means

  /** What a call on a captured table does to its pairs. A range erase does nothing: a
      capture refuses it. */
  ghost function PairsAfter(m: multiset<Pair>, op: TableOp): multiset<Pair> {
    match op
    case DoInsert(k, v) => m + multiset{(k, v)}
    case DoAppend(ps) => m + multiset(ps)
    case DoEraseKey(k) => DropKey(m, k)
    case DoErasePair(k, v) => m[(k, v) := 0]
    case DoEraseOne(k, v) => m - multiset{(k, v)}
    case DoEraseRange(_, _) => m
    case DoReconcile(ps) => multiset(ps)
    case DoClear => multiset{}
  }

  /** The same when the call got through n of the pairs it offers. */
  ghost function PairsPart(m: multiset<Pair>, op: TableOp, n: nat): multiset<Pair>
    requires n <= |Offered(op)|
  {
    match op
    case DoInsert(_, _) => m + multiset(Offered(op)[..n])
    case DoAppend(ps) => m + multiset(ps[..n])
    case DoReconcile(ps) => m * multiset(ps) + multiset(Missing(ps[..n], m * multiset(ps), multiset(ps)))
    case _ => PairsAfter(m, op)
  }

  lemma PartIsAll(m: multiset<Pair>, op: TableOp)
    ensures PairsPart(m, op, |Offered(op)|) == PairsAfter(m, op)
  {
    var ps := Offered(op);
    assert ps[..|ps|] == ps;
    if op.DoReconcile? { ReconciledPairs(m, ps); }
  }

  /** What a call records when it gets through n of the pairs it offers. */
  ghost function Recorded(s: seq<Entry>, op: TableOp, n: nat): seq<LogicalOp>
    requires n <= |Offered(op)|
  {
    match op
    case DoInsert(_, _) => InsertOps(Offered(op)[..n])
    case DoAppend(ps) => InsertOps(ps[..n])
    case DoEraseKey(k) => if exists e :: e in s && e.key == k then [EraseKey(k)] else []
    case DoErasePair(k, v) => if (k, v) in PairSet(s) then [EraseAllValues(k, v)] else []
    case DoEraseOne(k, v) => if (k, v) in PairSet(s) then [EraseOneValue(k, v)] else []
    case DoEraseRange(_, _) => []
    case DoReconcile(ps) =>
      EraseOps(Pairs(Surplus(s, multiset(ps))))
      + InsertOps(Missing(ps[..n], PairSet(s) * multiset(ps), multiset(ps)))
    case DoClear => [ClearAll]
  }

  /** One call, from entries s to entries t: n offered pairs got through, and a pair that
      did not is one the table must refuse. */
  ghost predicate Stepped(limit: int, s: seq<Entry>, op: TableOp, n: nat, t: seq<Entry>) {
    && n <= |Offered(op)|
    && PairSet(t) == PairsPart(PairSet(s), op, n)
    && (n < |Offered(op)| ==> Refused(limit, t, Offered(op)[n]))
    && Used(t) <= Used(s) + n
  }

  /** Any public mutation of a captured table does what the call means and records exactly
      that. */
  method Step(table: KeyMultiValueTable, op: TableOp) returns (n: nat, ghost delta: seq<LogicalOp>)
    requires table.Valid() && table.captured
    modifies table`log, table.dbi
    ensures table.Valid()
    ensures Stepped(table.limit, old(table.dbi.entries), op, n, table.dbi.entries)
    ensures delta == Recorded(old(table.dbi.entries), op, n)
    ensures table.log == old(table.log) + delta && table.Contents() == AppliedAll(old(table.Contents()), delta)
  {
    if op.DoInsert? || op.DoAppend? || op.DoReconcile? {
      n, delta := Write(table, op);
    } else {
      delta := Remove(table, op);
      n := 0;
    }
  }

  method Write(table: KeyMultiValueTable, op: TableOp) returns (n: nat, ghost delta: seq<LogicalOp>)
    requires table.Valid() && (op.DoInsert? || op.DoAppend? || op.DoReconcile?)
    modifies table`log, table.dbi
    ensures table.Valid() && table.log == if table.captured then old(table.log) + delta else old(table.log)
    ensures table.Contents() == AppliedAll(old(table.Contents()), delta)
    ensures Stepped(table.limit, old(table.dbi.entries), op, n, table.dbi.entries)
    ensures delta == Recorded(old(table.dbi.entries), op, n)
  {
    hide PairSet, WellFormed, AppliedAll, PrefixOf, UpperIndex, KeyMultiValueTable.Logged, Used, Refused, PairsPart, Recorded,
      Pairs, Missing, Surplus, InsertOps, EraseOps;
    ghost var s := table.dbi.entries;
    match op {
      case DoInsert(k, v) =>
        InsertMeans(s, k, v);
        var r; ghost var e;
        r, e, delta := table.Insert(k, v);
        n := if r.Inserted? then 1 else 0;
      case DoAppend(ps) =>
        ghost var added;
        n, added, delta := table.AppendAll(ps);
        AppendMeans(s, ps, n);
      case DoReconcile(ps) =>
        var r; ghost var removed, added;
        r, n, removed, added, delta := table.Reconcile(ps);
        ReconcileMeans(s, ps, n);
    }
  }

  lemma InsertMeans(s: seq<Entry>, k: Bytes, v: Bytes)
    ensures var m, op := PairSet(s), DoInsert(k, v);
            && PairsPart(m, op, 0) == AppliedAll(m, []) && Recorded(s, op, 0) == []
            && PairsPart(m, op, 1) == AppliedAll(m, [InsertOne(k, v)]) && Recorded(s, op, 1) == [InsertOne(k, v)]
  {
    AppliedNone(PairSet(s));
    assert [(k, v)][..1] == [(k, v)];
  }

  lemma AppendMeans(s: seq<Entry>, ps: seq<Pair>, n: nat)
    requires n <= |ps|
    ensures PairsPart(PairSet(s), DoAppend(ps), n) == AppliedAll(PairSet(s), InsertOps(ps[..n]))
    ensures Recorded(s, DoAppend(ps), n) == InsertOps(ps[..n])
  {
    InsertsApplied(PairSet(s), ps[..n]);
  }

  lemma ReconcileMeans(s: seq<Entry>, ps: seq<Pair>, n: nat)
    requires n <= |ps|
    ensures var want, have := multiset(ps), PairSet(s) * multiset(ps);
            && PairsPart(PairSet(s), DoReconcile(ps), n) == have + multiset(Missing(ps[..n], have, want))
            && Recorded(s, DoReconcile(ps), n) == EraseOps(Pairs(Surplus(s, want))) + InsertOps(Missing(ps[..n], have, want))
  {
  }

  method Remove(table: KeyMultiValueTable, op: TableOp) returns (ghost delta: seq<LogicalOp>)
    requires table.Valid() && table.captured && Offered(op) == [] && !op.DoAppend? && !op.DoReconcile?
    modifies table`log, table.dbi
    ensures table.Valid() && table.log == old(table.log) + delta
    ensures table.Contents() == AppliedAll(old(table.Contents()), delta)
    ensures Stepped(table.limit, old(table.dbi.entries), op, 0, table.dbi.entries)
    ensures delta == Recorded(old(table.dbi.entries), op, 0)
  {
    hide PairSet, WellFormed, AppliedAll, DropKey, Without, PairOf, OutsideRange, RangeEntries, RemoveAt, PairsAfter, Applied, Used;
    ghost var m := table.Contents();
    match op {
      case DoEraseKey(k) =>
        EraseMissing(table.dbi.entries, k);
        RemoveMeans(m, op, EraseKey(k));
        var removed;
        removed, delta := table.EraseAllOf(k);
      case DoErasePair(k, v) =>
        RemoveMeans(m, op, EraseAllValues(k, v));
        var removed;
        removed, delta := table.ErasePair(k, v);
      case DoEraseOne(k, v) =>
        RemoveMeans(m, op, EraseOneValue(k, v));
        var removed;
        removed, delta := table.EraseOne(k, v);
      case DoEraseRange(from, to) =>
        RemoveMeans(m, op, ClearAll);
        delta := [];
        var removed := table.EraseRange(from, to);
      case DoClear =>
        RemoveMeans(m, op, ClearAll);
        delta := table.Clear();
    }
    UsedSub(old(table.dbi.entries), table.dbi.entries);
  }

  /** A recorded removal, or recording nothing when nothing was there, is the call's meaning. */
  lemma RemoveMeans(m: multiset<Pair>, op: TableOp, change: LogicalOp)
    requires match op
             case DoEraseKey(k) => change == EraseKey(k)
             case DoErasePair(k, v) => change == EraseAllValues(k, v)
             case DoEraseOne(k, v) => change == EraseOneValue(k, v)
             case DoEraseRange(_, _) => true
             case _ => op.DoClear? && change.ClearAll?
    ensures AppliedAll(m, []) == m
    ensures !op.DoEraseRange? ==> AppliedAll(m, [change]) == PairsAfter(m, op)
    ensures op.DoEraseRange? ==> m == PairsAfter(m, op)
    ensures op.DoEraseKey? ==> PairsAfter(m, op) == DropKey(m, op.key)
    ensures (op.DoErasePair? || op.DoEraseOne?) && (op.key, op.value) !in m ==> PairsAfter(m, op) == m
  {
    hide DropKey;
    assert [change][..0] == [];
    assert AppliedAll(m, [change]) == Applied(AppliedAll(m, [change][..0]), change);
  }

  /** Dropping a key that is not stored changes no multiplicity. */
  lemma EraseMissing(s: seq<Entry>, k: Bytes)
    ensures (forall e :: e in s ==> e.key != k) ==> DropKey(PairSet(s), k) == PairSet(s)
  {
    if forall e :: e in s ==> e.key != k {
      forall p ensures DropKey(PairSet(s), k)[p] == PairSet(s)[p] {
        if p.0 == k { assert p !in Pairs(s); }
      }
    }
  }

  // ---------------------------------------------------------------- what a run means

  ghost function PairsAfterAll(m: multiset<Pair>, ops: seq<TableOp>): multiset<Pair> {
    if ops == [] then m else PairsAfter(PairsAfterAll(m, ops[..|ops| - 1]), ops[|ops| - 1])
  }

  /** Everything a run tries to put in. */
  function AllOffered(ops: seq<TableOp>): seq<Pair> {
    if ops == [] then [] else AllOffered(ops[..|ops| - 1]) + Offered(ops[|ops| - 1])
  }

  lemma OpsSplit(m: multiset<Pair>, ops: seq<TableOp>, k: nat)
    requires k < |ops|
    ensures AllOffered(ops[..k + 1]) == AllOffered(ops[..k]) + Offered(ops[k])
    ensures PairsAfterAll(m, ops[..k + 1]) == PairsAfter(PairsAfterAll(m, ops[..k]), ops[k])
  {
    assert ops[..k + 1][..k] == ops[..k];
  }

  lemma {:induction false} OfferedPrefix(ops: seq<TableOp>, k: nat)
    requires k <= |ops|
    ensures AllOffered(ops[..k]) <= AllOffered(ops)
    decreases |ops| - k
  {
    if k < |ops| {
      OpsSplit(multiset{}, ops, k);
      OfferedPrefix(ops, k + 1);
    } else {
      assert ops[..k] == ops;
    }
  }

  /** The entries before, between and after the calls of a run. */
  ghost predicate IsTrace(limit: int, trace: seq<seq<Entry>>, ops: seq<TableOp>, written: seq<nat>) {
    && |trace| == |ops| + 1 && |written| == |ops|
    && forall i :: 0 <= i < |ops| ==> Stepped(limit, trace[i], ops[i], written[i], trace[i + 1])
  }

  ghost function RecordedAll(limit: int, trace: seq<seq<Entry>>, ops: seq<TableOp>, written: seq<nat>): seq<LogicalOp>
    requires IsTrace(limit, trace, ops, written)
  {
    if ops == [] then []
    else
      var n := |ops| - 1;
      assert Stepped(limit, trace[n], ops[n], written[n], trace[n + 1]);
      RecordedAll(limit, trace[..n + 1], ops[..n], written[..n]) + Recorded(trace[n], ops[n], written[n])
  }

  lemma TraceSnoc(limit: int, trace: seq<seq<Entry>>, ops: seq<TableOp>, i: nat, written: seq<nat>, n: nat, t: seq<Entry>)
    requires i < |ops| && IsTrace(limit, trace, ops[..i], written) && Stepped(limit, trace[i], ops[i], n, t)
    ensures IsTrace(limit, trace + [t], ops[..i + 1], written + [n])
    ensures RecordedAll(limit, trace + [t], ops[..i + 1], written + [n]) ==
            RecordedAll(limit, trace, ops[..i], written) + Recorded(trace[i], ops[i], n)
  {
    hide Stepped, Recorded;
    var trace', written' := trace + [t], written + [n];
    assert ops[..i + 1][..i] == ops[..i] && trace'[..i + 1] == trace && written'[..i] == written;
    forall j | 0 <= j < i + 1 ensures Stepped(limit, trace'[j], ops[..i + 1][j], written'[j], trace'[j + 1]) {
      assert j < i ==> Stepped(limit, trace[j], ops[..i][j], written[j], trace[j + 1]);
    }
  }

  lemma {:induction false} TraceUsed(limit: int, trace: seq<seq<Entry>>, ops: seq<TableOp>, written: seq<nat>, k: nat)
    requires IsTrace(limit, trace, ops, written) && k <= |ops|
    ensures Used(trace[k]) <= Used(trace[0]) + |AllOffered(ops[..k])|
  {
    hide Used, PairSet, PairsPart, Refused;
    if k > 0 {
      TraceUsed(limit, trace, ops, written, k - 1);
      assert Stepped(limit, trace[k - 1], ops[k - 1], written[k - 1], trace[k - 1 + 1]);
      OpsSplit(multiset{}, ops, k - 1);
    }
  }

  /** With room for everything offered, no call falls short. */
  lemma TraceFull(limit: int, trace: seq<seq<Entry>>, ops: seq<TableOp>, written: seq<nat>, k: nat)
    requires IsTrace(limit, trace, ops, written) && k < |ops| && Room(limit, trace[0], AllOffered(ops))
    ensures written[k] == |Offered(ops[k])|
  {
    hide Used, PairSet, PairsPart, Refused, Fits;
    var n, ps := written[k], Offered(ops[k]);
    assert Stepped(limit, trace[k], ops[k], n, trace[k + 1]);
    OpsSplit(multiset{}, ops, k);
    OfferedPrefix(ops, k + 1);
    if n < |ps| {
      var all := AllOffered(ops);
      assert all[|AllOffered(ops[..k])| + n] == ps[n];
      TraceUsed(limit, trace, ops, written, k);
      RefusedMeans(limit, trace[k + 1], ps[n]);
    }
  }

  lemma {:induction false} TraceMeans(limit: int, trace: seq<seq<Entry>>, ops: seq<TableOp>, written: seq<nat>, k: nat)
    requires IsTrace(limit, trace, ops, written) && k <= |ops| && Room(limit, trace[0], AllOffered(ops))
    ensures PairSet(trace[k]) == PairsAfterAll(PairSet(trace[0]), ops[..k])
  {
    if k > 0 {
      hide PairSet, PairsPart, PairsAfter, Refused, Room, Used;
      TraceMeans(limit, trace, ops, written, k - 1);
      TraceFull(limit, trace, ops, written, k - 1);
      assert Stepped(limit, trace[k - 1], ops[k - 1], written[k - 1], trace[k - 1 + 1]);
      PartIsAll(PairSet(trace[k - 1]), ops[k - 1]);
      OpsSplit(PairSet(trace[0]), ops, k - 1);
    }
  }

  /** What a call records inserts only what it offered, and no more often. */
  lemma RecordedInserts(s: seq<Entry>, op: TableOp, n: nat)
    requires n <= |Offered(op)|
    ensures |InsertedPairs(Recorded(s, op, n))| <= |Offered(op)|
    ensures forall p :: p in InsertedPairs(Recorded(s, op, n)) ==> p in Offered(op)
  {
    var ps := Offered(op);
    if op.DoReconcile? {
      var want, have := multiset(ps), PairSet(s) * multiset(ps);
      InsertedConcat(EraseOps(Pairs(Surplus(s, want))), InsertOps(Missing(ps[..n], have, want)));
      InsertedOps(Pairs(Surplus(s, want)));
      InsertedOps(Missing(ps[..n], have, want));
      MissingSub(ps[..n], have, want);
    } else {
      InsertedOps(ps[..n]);
      var d := Recorded(s, op, n);
      assert |d| == 1 ==> d[..0] == [];
    }
  }

  lemma {:induction false} RecordedAllInserts(limit: int, trace: seq<seq<Entry>>, ops: seq<TableOp>, written: seq<nat>)
    requires IsTrace(limit, trace, ops, written)
    ensures |InsertedPairs(RecordedAll(limit, trace, ops, written))| <= |AllOffered(ops)|
    ensures forall p :: p in InsertedPairs(RecordedAll(limit, trace, ops, written)) ==> p in AllOffered(ops)
  {
    if ops != [] {
      hide InsertedPairs, Recorded, Offered, PairsPart, PairSet, Refused, Used;
      var n := |ops| - 1;
      assert Stepped(limit, trace[n], ops[n], written[n], trace[n + 1]);
      assert IsTrace(limit, trace[..n + 1], ops[..n], written[..n]);
      RecordedAllInserts(limit, trace[..n + 1], ops[..n], written[..n]);
      RecordedInserts(trace[n], ops[n], written[n]);
      InsertedConcat(RecordedAll(limit, trace[..n + 1], ops[..n], written[..n]), Recorded(trace[n], ops[n], written[n]));
    }
  }

  /** Any run of a captured table: every call does what it means, short only of pairs it
      must refuse, and the log is what the calls record. With room for everything offered
      the final multiset is the calls' own meaning. */
  method Run(table: KeyMultiValueTable, ops: seq<TableOp>)
    returns (written: seq<nat>, ghost trace: seq<seq<Entry>>, ghost delta: seq<LogicalOp>)
    requires table.Valid() && table.captured
    modifies table`log, table.dbi
    ensures table.Valid()
    ensures IsTrace(table.limit, trace, ops, written)
    ensures trace[0] == old(table.dbi.entries) && trace[|ops|] == table.dbi.entries
    ensures delta == RecordedAll(table.limit, trace, ops, written)
    ensures table.log == old(table.log) + delta && table.Contents() == AppliedAll(old(table.Contents()), delta)
    ensures Room(table.limit, old(table.dbi.entries), AllOffered(ops)) ==>
              && (forall i :: 0 <= i < |ops| ==> written[i] == |Offered(ops[i])|)
              && table.Contents() == PairsAfterAll(old(table.Contents()), ops)
  {
    hide PairSet, WellFormed, AppliedAll, Stepped, Recorded, Room;
    written, trace, delta := [], [table.dbi.entries], [];
    AppliedNone(table.Contents());
    for i := 0 to |ops|
      invariant table.Valid()
      invariant IsTrace(table.limit, trace, ops[..i], written)
      invariant trace[0] == old(table.dbi.entries) && trace[i] == table.dbi.entries
      invariant delta == RecordedAll(table.limit, trace, ops[..i], written)
      invariant table.log == old(table.log) + delta && table.Contents() == AppliedAll(old(table.Contents()), delta)
    {
      hide IsTrace, RecordedAll;
      var n; ghost var step;
      n, step := Step(table, ops[i]);
      ConcatAssoc(old(table.log), delta, step);
      AppliedConcat(old(table.Contents()), delta, step);
      TraceSnoc(table.limit, trace, ops, i, written, n, table.dbi.entries);
      TraceLength(table.limit, trace, ops[..i], written);
      written, trace, delta := written + [n], trace + [table.dbi.entries], delta + step;
    }
    assert ops[..|ops|] == ops;
    WithRoom(table.limit, trace, ops, written);
  }

  /** A run, call by call and pair by pair: what a call does to the multiplicity of a pair when
      it gets through everything it offers, and why it did not. */
  lemma {:induction false} CallMeans(limit: int, trace: seq<seq<Entry>>, ops: seq<TableOp>, written: seq<nat>, i: nat, p: Pair)
    requires IsTrace(limit, trace, ops, written) && i < |ops|
    ensures |trace| == |ops| + 1 && |written| == |ops|
    ensures var m, n := multiset(Pairs(trace[i]))[p], multiset(Pairs(trace[i + 1]))[p];
            match ops[i]
            case DoInsert(k, v) => written[i] <= 1 && n == m + if written[i] == 1 && p == (k, v) then 1 else 0
            case DoAppend(ps) => written[i] <= |ps| && n == m + multiset(ps[..written[i]])[p]
            case DoEraseKey(k) => n == if p.0 == k then 0 else m
            case DoErasePair(k, v) => n == if p == (k, v) then 0 else m
            case DoEraseOne(k, v) => n == if p == (k, v) && m > 0 then m - 1 else m
            case DoEraseRange(_, _) => n == m
            case DoReconcile(ps) => written[i] <= |ps| && (written[i] == |ps| ==> n == multiset(ps)[p])
            case DoClear => n == 0
    ensures ops[i].DoInsert? && written[i] == 0 ==> Refused(limit, trace[i + 1], (ops[i].key, ops[i].value))
    ensures (ops[i].DoAppend? || ops[i].DoReconcile?) && written[i] < |ops[i].pairs| ==>
              Refused(limit, trace[i + 1], ops[i].pairs[written[i]])
  {
    var s, op, n, t := trace[i], ops[i], written[i], trace[i + 1];
    assert Stepped(limit, s, op, n, t);
    if n == |Offered(op)| { PartIsAll(PairSet(s), op); }
  }

  lemma TraceLength(limit: int, trace: seq<seq<Entry>>, ops: seq<TableOp>, written: seq<nat>)
    requires IsTrace(limit, trace, ops, written)
    ensures |trace| == |ops| + 1 && |written| == |ops|
  {
  }

  lemma WithRoom(limit: int, trace: seq<seq<Entry>>, ops: seq<TableOp>, written: seq<nat>)
    requires IsTrace(limit, trace, ops, written)
    ensures Room(limit, trace[0], AllOffered(ops)) ==>
              && (forall i :: 0 <= i < |ops| ==> written[i] == |Offered(ops[i])|)
              && PairSet(trace[|ops|]) == PairsAfterAll(PairSet(trace[0]), ops)
  {
    hide PairSet, Stepped, Room;
    if Room(limit, trace[0], AllOffered(ops)) {
      forall i | 0 <= i < |ops| ensures written[i] == |Offered(ops[i])| {
        TraceFull(limit, trace, ops, written, i);
      }
      assert ops[..|ops|] == ops;
      TraceMeans(limit, trace, ops, written, |ops|);
    }
  }

  // ---------------------------------------------------------------- the replica

  /** The adapter's apply: one change through the table's own operation. Only an insert
      can be refused. */
  method Apply(replica: KeyMultiValueTable, change: LogicalOp) returns (ok: bool)
    requires replica.Valid()
    modifies replica`log, replica.dbi
    ensures replica.Valid()
    ensures !ok <==> change.InsertOne? && old(replica.Refuses(change.key, change.value))
    ensures !ok ==> replica.dbi.entries == old(replica.dbi.entries)
    ensures ok ==> replica.Contents() == Applied(old(replica.Contents()), change)
    ensures Used(replica.dbi.entries) <= Used(old(replica.dbi.entries)) + if change.InsertOne? then 1 else 0
  {
    hide PairSet, WellFormed, Used;
    AppliedNone(replica.Contents());
    ghost var delta;
    match change {
      case InsertOne(k, v) =>
        var r; ghost var e;
        r, e, delta := replica.Insert(k, v);
        return r.Inserted?;
      case EraseKey(k) =>
        EraseMissing(replica.dbi.entries, k);
        var removed;
        removed, delta := replica.EraseAllOf(k);
      case EraseAllValues(k, v) =>
        var removed;
        removed, delta := replica.ErasePair(k, v);
      case EraseOneValue(k, v) =>
        var removed;
        removed, delta := replica.EraseOne(k, v);
      case ClearAll =>
        delta := replica.Clear();
    }
    UsedSub(old(replica.dbi.entries), replica.dbi.entries);
    ok := true;
  }

  /** The replica stops only at an insert it must refuse; with room for all the inserts it
      takes every change. */
  method Replay(replica: KeyMultiValueTable, changes: seq<LogicalOp>) returns (n: nat)
    requires replica.Valid()
    modifies replica`log, replica.dbi
    ensures replica.Valid()
    ensures n <= |changes| && replica.Contents() == AppliedAll(old(replica.Contents()), changes[..n])
    ensures n < |changes| ==> changes[n].InsertOne? && replica.Refuses(changes[n].key, changes[n].value)
    ensures Room(replica.limit, old(replica.dbi.entries), InsertedPairs(changes)) ==> n == |changes|
  {
    hide PairSet, WellFormed, AppliedAll, Applied, Used, Refused, InsertedPairs, Room;
    AppliedNone(replica.Contents());
    assert changes[..0] == [];
    n := 0;
    while n < |changes|
      invariant replica.Valid()
      invariant n <= |changes| && replica.Contents() == AppliedAll(old(replica.Contents()), changes[..n])
      invariant Used(replica.dbi.entries) <= Used(old(replica.dbi.entries)) + |InsertedPairs(changes[..n])|
    {
      var ok := Apply(replica, changes[n]);
      if !ok {
        NoRoom(replica.limit, old(replica.dbi.entries), replica.dbi.entries, changes, n);
        return;
      }
      AppliedSnoc(old(replica.Contents()), changes[..n], changes[n]);
      SliceSnoc(changes, 0, n);
      InsertedAt(changes, n);
      n := n + 1;
    }
  }

  lemma InsertedAt(changes: seq<LogicalOp>, n: nat)
    requires n < |changes|
    ensures var c, before := changes[n], InsertedPairs(changes[..n]);
            && InsertedPairs(changes[..n + 1]) == (if c.InsertOne? then before + [(c.key, c.value)] else before)
            && InsertedPairs(changes[..n + 1]) <= InsertedPairs(changes)
  {
    assert changes[..n + 1][..n] == changes[..n];
    InsertedFirst(changes, n + 1);
  }

  lemma InsertedFirst(changes: seq<LogicalOp>, n: nat)
    requires n <= |changes|
    ensures InsertedPairs(changes[..n]) <= InsertedPairs(changes)
  {
    hide InsertedPairs;
    SplitAt(changes, n);
    InsertedConcat(changes[..n], changes[n..]);
  }

  /** A refused insert means there was no room for all of them. */
  lemma NoRoom(limit: int, s: seq<Entry>, t: seq<Entry>, changes: seq<LogicalOp>, n: nat)
    requires n < |changes| && changes[n].InsertOne? && Refused(limit, t, (changes[n].key, changes[n].value))
    requires Used(t) <= Used(s) + |InsertedPairs(changes[..n])|
    ensures !Room(limit, s, InsertedPairs(changes))
  {
    hide Used, Refused, InsertedPairs;
    var p, before, all := (changes[n].key, changes[n].value), InsertedPairs(changes[..n]), InsertedPairs(changes);
    RefusedMeans(limit, t, p);
    InsertedAt(changes, n);
    assert all[|before|] == p;
  }

  lemma RoomForFewer(limit: int, s: seq<Entry>, fewer: seq<Pair>, pairs: seq<Pair>)
    requires |fewer| <= |pairs| && forall p :: p in fewer ==> p in pairs
    ensures Room(limit, s, pairs) ==> Room(limit, s, fewer)
  {
  }

  /** A replica that starts with the same pairs, in whatever per-key order, replays what a
      captured run recorded: it stops early only at an insert it must itself refuse, and
      otherwise ends with the source's pairs. With room on both sides for everything the
      run offers, both end with what the calls mean. */
  method ReplicaConverges(source: KeyMultiValueTable, replica: KeyMultiValueTable, ops: seq<TableOp>)
    returns (written: seq<nat>, n: nat, ghost trace: seq<seq<Entry>>, ghost delta: seq<LogicalOp>)
    requires source.Valid() && source.captured && replica.Valid()
    requires source != replica && source.dbi != replica.dbi
    requires source.Contents() == replica.Contents()
    modifies source`log, source.dbi, replica`log, replica.dbi
    ensures source.Valid() && replica.Valid()
    ensures IsTrace(source.limit, trace, ops, written)
    ensures trace[0] == old(source.dbi.entries) && trace[|ops|] == source.dbi.entries
    ensures delta == RecordedAll(source.limit, trace, ops, written) && source.log == old(source.log) + delta
    ensures n <= |delta| && replica.Contents() == AppliedAll(old(replica.Contents()), delta[..n])
    ensures n < |delta| ==> delta[n].InsertOne? && replica.Refuses(delta[n].key, delta[n].value)
    ensures n == |delta| ==> replica.Contents() == source.Contents()
    ensures Room(replica.limit, old(replica.dbi.entries), AllOffered(ops)) ==> n == |delta|
    ensures Room(source.limit, old(source.dbi.entries), AllOffered(ops)) ==>
              source.Contents() == PairsAfterAll(old(source.Contents()), ops)
  {
    hide PairSet, WellFormed, AppliedAll, Stepped, RecordedAll, Room, Refused, InsertedPairs, PairsAfterAll;
    var start := |source.log|;
    written, trace, delta := Run(source, ops);
    var changes := source.log[start..];
    assert changes == delta;
    RecordedAllInserts(source.limit, trace, ops, written);
    RoomForFewer(replica.limit, replica.dbi.entries, InsertedPairs(delta), AllOffered(ops));
    n := Replay(replica, changes);
    assert changes[..|changes|] == changes;
  }
}
