/** Whole runs of KeyOrderedMultiValueTable against the map from key to value sequence. */
module OrderedRuns {
  import opened ByteStrings
  import opened OrderedStore
  import opened Prefixed
  import opened KeyOrdered

  datatype OrderedOp =
    | DoAppend(pairs: seq<Pair>)
    | DoEraseKey(key: Bytes)
    | DoErasePair(key: Bytes, value: Bytes)
    | DoEraseAt(key: Bytes, index: nat)
    | DoReplace(pairs: seq<Pair>)
    | DoClear
    | DoFind(key: Bytes)
    | DoRange(from: Bytes, to: Bytes)

  datatype Reply =
    | Denied
    | Wrote(count: nat)
    | Removed(count: nat)
    | Cleared
    | Found(values: seq<Bytes>)
    | Listed(pairs: seq<Pair>)

  /** A logical capture admits appends and reads only. */
  predicate Blocked(captured: bool, op: OrderedOp) {
    captured && !op.DoAppend? && !op.DoFind? && !op.DoRange?
  }

  /** The pairs a call tries to put in. */
  function Offered(captured: bool, op: OrderedOp): seq<Pair> {
    if Blocked(captured, op) then []
    else
      match op
      case DoAppend(pairs) => pairs
      case DoReplace(pairs) => pairs
      case _ => []
  }

  /** What a call makes of the map when it gets through n of the pairs it offers. */
  function After(m: View, captured: bool, op: OrderedOp, n: nat): View
    requires n <= |Offered(captured, op)|
  {
    if Blocked(captured, op) then m
    else
      match op
      case DoAppend(pairs) => Appended(m, pairs[..n])
      case DoEraseKey(k) => m - {k}
      case DoErasePair(k, v) => With(m, k, DropValue(Values(m, k), v))
      case DoEraseAt(k, i) => if i < |Values(m, k)| then With(m, k, RemoveAt(Values(m, k), i)) else m
      case DoReplace(pairs) => Appended(map[], pairs[..n])
      case DoClear => map[]
      case _ => m
  }

  /** The reply is the one the map would give. */
  ghost predicate Answers(o: KeyOrder, m: View, captured: bool, op: OrderedOp, n: nat, reply: Reply) {
    if Blocked(captured, op) then reply.Denied?
    else
      match op
      case DoAppend(_) => reply == Wrote(n)
      case DoEraseKey(k) => reply == Removed(if k in m then 1 else 0)
      case DoErasePair(k, v) => reply == Removed(Copies(Values(m, k), v))
      case DoEraseAt(k, i) => reply == Removed(if i < |Values(m, k)| then 1 else 0)
      case DoReplace(_) => reply == Wrote(n)
      case DoClear => reply.Cleared?
      case DoFind(k) => reply == Found(Values(m, k))
      case DoRange(from, to) => reply.Listed? && IsRange(o, m, from, to, reply.pairs)
  }

  /** How often a value occurs. */
  function Copies(values: seq<Bytes>, v: Bytes): nat {
    multiset(values)[v]
  }

  lemma {:induction false} DroppedCopies(values: seq<Bytes>, v: Bytes)
    ensures |values| - |DropValue(values, v)| == Copies(values, v)
  {
    if values != [] {
      var n := |values| - 1;
      DroppedCopies(values[..n], v);
      assert values == values[..n] + [values[n]];
    }
  }

  // ---------------------------------------------------------------- one call

  /** What is stored and the map it shows. */
  datatype Moment = Moment(entries: seq<Entry>, view: View)

  /** How a table is set up. */
  datatype Setup = Setup(order: KeyOrder, limit: int, captured: bool)

  /** One call from a to b: n offered pairs got through, a pair that did not is one the
      table must refuse, and the reply is the map's. */
  ghost predicate Stepped(u: Setup, a: Moment, op: OrderedOp, n: nat, reply: Reply, b: Moment) {
    && n <= |Offered(u.captured, op)|
    && b.view == After(a.view, u.captured, op, n) && Shows(b.entries, b.view)
    && Answers(u.order, a.view, u.captured, op, n, reply)
    && (n < |Offered(u.captured, op)| ==> Refused(u.limit, b.entries, Offered(u.captured, op)[n]))
    && Used(b.entries) <= Used(a.entries) + n
  }

  ghost function SetupOf(table: KeyOrderedMultiValueTable): Setup {
    Setup(table.dbi.flags.order, table.limit, table.captured)
  }

  ghost function MomentOf(table: KeyOrderedMultiValueTable): Moment
    reads table, table.dbi
  {
    Moment(table.dbi.entries, table.view)
  }

  method Step(table: KeyOrderedMultiValueTable, op: OrderedOp) returns (reply: Reply, n: nat)
    requires table.Valid()
    modifies table`view, table.dbi
    ensures table.Valid()
    ensures Stepped(SetupOf(table), old(MomentOf(table)), op, n, reply, MomentOf(table))
  {
    if op.DoAppend? || op.DoReplace? {
      reply, n := Write(table, op);
    } else if op.DoFind? || op.DoRange? {
      reply := Read(table, op);
      n := 0;
    } else {
      reply := Remove(table, op);
      n := 0;
    }
  }

  method Write(table: KeyOrderedMultiValueTable, op: OrderedOp) returns (reply: Reply, n: nat)
    requires table.Valid() && (op.DoAppend? || op.DoReplace?)
    modifies table`view, table.dbi
    ensures table.Valid()
    ensures Stepped(SetupOf(table), old(MomentOf(table)), op, n, reply, MomentOf(table))
  {
    hide Shows, WellFormed, Appended, Used, Refused, IsRange;
    match op {
      case DoAppend(pairs) =>
        var r;
        r, n := table.AppendAll(pairs);
        reply := Wrote(n);
      case DoReplace(pairs) =>
        var r;
        r, n := table.ReplaceWith(pairs);
        reply := if r.None? then Denied else Wrote(n);
    }
  }

  method Read(table: KeyOrderedMultiValueTable, op: OrderedOp) returns (reply: Reply)
    requires table.Valid() && (op.DoFind? || op.DoRange?)
    ensures Stepped(SetupOf(table), MomentOf(table), op, 0, reply, MomentOf(table))
  {
    hide Shows, WellFormed, Used, Refused, IsRange;
    match op {
      case DoFind(k) =>
        var values := table.Find(k);
        reply := Found(values);
      case DoRange(from, to) =>
        var pairs := table.Range(from, to);
        reply := Listed(pairs);
    }
  }

  method Remove(table: KeyOrderedMultiValueTable, op: OrderedOp) returns (reply: Reply)
    requires table.Valid() && (op.DoEraseKey? || op.DoErasePair? || op.DoEraseAt? || op.DoClear?)
    modifies table`view, table.dbi
    ensures table.Valid()
    ensures Stepped(SetupOf(table), old(MomentOf(table)), op, 0, reply, MomentOf(table))
  {
    hide Shows, WellFormed, Used, Refused, DropValue, RemoveAt, IsRange;
    match op {
      case DoEraseKey(k) =>
        var removed := table.EraseKey(k);
        reply := if removed.None? then Denied else Removed(if removed.value then 1 else 0);
      case DoErasePair(k, v) =>
        DroppedCopies(Values(table.view, k), v);
        var removed := table.ErasePair(k, v);
        reply := if removed.None? then Denied else Removed(removed.value);
      case DoEraseAt(k, i) =>
        var removed := table.EraseAt(k, i);
        reply := if removed.None? then Denied else Removed(if removed.value then 1 else 0);
      case DoClear =>
        NothingUsed();
        var ok := table.Clear();
        reply := if ok then Cleared else Denied;
    }
  }

  lemma NothingUsed()
    ensures Used([]) == 0
  {
  }

  // ---------------------------------------------------------------- a run

  /** Everything a run tries to put in. */
  function AllOffered(captured: bool, ops: seq<OrderedOp>): seq<Pair> {
    if ops == [] then [] else AllOffered(captured, ops[..|ops| - 1]) + Offered(captured, ops[|ops| - 1])
  }

  /** The map after a run in which nothing is refused. */
  function AfterAll(m: View, captured: bool, ops: seq<OrderedOp>): View {
    if ops == [] then m
    else
      var op := ops[|ops| - 1];
      After(AfterAll(m, captured, ops[..|ops| - 1]), captured, op, |Offered(captured, op)|)
  }

  lemma OpsSplit(m: View, captured: bool, ops: seq<OrderedOp>, k: nat)
    requires k < |ops|
    ensures AllOffered(captured, ops[..k + 1]) == AllOffered(captured, ops[..k]) + Offered(captured, ops[k])
    ensures AfterAll(m, captured, ops[..k + 1]) ==
            After(AfterAll(m, captured, ops[..k]), captured, ops[k], |Offered(captured, ops[k])|)
  {
    assert ops[..k + 1][..k] == ops[..k];
  }

  lemma {:induction false} OfferedPrefix(captured: bool, ops: seq<OrderedOp>, k: nat)
    requires k <= |ops|
    ensures AllOffered(captured, ops[..k]) <= AllOffered(captured, ops)
    decreases |ops| - k
  {
    if k < |ops| {
      OpsSplit(map[], captured, ops, k);
      OfferedPrefix(captured, ops, k + 1);
    } else {
      assert ops[..k] == ops;
    }
  }

  /** The moments before, between and after the calls of a run. */
  ghost predicate IsTrace(u: Setup, trace: seq<Moment>, ops: seq<OrderedOp>, written: seq<nat>, replies: seq<Reply>) {
    && |trace| == |ops| + 1 && |written| == |replies| == |ops|
    && forall i :: 0 <= i < |ops| ==> Stepped(u, trace[i], ops[i], written[i], replies[i], trace[i + 1])
  }

  lemma TraceSnoc(u: Setup, trace: seq<Moment>, ops: seq<OrderedOp>, i: nat, written: seq<nat>, replies: seq<Reply>,
                  n: nat, reply: Reply, b: Moment)
    requires i < |ops| && IsTrace(u, trace, ops[..i], written, replies) && Stepped(u, trace[i], ops[i], n, reply, b)
    ensures IsTrace(u, trace + [b], ops[..i + 1], written + [n], replies + [reply])
  {
    hide Stepped;
    var trace', written', replies' := trace + [b], written + [n], replies + [reply];
    forall j | 0 <= j < i + 1 ensures Stepped(u, trace'[j], ops[..i + 1][j], written'[j], replies'[j], trace'[j + 1]) {
      assert j < i ==> Stepped(u, trace[j], ops[..i][j], written[j], replies[j], trace[j + 1]);
    }
  }

  lemma {:induction false} TraceUsed(u: Setup, trace: seq<Moment>, ops: seq<OrderedOp>, written: seq<nat>, replies: seq<Reply>,
                                     k: nat)
    requires IsTrace(u, trace, ops, written, replies) && k <= |ops|
    ensures Used(trace[k].entries) <= Used(trace[0].entries) + |AllOffered(u.captured, ops[..k])|
  {
    hide Used, Shows, After, Answers, Refused;
    if k > 0 {
      TraceUsed(u, trace, ops, written, replies, k - 1);
      assert Stepped(u, trace[k - 1], ops[k - 1], written[k - 1], replies[k - 1], trace[k - 1 + 1]);
      OpsSplit(map[], u.captured, ops, k - 1);
    }
  }

  /** With room for everything offered, no call falls short. */
  lemma TraceFull(u: Setup, trace: seq<Moment>, ops: seq<OrderedOp>, written: seq<nat>, replies: seq<Reply>, k: nat)
    requires IsTrace(u, trace, ops, written, replies) && k < |ops|
    requires Room(u.limit, trace[0].entries, AllOffered(u.captured, ops))
    ensures written[k] == |Offered(u.captured, ops[k])|
  {
    hide Used, Shows, After, Answers, Refused, Fits;
    var n, ps := written[k], Offered(u.captured, ops[k]);
    assert Stepped(u, trace[k], ops[k], n, replies[k], trace[k + 1]);
    OpsSplit(map[], u.captured, ops, k);
    OfferedPrefix(u.captured, ops, k + 1);
    if n < |ps| {
      var all := AllOffered(u.captured, ops);
      assert all[|AllOffered(u.captured, ops[..k])| + n] == ps[n];
      TraceUsed(u, trace, ops, written, replies, k);
      RefusedMeans(u.limit, trace[k + 1].entries, ps[n]);
    }
  }

  lemma {:induction false} TraceMeans(u: Setup, trace: seq<Moment>, ops: seq<OrderedOp>, written: seq<nat>,
                                      replies: seq<Reply>, k: nat)
    requires IsTrace(u, trace, ops, written, replies) && k <= |ops|
    requires Room(u.limit, trace[0].entries, AllOffered(u.captured, ops))
    ensures trace[k].view == AfterAll(trace[0].view, u.captured, ops[..k])
  {
    if k > 0 {
      hide Used, Shows, After, Answers, Refused, Room;
      TraceMeans(u, trace, ops, written, replies, k - 1);
      TraceFull(u, trace, ops, written, replies, k - 1);
      assert Stepped(u, trace[k - 1], ops[k - 1], written[k - 1], replies[k - 1], trace[k - 1 + 1]);
      OpsSplit(trace[0].view, u.captured, ops, k - 1);
    }
  }

  /** A run answers every call as the map at that point does, and leaves the map. */
  ghost predicate AsTheMap(u: Setup, m: View, ops: seq<OrderedOp>, replies: seq<Reply>) {
    && |replies| == |ops|
    && forall i {:trigger replies[i]} :: 0 <= i < |ops| ==>
         Answers(u.order, AfterAll(m, u.captured, ops[..i]), u.captured, ops[i], |Offered(u.captured, ops[i])|, replies[i])
  }

  /** A run, call by call and key by key: a capture lets appends and reads through only, and
      then a key's sequence changes, and is answered, as the call says. */
  lemma {:induction false} CallMeans(u: Setup, trace: seq<Moment>, ops: seq<OrderedOp>, written: seq<nat>,
                                     replies: seq<Reply>, i: nat, k: Bytes)
    requires IsTrace(u, trace, ops, written, replies) && i < |ops|
    ensures |trace| == |ops| + 1 && |written| == |replies| == |ops|
    ensures var a, b, op, n, reply := trace[i].view, trace[i + 1].view, ops[i], written[i], replies[i];
            var before, after := if k in a then a[k] else [], if k in b then b[k] else [];
            if u.captured && !op.DoAppend? && !op.DoFind? && !op.DoRange? then b == a && reply == Denied
            else
              match op
              case DoAppend(ps) => n <= |ps| && after == before + ValuesOf(ps[..n], k) && reply == Wrote(n)
              case DoReplace(ps) => n <= |ps| && after == ValuesOf(ps[..n], k) && reply == Wrote(n)
              case DoEraseKey(x) =>
                after == (if k == x then [] else before) && (k == x ==> reply == Removed(if k in a then 1 else 0))
              case DoErasePair(x, v) =>
                && after == (if k == x then DropValue(before, v) else before)
                && (k == x ==> reply == Removed(multiset(before)[v]))
              case DoEraseAt(x, j) =>
                && after == (if k == x && j < |before| then before[..j] + before[j + 1..] else before)
                && (k == x ==> reply == Removed(if j < |before| then 1 else 0))
              case DoClear => after == [] && reply == Cleared
              case DoFind(x) => b == a && (k == x ==> reply == Found(before))
              case DoRange(from, to) =>
                && b == a && reply.Listed?
                && ValuesOf(reply.pairs, k) == if !u.order(k, from) && !u.order(to, k) then before else []
    ensures (ops[i].DoAppend? || (ops[i].DoReplace? && !u.captured)) && written[i] < |ops[i].pairs| ==>
              Refused(u.limit, trace[i + 1].entries, ops[i].pairs[written[i]])
  {
    var a, op, n := trace[i].view, ops[i], written[i];
    assert Stepped(u, trace[i], op, n, replies[i], trace[i + 1]);
    hide Appended, ValuesOf, DropValue, Refused, Used, Shows, IsTrace;
    if op.DoAppend? { AppendedValues(a, op.pairs[..n], k); }
    if op.DoReplace? && !u.captured { AppendedValues(map[], op.pairs[..n], k); }
  }

  lemma WithRoom(u: Setup, trace: seq<Moment>, ops: seq<OrderedOp>, written: seq<nat>, replies: seq<Reply>)
    requires IsTrace(u, trace, ops, written, replies)
    ensures Room(u.limit, trace[0].entries, AllOffered(u.captured, ops)) ==>
              && (forall i :: 0 <= i < |ops| ==> written[i] == |Offered(u.captured, ops[i])|)
              && AsTheMap(u, trace[0].view, ops, replies)
              && trace[|ops|].view == AfterAll(trace[0].view, u.captured, ops)
  {
    hide Used, Shows, After, Answers, Refused, Room;
    if Room(u.limit, trace[0].entries, AllOffered(u.captured, ops)) {
      forall i | 0 <= i < |ops| ensures written[i] == |Offered(u.captured, ops[i])| {
        TraceFull(u, trace, ops, written, replies, i);
      }
      forall i | 0 <= i < |ops| ensures
        Answers(u.order, AfterAll(trace[0].view, u.captured, ops[..i]), u.captured, ops[i], |Offered(u.captured, ops[i])|, replies[i])
      {
        TraceMeans(u, trace, ops, written, replies, i);
        assert Stepped(u, trace[i], ops[i], written[i], replies[i], trace[i + 1]);
      }
      assert ops[..|ops|] == ops;
      TraceMeans(u, trace, ops, written, replies, |ops|);
    }
  }

  /** Any run: every call does to the map what it means and answers as the map does, short
      only of pairs the table must refuse. With room for everything offered the whole run,
      replies and final map, is that of the map from key to value sequence. */
  method Run(table: KeyOrderedMultiValueTable, ops: seq<OrderedOp>)
    returns (replies: seq<Reply>, written: seq<nat>, ghost trace: seq<Moment>)
    requires table.Valid()
    modifies table`view, table.dbi
    ensures table.Valid()
    ensures IsTrace(Setup(table.dbi.flags.order, table.limit, table.captured), trace, ops, written, replies)
    ensures trace[0] == Moment(old(table.dbi.entries), old(table.view))
    ensures trace[|ops|] == Moment(table.dbi.entries, table.view)
    ensures Room(table.limit, old(table.dbi.entries), AllOffered(table.captured, ops)) ==>
              && (forall i :: 0 <= i < |ops| ==> written[i] == |Offered(table.captured, ops[i])|)
              && AsTheMap(SetupOf(table), old(table.view), ops, replies)
              && table.view == AfterAll(old(table.view), table.captured, ops)
  {
    hide Shows, WellFormed, Stepped, Room, AsTheMap;
    replies, written, trace := [], [], [MomentOf(table)];
    for i := 0 to |ops|
      invariant table.Valid()
      invariant IsTrace(SetupOf(table), trace, ops[..i], written, replies)
      invariant trace[0] == old(MomentOf(table)) && trace[i] == MomentOf(table)
    {
      var reply, n := Step(table, ops[i]);
      TraceSnoc(SetupOf(table), trace, ops, i, written, replies, n, reply, MomentOf(table));
      replies, written, trace := replies + [reply], written + [n], trace + [MomentOf(table)];
    }
    assert ops[..|ops|] == ops;
    WithRoom(SetupOf(table), trace, ops, written, replies);
  }
}
