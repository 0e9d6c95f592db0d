/** Whole runs of the two HashedKeyValueStore layouts against the plain map. */
module HashedLayouts {
  import opened ByteStrings
  import opened HashedRecords
  import LargeAgreement
  import LargeStore
  import SmallStore

  /** One public call on the LargeValues layout. */
  method StepLarge(store: LargeStore.LargeValuesStore, op: Op) returns (answer: Option<Answer>)
    requires store.Valid()
    modifies store, store.records, store.index
    ensures !(0 < store.limit < 8) ==> store.Valid()
    ensures answer.Some? ==> answer.value == AnswerOf(old(store.view), op) && store.view == After(old(store.view), op)
    ensures answer.None? ==> old(store.issued) + |Written(op)| >= TWO_TO_THE_64 || 0 < store.limit < 8
    ensures store.issued <= old(store.issued) + |Written(op)|
  {
    hide LargeStore.LargeValuesStore.Wired, LargeStore.LargeValuesStore.Indexed, LargeAgreement.RecordsOwned,
      LargeStore.LargeValuesStore.Orphaned, LargeStore.LargeValuesStore.Reconcilable,
      LargeStore.LargeValuesStore.BucketExhausted, LargeStore.LargeValuesStore.SlotTaken, LargeAgreement.AllFormed,
      LargeAgreement.KeepsOrphans, LargeAgreement.OrphanIn, MapOf;
    match op
    case Insert(k, v) =>
      var r := store.InsertIfAbsent(k, v);
      answer := if r.Ok? then Some(Flag(r.value)) else None;
    case InsertOrAssign(k, v) =>
      var r := store.InsertOrAssign(k, v);
      answer := if r.Ok? then Some(Done) else None;
    case Erase(k) =>
      var removed := store.Erase(k);
      answer := Some(Flag(removed));
    case Append(ps) =>
      var r, n := store.AppendAll(ps);
      answer := if r.Ok? then Some(Done) else None;
    case Reconcile(ps) =>
      var r, n := store.ReconcileWith(ps);
      answer := if r.Ok? then Some(Done) else None;
    case Clear =>
      store.IndexedIsWired();
      store.ClearAll();
      answer := Some(Done);
    case Get(k) =>
      var v := store.Get(k);
      answer := Some(Found(v));
    case Contains(k) =>
      var found := store.Contains(k);
      answer := Some(Flag(found));
    case Count =>
      var n := store.Count();
      answer := Some(Number(n));
    case Load =>
      var pairs := store.Load();
      ListedMap(pairs, store.view);
      answer := Some(Loaded(MapOf(pairs)));
  }

  /** Every run answers as the plain map does, for every hasher, as long as the
      store has not handed out 2^64 ordinals and its size limit admits index entries. */
  method RunLarge(store: LargeStore.LargeValuesStore, ops: seq<Op>) returns (answers: seq<Answer>)
    requires store.Valid() && store.issued + Writes(ops) < TWO_TO_THE_64 && !(0 < store.limit < 8)
    modifies store, store.records, store.index
    ensures store.Valid()
    ensures answers == Answers(old(store.view), ops)
    ensures store.view == AfterAll(old(store.view), ops)
  {
    hide LargeAgreement.Covered, LargeAgreement.RecordsOwned;
    answers := [];
    for i := 0 to |ops|
      invariant store.Valid()
      invariant answers == Answers(old(store.view), ops[..i])
      invariant store.view == AfterAll(old(store.view), ops[..i])
      invariant store.issued <= old(store.issued) + Writes(ops[..i])
    {
      WritesSnoc(ops, i);
      WritesMonotone(ops, i + 1);
      RunSnoc(old(store.view), ops, i);
      var answer := StepLarge(store, ops[i]);
      answers := answers + [answer.value];
    }
    assert ops[..|ops|] == ops;
  }

  /** One public call on the SmallValues layout. */
  method StepSmall(store: SmallStore.SmallValuesStore, op: Op) returns (answer: Option<Answer>)
    requires store.Valid()
    modifies store, store.dups
    ensures store.Valid()
    ensures answer.Some? ==> answer.value == AnswerOf(old(store.view), op) && store.view == After(old(store.view), op)
    ensures answer.None? ==> exists i :: 0 <= i < |Written(op)| && 0 < store.limit < |Payload(Written(op)[i].0, Written(op)[i].1)|
  {
    hide SmallStore.DupsAgree, Payload, MapOf;
    match op
    case Insert(k, v) =>
      assert Written(op)[0] == (k, v);
      var r := store.InsertIfAbsent(k, v);
      answer := if r.Ok? then Some(Flag(r.value)) else None;
    case InsertOrAssign(k, v) =>
      assert Written(op)[0] == (k, v);
      var r := store.InsertOrAssign(k, v);
      answer := if r.Ok? then Some(Done) else None;
    case Erase(k) =>
      var removed := store.Erase(k);
      answer := Some(Flag(removed));
    case Append(ps) =>
      var r, n := store.AppendAll(ps);
      assert r.TooLarge? ==> Written(op)[n] == ps[n];
      answer := if r.Ok? then Some(Done) else None;
    case Reconcile(ps) =>
      var r, n := store.ReconcileWith(ps);
      assert r.TooLarge? ==> Written(op)[n] == ps[n];
      answer := if r.Ok? then Some(Done) else None;
    case Clear =>
      store.ClearAll();
      answer := Some(Done);
    case Get(k) =>
      var v := store.Get(k);
      answer := Some(Found(v));
    case Contains(k) =>
      var found := store.Contains(k);
      answer := Some(Flag(found));
    case Count =>
      var n := store.Count();
      answer := Some(Number(n));
    case Load =>
      var pairs := store.Load();
      ListedMap(pairs, store.view);
      answer := Some(Loaded(MapOf(pairs)));
  }

  /** Every run answers as the plain map does, for every hasher, when there is no size
      limit or every payload it writes is within it. */
  method RunSmall(store: SmallStore.SmallValuesStore, ops: seq<Op>) returns (answers: seq<Answer>)
    requires store.Valid()
    requires store.limit > 0 ==>
               forall i, p :: 0 <= i < |ops| && p in Written(ops[i]) ==> |Payload(p.0, p.1)| <= store.limit
    modifies store, store.dups
    ensures store.Valid()
    ensures answers == Answers(old(store.view), ops)
    ensures store.view == AfterAll(old(store.view), ops)
  {
    hide SmallStore.DupsAgree;
    answers := [];
    for i := 0 to |ops|
      invariant store.Valid()
      invariant answers == Answers(old(store.view), ops[..i])
      invariant store.view == AfterAll(old(store.view), ops[..i])
    {
      RunSnoc(old(store.view), ops, i);
      var answer := StepSmall(store, ops[i]);
      answers := answers + [answer.value];
    }
    assert ops[..|ops|] == ops;
  }

  /** A store of each layout that stand for the same map, each with any hasher, give equal
      answers on every run within the duplicate-size limit and stand for the same map again. */
  method LayoutsAgree(large: LargeStore.LargeValuesStore, small: SmallStore.SmallValuesStore, ops: seq<Op>)
    returns (largeAnswers: seq<Answer>, smallAnswers: seq<Answer>)
    requires large.Valid() && small.Valid() && large.view == small.view
    requires small.dups != large.records && small.dups != large.index
    requires large.issued + Writes(ops) < TWO_TO_THE_64 && !(0 < large.limit < 8)
    requires small.limit > 0 ==>
               forall i, p :: 0 <= i < |ops| && p in Written(ops[i]) ==> |Payload(p.0, p.1)| <= small.limit
    modifies large, large.records, large.index, small, small.dups
    ensures large.Valid() && small.Valid() && large.view == small.view == AfterAll(old(large.view), ops)
    ensures largeAnswers == smallAnswers == Answers(old(large.view), ops)
  {
    hide LargeAgreement.Covered, LargeAgreement.RecordsOwned, SmallStore.DupsAgree;
    largeAnswers := RunLarge(large, ops);
    smallAnswers := RunSmall(small, ops);
  }

  /** In particular two fresh ones, whatever their hashers. */
  method FreshLayoutsAgree(largeHash: Hasher, smallHash: Hasher, limit: int, ops: seq<Op>)
    returns (largeAnswers: seq<Answer>, smallAnswers: seq<Answer>)
    requires Writes(ops) < TWO_TO_THE_64
    requires limit > 0 ==>
               limit >= 8 && forall i, p :: 0 <= i < |ops| && p in Written(ops[i]) ==> |Payload(p.0, p.1)| <= limit
    ensures largeAnswers == smallAnswers == Answers(map[], ops)
  {
    var large := new LargeStore.LargeValuesStore(largeHash, limit);
    var small := new SmallStore.SmallValuesStore(smallHash, limit);
    largeAnswers, smallAnswers := LayoutsAgree(large, small, ops);
  }

  /** Without a size limit, which is the default, any run of calls with batches of at most
      n pairs, short of 2^64 pairs in all. */
  method UnlimitedLayoutsAgree(largeHash: Hasher, smallHash: Hasher, limit: int, ops: seq<Op>, n: nat)
    returns (largeAnswers: seq<Answer>, smallAnswers: seq<Answer>)
    requires limit <= 0 && 1 <= n && n * |ops| < TWO_TO_THE_64
    requires forall i :: 0 <= i < |ops| ==>
               (ops[i].Append? ==> |ops[i].pairs| <= n) && (ops[i].Reconcile? ==> |ops[i].pairs| <= n)
    ensures largeAnswers == smallAnswers == Answers(map[], ops)
  {
    WritesAtMost(ops, n);
    largeAnswers, smallAnswers := FreshLayoutsAgree(largeHash, smallHash, limit, ops);
  }
}
