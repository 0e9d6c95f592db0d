/** What the plain map of the hashed store means, call by call and over whole runs, in terms
    of its keys and values alone. */
module HashedLaws {
  import opened ByteStrings
  import opened HashedRecords

  /** One call, key by key: insert keeps a value that is there. */
  lemma {:induction false} CallMeans(m: map<KeyBytes, Bytes>, op: Op, k: KeyBytes)
    ensures var a := After(m, op);
            match op
            case Insert(x, v) => (k in a <==> k in m || k == x) && (k in a ==> a[k] == if k in m then m[k] else v)
            case InsertOrAssign(x, v) => (k in a <==> k in m || k == x) && (k in a ==> a[k] == if k == x then v else m[k])
            case Erase(x) => (k in a <==> k in m && k != x) && (k in a ==> a[k] == m[k])
            case Clear => k !in a
            case Append(_) => true
            case Reconcile(_) => true
            case _ => a == m
  {
  }

  /** A batch gives a key the value of its last occurrence; what it does not name stays on
      append and goes on reconcile. */
  lemma {:induction false} BatchMeans(m: map<KeyBytes, Bytes>, ps: Pairs, k: KeyBytes)
    ensures k in After(m, Append(ps)) <==> k in m || exists i :: 0 <= i < |ps| && ps[i].0 == k
    ensures k in After(m, Reconcile(ps)) <==> exists i :: 0 <= i < |ps| && ps[i].0 == k
    ensures forall i :: 0 <= i < |ps| && ps[i].0 == k && (forall j :: i < j < |ps| ==> ps[j].0 != k) ==>
              After(m, Append(ps))[k] == ps[i].1 == After(m, Reconcile(ps))[k]
    ensures k in m && (forall i :: 0 <= i < |ps| ==> ps[i].0 != k) ==> After(m, Append(ps))[k] == m[k]
  {
    LastWins(ps, k);
  }

  /** A run does its calls one after the other, and each is answered from the map the calls
      before it left. */
  lemma {:induction false} RunMeans(m: map<KeyBytes, Bytes>, ops: seq<Op>, i: nat)
    requires i < |ops|
    ensures AfterAll(m, ops[..0]) == m && AfterAll(m, ops[..i + 1]) == After(AfterAll(m, ops[..i]), ops[i])
    ensures |Answers(m, ops)| == |ops|
    ensures var a := AfterAll(m, ops[..i]);
            Answers(m, ops)[i] ==
            match ops[i]
            case Insert(k, _) => Flag(k !in a)
            case Erase(k) => Flag(k in a)
            case Get(k) => Found(if k in a then Some(a[k]) else None)
            case Contains(k) => Flag(k in a)
            case Count => Number(|a|)
            case Load => Loaded(a)
            case _ => Done
    decreases |ops|
  {
    var n := |ops| - 1;
    RunSnoc(m, ops, i);
    AnswersSize(m, ops);
    AnswersSize(m, ops[..n]);
    if i < n {
      RunMeans(m, ops[..n], i);
      assert ops[..n][..i] == ops[..i] && ops[..n][i] == ops[i];
    }
  }

  lemma {:induction false} AnswersSize(m: map<KeyBytes, Bytes>, ops: seq<Op>)
    ensures |Answers(m, ops)| == |ops|
  {
    if ops != [] { AnswersSize(m, ops[..|ops| - 1]); }
  }

  /** The call says nothing about the key, and does not wipe the map either. */
  predicate Ignores(op: Op, k: KeyBytes) {
    match op
    case Insert(x, _) => x != k
    case InsertOrAssign(x, _) => x != k
    case Erase(x) => x != k
    case Append(ps) => forall i :: 0 <= i < |ps| ==> ps[i].0 != k
    case Reconcile(_) => false
    case Clear => false
    case _ => true
  }

  /** Calls about other keys leave a key as it was. */
  lemma {:induction false} IgnoredStays(m: map<KeyBytes, Bytes>, ops: seq<Op>, k: KeyBytes, i: nat, n: nat)
    requires i <= n <= |ops| && forall j :: i <= j < n ==> Ignores(ops[j], k)
    ensures var a, b := AfterAll(m, ops[..i]), AfterAll(m, ops[..n]);
            (k in a <==> k in b) && (k in a ==> a[k] == b[k])
    decreases n
  {
    if i < n {
      IgnoredStays(m, ops, k, i, n - 1);
      RunSnoc(m, ops, n - 1);
      CallMeans(AfterAll(m, ops[..n - 1]), ops[n - 1], k);
      if ops[n - 1].Append? { BatchMeans(AfterAll(m, ops[..n - 1]), ops[n - 1].pairs, k); }
    }
  }

  /** Read your writes: after a call about k and any calls about other keys, get answers
      what that call left: a value set or inserted, the value an insert found, nothing after
      an erase or a clear. */
  lemma {:induction false} LastWriteWins(m: map<KeyBytes, Bytes>, ops: seq<Op>, k: KeyBytes, i: nat, n: nat)
    requires i < n < |ops| && ops[n] == Get(k)
    requires forall j :: i < j < n ==> Ignores(ops[j], k)
    ensures |Answers(m, ops)| == |ops|
    ensures match ops[i]
            case InsertOrAssign(x, v) => x == k ==> Answers(m, ops)[n] == Found(Some(v))
            case Insert(x, v) =>
              var a := AfterAll(m, ops[..i]);
              x == k ==> Answers(m, ops)[n] == Found(Some(if k in a then a[k] else v))
            case Erase(x) => x == k ==> Answers(m, ops)[n] == Found(None)
            case Clear => Answers(m, ops)[n] == Found(None)
            case _ => true
  {
    hide After;
    RunMeans(m, ops, i);
    RunMeans(m, ops, n);
    CallMeans(AfterAll(m, ops[..i]), ops[i], k);
    IgnoredStays(m, ops, k, i + 1, n);
  }

  /** Each write twice, and what is read then. */
  lemma {:induction false} TwiceMeans(m: map<KeyBytes, Bytes>, k: KeyBytes, v: Bytes, w: Bytes)
    ensures Answers(m, [Insert(k, v), Insert(k, w), Get(k)]) ==
            [Flag(k !in m), Flag(false), Found(Some(if k in m then m[k] else v))]
    ensures Answers(m, [InsertOrAssign(k, v), InsertOrAssign(k, w), Get(k)]) == [Done, Done, Found(Some(w))]
    ensures Answers(m, [Erase(k), Erase(k), Get(k)]) == [Flag(k in m), Flag(false), Found(None)]
  {
    ThreeCalls(m, Insert(k, v), Insert(k, w), Get(k));
    ThreeCalls(m, InsertOrAssign(k, v), InsertOrAssign(k, w), Get(k));
    ThreeCalls(m, Erase(k), Erase(k), Get(k));
  }

  /** Batches and clear, with all that is listed then. */
  lemma {:induction false} BatchesMean(m: map<KeyBytes, Bytes>, k: KeyBytes, v: Bytes, w: Bytes)
    ensures Answers(m, [Append([(k, v), (k, w)]), Load]) == [Done, Loaded(m[k := w])]
    ensures Answers(m, [Reconcile([(k, v), (k, w)]), Load]) == [Done, Loaded(map[k := w])]
    ensures Answers(m, [Clear, Load]) == [Done, Loaded(map[])]
  {
    var ps: Pairs := [(k, v), (k, w)];
    TwoCalls(m, Append(ps), Load);
    TwoCalls(m, Reconcile(ps), Load);
    TwoCalls(m, Clear, Load);
    assert ps[..1] == [(k, v)] && ps[..1][..0] == [];
    assert MapOf(ps[..1]) == map[k := v];
    assert MapOf(ps) == map[k := w];
    assert m + map[k := w] == m[k := w];
  }

  lemma {:induction false} TwoCalls(m: map<KeyBytes, Bytes>, a: Op, b: Op)
    ensures Answers(m, [a, b]) == [AnswerOf(m, a), AnswerOf(After(m, a), b)] && AfterAll(m, [a, b]) == After(After(m, a), b)
  {
    hide After, AnswerOf;
    assert [a, b][..1] == [a] && [a][..0] == [];
    assert Answers(m, [a]) == [AnswerOf(m, a)] && AfterAll(m, [a]) == After(m, a);
  }

  lemma {:induction false} ThreeCalls(m: map<KeyBytes, Bytes>, a: Op, b: Op, c: Op)
    ensures Answers(m, [a, b, c]) == [AnswerOf(m, a), AnswerOf(After(m, a), b), AnswerOf(After(After(m, a), b), c)]
  {
    hide After, AnswerOf;
    TwoCalls(m, a, b);
    assert [a, b, c][..2] == [a, b];
  }
}
