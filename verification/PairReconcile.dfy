/** What KeyMultiValueTable::reconcile must leave behind, said without its count maps. */
module PairReconcile {
  import opened ByteStrings
  import opened OrderedStore
  import opened Prefixed
  import opened PairLog

  /** The earliest copies of each pair, as many as are wanted: an entry stays exactly
      when fewer than `want` equal pairs come before it. */
  ghost function Survivors(s: seq<Entry>, want: multiset<Pair>): seq<Entry> {
    if s == [] then []
    else
      var t, e := s[..|s| - 1], s[|s| - 1];
      if PairSet(t)[PairOf(e)] < want[PairOf(e)] then Survivors(t, want) + [e] else Survivors(t, want)
  }

  lemma SurvivorsSnoc(s: seq<Entry>, i: nat, want: multiset<Pair>)
    requires i < |s|
    ensures Survivors(s[..i + 1], want) ==
            if PairSet(s[..i])[PairOf(s[i])] < want[PairOf(s[i])] then Survivors(s[..i], want) + [s[i]]
            else Survivors(s[..i], want)
  {
    assert s[..i + 1][..i] == s[..i];
  }

  /** The entries that do not stay, in store order. */
  ghost function Surplus(s: seq<Entry>, want: multiset<Pair>): seq<Entry> {
    if s == [] then []
    else
      var t, e := s[..|s| - 1], s[|s| - 1];
      if PairSet(t)[PairOf(e)] < want[PairOf(e)] then Surplus(t, want) else Surplus(t, want) + [e]
  }

  lemma SurplusSnoc(s: seq<Entry>, i: nat, want: multiset<Pair>)
    requires i < |s|
    ensures Surplus(s[..i + 1], want) ==
            if PairSet(s[..i])[PairOf(s[i])] < want[PairOf(s[i])] then Surplus(s[..i], want)
            else Surplus(s[..i], want) + [s[i]]
  {
    assert s[..i + 1][..i] == s[..i];
  }

  /** The earliest copies survive: an entry stays exactly when fewer copies of its pair stand
      before it than are wanted, and is surplus otherwise. */
  lemma {:induction false} EarliestSurvive(s: seq<Entry>, want: multiset<Pair>, i: nat, n: nat)
    requires i < n <= |s| && forall j :: 0 <= j < |s| && j != i ==> s[j] != s[i]
    ensures s[i] in Survivors(s[..n], want) <==> multiset(Pairs(s[..i]))[Pairs(s)[i]] < want[Pairs(s)[i]]
    ensures s[i] in Surplus(s[..n], want) <==> s[i] !in Survivors(s[..n], want)
  {
    hide Survivors, Surplus, PairOf;
    SurvivorsSnoc(s, n - 1, want);
    SurplusSnoc(s, n - 1, want);
    assert Pairs(s)[i] == PairOf(s[i]) && PairSet(s[..i]) == multiset(Pairs(s[..i]));
    hide PairSet;
    if i < n - 1 {
      EarliestSurvive(s, want, i, n - 1);
      assert s[n - 1] != s[i];
    } else {
      OnlyEntries(s[..i], want);
      assert s[i] !in s[..i];
    }
  }

  lemma {:induction false} OnlyEntries(s: seq<Entry>, want: multiset<Pair>)
    ensures forall e :: e in Survivors(s, want) || e in Surplus(s, want) ==> e in s
  {
    if s != [] { OnlyEntries(s[..|s| - 1], want); }
  }

  /** What survives is the common part of what was stored and what is wanted. */
  lemma {:induction false} SurvivorsPairs(s: seq<Entry>, want: multiset<Pair>)
    ensures PairSet(Survivors(s, want)) == PairSet(s) * want
    ensures forall e :: e in Survivors(s, want) ==> e in s
    ensures |Survivors(s, want)| <= |s|
  {
    if s != [] {
      var n := |s| - 1;
      SurvivorsPairs(s[..n], want);
      assert s[..n + 1] == s;
      PairSetSnoc(s, n);
      SurvivorsSnoc(s, n, want);
      PairSetConcat(Survivors(s[..n], want), [s[n]]);
      assert Pairs([s[n]]) == [PairOf(s[n])];
    }
  }

  /** The source pairs to insert, in source order: a pair goes in exactly when the kept
      copies and the source copies before it do not make up the wanted number. */
  ghost function Missing(src: seq<Pair>, have: multiset<Pair>, want: multiset<Pair>): seq<Pair> {
    if src == [] then []
    else
      var t, p := src[..|src| - 1], src[|src| - 1];
      if have[p] + multiset(t)[p] < want[p] then Missing(t, have, want) + [p] else Missing(t, have, want)
  }

  lemma MissingSnoc(src: seq<Pair>, n: nat, have: multiset<Pair>, want: multiset<Pair>)
    requires n < |src|
    ensures Missing(src[..n + 1], have, want) ==
            if have[src[n]] + multiset(src[..n])[src[n]] < want[src[n]] then Missing(src[..n], have, want) + [src[n]]
            else Missing(src[..n], have, want)
    ensures multiset(src[..n + 1]) == multiset(src[..n]) + multiset{src[n]}
  {
    assert src[..n + 1][..n] == src[..n];
    assert src[..n + 1] == src[..n] + [src[n]];
  }

  lemma {:induction false} MissingSub(src: seq<Pair>, have: multiset<Pair>, want: multiset<Pair>)
    ensures |Missing(src, have, want)| <= |src|
    ensures forall p :: p in Missing(src, have, want) ==> p in src
  {
    if src != [] {
      MissingSub(src[..|src| - 1], have, want);
      assert src[|src| - 1] in src;
    }
  }

  /** One more copy on one side of a common part. */
  lemma CommonSnoc(a: multiset<Pair>, gap: multiset<Pair>, x: Pair)
    ensures (a + multiset{x}) * gap == if a[x] < gap[x] then a * gap + multiset{x} else a * gap
  {
    var r := if a[x] < gap[x] then a * gap + multiset{x} else a * gap;
    forall p ensures ((a + multiset{x}) * gap)[p] == r[p] {
    }
  }

  /** As many copies go in as are still wanted, or as the source has. */
  lemma {:induction false} MissingPairs(src: seq<Pair>, n: nat, have: multiset<Pair>, want: multiset<Pair>)
    requires n <= |src| && have <= want
    ensures multiset(Missing(src[..n], have, want)) == multiset(src[..n]) * (want - have)
  {
    if n > 0 {
      hide Missing;
      var x := src[n - 1];
      MissingPairs(src, n - 1, have, want);
      MissingSnoc(src, n - 1, have, want);
      CommonSnoc(multiset(src[..n - 1]), want - have, x);
      var m := Missing(src[..n - 1], have, want);
      assert multiset(m + [x]) == multiset(m) + multiset{x};
      assert (want - have)[x] == want[x] - have[x];
    }
  }

  /** Kept and inserted pairs together are the source. */
  lemma ReconciledPairs(stored: multiset<Pair>, src: seq<Pair>)
    ensures var want := multiset(src);
            var have := stored * want;
            && have + multiset(Missing(src, have, want)) == want
            && |Missing(src, have, want)| == |want - stored|
  {
    var want := multiset(src);
    var have := stored * want;
    assert src[..|src|] == src;
    MissingPairs(src, |src|, have, want);
    assert want * (want - have) == want - have;
    assert want - have == want - stored;
  }

  /** No way to turn one multiset into the other removes or adds fewer pairs. */
  lemma FewestEdits(stored: multiset<Pair>, want: multiset<Pair>, removed: multiset<Pair>, added: multiset<Pair>)
    requires removed <= stored && stored - removed + added == want
    ensures |removed| >= |stored - want| && |added| >= |want - stored|
  {
    assert stored - want <= removed;
    assert want - stored <= added;
    MultisetSubCard(stored - want, removed);
    MultisetSubCard(want - stored, added);
  }

  lemma MultisetSubCard(a: multiset<Pair>, b: multiset<Pair>)
    requires a <= b
    ensures |a| <= |b|
  {
    assert b == a + (b - a);
  }

  /** What reconcile removes is what is stored and not wanted. */
  lemma SurplusSize(s: seq<Entry>, want: multiset<Pair>)
    ensures |s| - |Survivors(s, want)| == |PairSet(s) - want|
  {
    SurvivorsPairs(s, want);
    var a := PairSet(s);
    assert a == a * want + (a - want);
    assert |a| == |s| && |PairSet(Survivors(s, want))| == |Survivors(s, want)|;
  }

  /** For every key: its old entries, untouched, then its new ones in order. */
  ghost predicate Extends(s': seq<Entry>, s: seq<Entry>, added: seq<Entry>) {
    forall k {:trigger KeyEntries(s', k)} :: KeyEntries(s', k) == KeyEntries(s, k) + KeyEntries(added, k)
  }

  /** Every key's entries are those it had and then the added ones. */
  lemma ExtendsMeans(s': seq<Entry>, s: seq<Entry>, added: seq<Entry>)
    requires Extends(s', s, added)
    ensures forall k {:trigger KeyEntries(s', k)} :: KeyEntries(s', k) == KeyEntries(s, k) + KeyEntries(added, k)
  {
  }

  lemma ExtendsNone(s: seq<Entry>)
    ensures Extends(s, s, [])
  {
  }

  lemma ExtendsStep(f: DbiFlags, s': seq<Entry>, s: seq<Entry>, added: seq<Entry>, e: Entry)
    requires Sorted(f, s') && Extends(s', s, added)
    ensures var u := UpperIndex(f.order, s', e.key); Extends(s'[..u] + [e] + s'[u..], s, added + [e])
  {
    var u := UpperIndex(f.order, s', e.key);
    forall k ensures KeyEntries(s'[..u] + [e] + s'[u..], k) == KeyEntries(s, k) + KeyEntries(added + [e], k) {
      KeyEntriesInsert(f, s', e, k);
      assert KeyEntries(s', k) == KeyEntries(s, k) + KeyEntries(added, k);
      KeyEntriesConcat(added, [e], k);
      assert [e][..0] == [];
    }
  }

  // ---------------------------------------------------------------- the count maps

  type PairCounts = map<Pair, nat>

  function CountIn(m: PairCounts, p: Pair): nat {
    if p in m then m[p] else 0
  }

  function Incremented(m: PairCounts, p: Pair): PairCounts {
    m[p := CountIn(m, p) + 1]
  }

  /** The map holds the multiplicities of the multiset. */
  ghost predicate Counts(m: PairCounts, s: multiset<Pair>) {
    forall p {:trigger CountIn(m, p)} :: CountIn(m, p) == s[p]
  }

  lemma CountsIncremented(m: PairCounts, s: multiset<Pair>, p: Pair)
    requires Counts(m, s)
    ensures Counts(Incremented(m, p), s + multiset{p})
  {
    forall q ensures CountIn(Incremented(m, p), q) == (s + multiset{p})[q] {
      assert CountIn(m, q) == s[q];
    }
  }

  /** The count maps decide as the copies before decide. */
  lemma InsertDecision(src: seq<Pair>, n: nat, have: multiset<Pair>, desired: PairCounts, kept: PairCounts, inserted: PairCounts)
    requires n < |src| && have <= multiset(src)
    requires Counts(desired, multiset(src)) && Counts(kept, have)
    requires Counts(inserted, multiset(Missing(src[..n], have, multiset(src))))
    ensures var want, p := multiset(src), src[n];
            Missing(src[..n + 1], have, want) ==
            if CountIn(kept, p) + CountIn(inserted, p) < CountIn(desired, p) then Missing(src[..n], have, want) + [p]
            else Missing(src[..n], have, want)
  {
    var want, p := multiset(src), src[n];
    MissingSnoc(src, n, have, want);
    MissingPairs(src, n, have, want);
    assert CountIn(desired, p) == want[p] && CountIn(kept, p) == have[p];
    assert CountIn(inserted, p) == (multiset(src[..n]) * (want - have))[p];
  }

  /** collect_reconcile_entries. */
  method CollectDesired(src: seq<Pair>) returns (desired: PairCounts)
    ensures Counts(desired, multiset(src))
  {
    desired := map[];
    assert src[..0] == [];
    for i := 0 to |src|
      invariant Counts(desired, multiset(src[..i]))
    {
      assert src[..i + 1] == src[..i] + [src[i]];
      CountsIncremented(desired, multiset(src[..i]), src[i]);
      desired := Incremented(desired, src[i]);
    }
    assert src[..|src|] == src;
  }
}
