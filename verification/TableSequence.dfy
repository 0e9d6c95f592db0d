/** The identifier allocator over MDBX's per-table persistent sequence: `reserve` inside
    transactions that commit or roll back. */
module TableSequences {

  import opened ByteStrings

  datatype Reserved = First(id: nat) | ZeroCount | ReadOnly | Overflow

  /** Whether the transaction is writable, and the counts it asks for in order. */
  datatype Txn = Txn(writable: bool, counts: seq<uint64>, commits: bool)

  /** A block of identifiers handed out: first, first + 1, ..., first + count - 1. */
  datatype Block = Block(first: nat, count: nat)

  /** How many of the blocks hold the identifier. */
  function Times(blocks: seq<Block>, id: nat): nat {
    if blocks == [] then 0
    else
      var b := blocks[|blocks| - 1];
      Times(blocks[..|blocks| - 1], id) + if b.first <= id < b.first + b.count then 1 else 0
  }

  function Sum(blocks: seq<Block>): nat {
    if blocks == [] then 0 else Sum(blocks[..|blocks| - 1]) + blocks[|blocks| - 1].count
  }

  /** Blocks laid end to end right above `base`. */
  predicate Tiles(base: nat, blocks: seq<Block>, end: nat) {
    if blocks == [] then end == base
    else
      var b := blocks[|blocks| - 1];
      b.count > 0 && b.first > 0 && end == b.first + b.count - 1 && Tiles(base, blocks[..|blocks| - 1], b.first - 1)
  }

  lemma TilesSnoc(base: nat, blocks: seq<Block>, end: nat, count: nat)
    requires Tiles(base, blocks, end) && count > 0
    ensures Tiles(base, blocks + [Block(end + 1, count)], end + count)
  {
    assert (blocks + [Block(end + 1, count)])[..|blocks|] == blocks;
  }

  lemma {:induction false} SumConcat(a: seq<Block>, b: seq<Block>)
    ensures Sum(a + b) == Sum(a) + Sum(b)
  {
    if b == [] {
      assert a + b == a;
    } else {
      SumConcat(a, b[..|b| - 1]);
      assert (a + b)[..|a + b| - 1] == a + b[..|b| - 1];
    }
  }

  /** Consecutive tilings make one. */
  lemma {:induction false} TilesConcat(base: nat, a: seq<Block>, mid: nat, b: seq<Block>, end: nat)
    requires Tiles(base, a, mid) && Tiles(mid, b, end)
    ensures Tiles(base, a + b, end)
  {
    if b == [] {
      assert a + b == a;
    } else {
      var n := |b| - 1;
      TilesConcat(base, a, mid, b[..n], b[n].first - 1);
      assert (a + b)[..|a + b| - 1] == a + b[..n];
    }
  }

  /** Tiles hold every identifier of the span once and no other, and their counts add up. */
  lemma {:induction false} TilesExact(base: nat, blocks: seq<Block>, end: nat, id: nat)
    requires Tiles(base, blocks, end)
    ensures end == base + Sum(blocks)
    ensures Times(blocks, id) == if base < id <= end then 1 else 0
  {
    if blocks != [] {
      TilesExact(base, blocks[..|blocks| - 1], blocks[|blocks| - 1].first - 1, id);
    }
  }

  predicate Has(b: Block, id: nat) {
    b.first <= id < b.first + b.count
  }

  lemma {:induction false} NeverMeans(blocks: seq<Block>, id: nat)
    ensures Times(blocks, id) == 0 <==> forall i :: 0 <= i < |blocks| ==> !Has(blocks[i], id)
  {
    if blocks != [] {
      var n := |blocks| - 1;
      NeverMeans(blocks[..n], id);
      assert forall i :: 0 <= i < n ==> blocks[..n][i] == blocks[i];
    }
  }

  /** Once means in one block and in no other. */
  lemma {:induction false} OnceMeans(blocks: seq<Block>, id: nat) returns (i: nat)
    requires Times(blocks, id) == 1
    ensures i < |blocks| && blocks[i].first <= id < blocks[i].first + blocks[i].count
    ensures forall j :: 0 <= j < |blocks| && blocks[j].first <= id < blocks[j].first + blocks[j].count ==> j == i
  {
    var n := |blocks| - 1;
    if Has(blocks[n], id) {
      i := n;
      NeverMeans(blocks[..n], id);
      forall j | 0 <= j < n ensures !Has(blocks[j], id) {
        assert blocks[..n][j] == blocks[j];
      }
    } else {
      i := OnceMeans(blocks[..n], id);
    }
  }

  /** What a transaction that starts at `base` is given: if it is writable, a block for
      each count that is not zero and still fits. */
  function Granted(base: nat, writable: bool, counts: seq<uint64>): seq<Block> {
    if counts == [] then []
    else
      var n := |counts| - 1;
      var before := Granted(base, writable, counts[..n]);
      var at := base + Sum(before);
      if !writable || counts[n] == 0 || at + counts[n] > MAX_UINT64 then before else before + [Block(at + 1, counts[n])]
  }

  lemma GrantedSnoc(base: nat, writable: bool, counts: seq<uint64>, i: nat)
    requires i < |counts|
    ensures var before := Granted(base, writable, counts[..i]);
            var at := base + Sum(before);
            Granted(base, writable, counts[..i + 1]) ==
            if !writable || counts[i] == 0 || at + counts[i] > MAX_UINT64 then before else before + [Block(at + 1, counts[i])]
  {
    assert counts[..i + 1][..i] == counts[..i];
  }

  lemma SumSnoc(blocks: seq<Block>, b: Block)
    ensures Sum(blocks + [b]) == Sum(blocks) + b.count
  {
    assert (blocks + [b])[..|blocks|] == blocks;
  }

  /** What the committed transactions of a run were given. */
  function Durable(txns: seq<Txn>): seq<Block> {
    if txns == [] then []
    else
      var n := |txns| - 1;
      var before := Durable(txns[..n]);
      if txns[n].commits then before + Granted(Sum(before), txns[n].writable, txns[n].counts) else before
  }

  lemma GrantedStep(base: nat, before: seq<Block>, at: nat, count: nat)
    requires Tiles(base, before, at) && count > 0
    ensures var g := before + [Block(at + 1, count)]; base + Sum(g) == at + count && Tiles(base, g, at + count)
  {
    TilesSnoc(base, before, at, count);
    TilesExact(base, before + [Block(at + 1, count)], at + count, 0);
  }

  lemma {:induction false} GrantedTiles(base: nat, writable: bool, counts: seq<uint64>)
    requires base <= MAX_UINT64
    ensures var g := Granted(base, writable, counts); base + Sum(g) <= MAX_UINT64 && Tiles(base, g, base + Sum(g))
  {
    if counts != [] {
      hide Tiles, Sum;
      var n := |counts| - 1;
      GrantedTiles(base, writable, counts[..n]);
      var before := Granted(base, writable, counts[..n]);
      var at, count := base + Sum(before), counts[n];
      if writable && count > 0 && at + count <= MAX_UINT64 {
        GrantedStep(base, before, at, count);
        assert Granted(base, writable, counts) == before + [Block(at + 1, count)];
      } else {
        assert Granted(base, writable, counts) == before;
      }
    }
  }

  function Total(counts: seq<uint64>): nat {
    if counts == [] then 0 else Total(counts[..|counts| - 1]) + counts[|counts| - 1]
  }

  /** What the committing writable transactions of a run ask for. */
  function Demand(txns: seq<Txn>): nat {
    if txns == [] then 0
    else
      var t := txns[|txns| - 1];
      Demand(txns[..|txns| - 1]) + if t.commits && t.writable then Total(t.counts) else 0
  }

  lemma {:induction false} AllSummed(base: nat, counts: seq<uint64>)
    requires base + Total(counts) <= MAX_UINT64
    ensures Sum(Granted(base, true, counts)) == Total(counts)
  {
    if counts != [] {
      var n := |counts| - 1;
      AllSummed(base, counts[..n]);
      var before := Granted(base, true, counts[..n]);
      SumSnoc(before, Block(base + Sum(before) + 1, counts[n]));
    }
  }

  /** A writable transaction whose counts are positive and all fit is given a block for each,
      right after the ones before. */
  lemma {:induction false} AllGranted(base: nat, counts: seq<uint64>, i: nat)
    requires base + Total(counts) <= MAX_UINT64 && i < |counts|
    requires forall j :: 0 <= j < |counts| ==> counts[j] > 0
    ensures |Granted(base, true, counts)| == |counts|
    ensures Granted(base, true, counts)[i] == Block(base + Total(counts[..i]) + 1, counts[i])
  {
    var n := |counts| - 1;
    var front := counts[..n];
    AllSummed(base, front);
    if n > 0 {
      AllGranted(base, front, if i < n then i else 0);
      assert i < n ==> front[..i] == counts[..i] && front[i] == counts[i];
    }
  }

  /** A transaction that cannot write is given nothing. */
  lemma {:induction false} ReadOnlyGetsNothing(base: nat, counts: seq<uint64>)
    ensures Granted(base, false, counts) == []
  {
    if counts != [] { ReadOnlyGetsNothing(base, counts[..|counts| - 1]); }
  }

  /** A run that asks for no more ids than there are gets them all, and only those that
      commit use any up. */
  lemma {:induction false} DemandIsMet(txns: seq<Txn>)
    requires Demand(txns) <= MAX_UINT64
    ensures Sum(Durable(txns)) == Demand(txns)
  {
    if txns != [] {
      var n := |txns| - 1;
      DemandIsMet(txns[..n]);
      var before, t := Durable(txns[..n]), txns[n];
      if t.commits {
        if t.writable {
          AllSummed(Sum(before), t.counts);
        } else {
          ReadOnlyGetsNothing(Sum(before), t.counts);
        }
        SumConcat(before, Granted(Sum(before), t.writable, t.counts));
      }
    }
  }

  lemma {:induction false} DurableTiles(txns: seq<Txn>)
    ensures var d := Durable(txns); Sum(d) <= MAX_UINT64 && Tiles(0, d, Sum(d))
  {
    if txns != [] {
      var n := |txns| - 1;
      DurableTiles(txns[..n]);
      var before := Durable(txns[..n]);
      if txns[n].commits {
        var g := Granted(Sum(before), txns[n].writable, txns[n].counts);
        GrantedTiles(Sum(before), txns[n].writable, txns[n].counts);
        TilesConcat(0, before, Sum(before), g, Sum(before) + Sum(g));
        TilesExact(0, before + g, Sum(before) + Sum(g), 0);
      }
    }
  }

  /** Over any run, every identifier from one up to the total handed out durably was
      handed out exactly once, and no other one was. */
  lemma EveryIdOnce(txns: seq<Txn>, id: nat)
    ensures Times(Durable(txns), id) == if 0 < id <= Sum(Durable(txns)) then 1 else 0
  {
    DurableTiles(txns);
    TilesExact(0, Durable(txns), Sum(Durable(txns)), id);
  }

  class TableSequence {
    /** What the last committed transaction left, and what the open one sees. */
    var committed: nat
    var current: nat
    var writable: bool

    ghost predicate Valid()
      reads this
    {
      committed <= MAX_UINT64 && current <= MAX_UINT64
    }

    constructor ()
      ensures Valid() && committed == current == 0
    {
      committed, current, writable := 0, 0, false;
    }

    method Begin(write: bool)
      requires Valid()
      modifies this
      ensures Valid() && committed == old(committed) && current == committed && writable == write
    {
      current, writable := committed, write;
    }

    /** The first of `count` new identifiers. Refused, changing nothing: a count of zero,
        a read-only transaction, or a range that would pass the largest uint64. */
    method Reserve(count: uint64) returns (r: Reserved)
      requires Valid()
      modifies this`current
      ensures Valid()
      ensures r.ZeroCount? <==> count == 0
      ensures r.ReadOnly? <==> count > 0 && !writable
      ensures r.Overflow? <==> count > 0 && writable && old(current) + count > MAX_UINT64
      ensures r.First? ==> r.id == old(current) + 1 && current == old(current) + count
      ensures !r.First? ==> current == old(current)
    {
      if count == 0 {
        return ZeroCount;
      }
      if !writable {
        return ReadOnly;
      }
      var previous, overflow := Advance(count);
      if overflow {
        return Overflow;
      }
      if previous == MAX_UINT64 {
        assert false; // "would overflow", once more
      }
      r := First(previous + 1);
    }

    /** mdbx_dbi_sequence: the value before, and whether the increment would wrap. */
    method Advance(increment: uint64) returns (previous: nat, overflow: bool)
      requires Valid()
      modifies this`current
      ensures Valid() && previous == old(current)
      ensures overflow <==> old(current) + increment > MAX_UINT64
      ensures current == if overflow then old(current) else old(current) + increment
    {
      previous, overflow := current, current + increment > MAX_UINT64;
      if !overflow {
        current := current + increment;
      }
    }

    method Finish(commit: bool)
      requires Valid()
      modifies this
      ensures Valid() && writable == old(writable)
      ensures current == committed == if commit && writable then old(current) else old(committed)
    {
      if commit && writable {
        committed := current;
      } else {
        current := committed;
      }
    }

    /** The blocks a transaction is given by asking for each count in turn. */
    method ReserveAll(counts: seq<uint64>) returns (blocks: seq<Block>)
      requires Valid()
      modifies this`current
      ensures Valid()
      ensures blocks == Granted(old(current), writable, counts) && current == old(current) + Sum(blocks)
      ensures !writable ==> current == old(current)
    {
      blocks := [];
      GrantedNone(current, writable, counts);
      hide Granted, Sum;
      for i := 0 to |counts|
        invariant Valid()
        invariant blocks == Granted(old(current), writable, counts[..i])
        invariant current == old(current) + Sum(blocks) && (!writable ==> current == old(current))
      {
        GrantedSnoc(old(current), writable, counts, i);
        var r := Reserve(counts[i]);
        if r.First? {
          SumSnoc(blocks, Block(r.id, counts[i]));
          blocks := blocks + [Block(r.id, counts[i])];
        }
      }
      assert counts[..|counts|] == counts;
    }

    static lemma GrantedNone(base: nat, writable: bool, counts: seq<uint64>)
      ensures Granted(base, writable, counts[..0]) == [] && Sum([]) == 0
    {
    }

    /** One transaction, with the blocks it was given; they last exactly when it commits. */
    method RunTxn(txn: Txn) returns (blocks: seq<Block>)
      requires Valid()
      modifies this
      ensures Valid()
      ensures blocks == Granted(old(committed), txn.writable, txn.counts)
      ensures committed == if txn.commits then old(committed) + Sum(blocks) else old(committed)
    {
      hide Granted, Sum;
      Begin(txn.writable);
      blocks := ReserveAll(txn.counts);
      Finish(txn.commits);
    }
  }

  /** Whatever transactions follow one another, committing or not, on a fresh sequence:
      the blocks given to the committed ones hold every identifier from one up to the
      sequence value exactly once and no other, and that value is the sum of their counts. */
  method RunAll(txns: seq<Txn>) returns (sequence: TableSequence, blocks: seq<Block>)
    ensures fresh(sequence) && sequence.Valid()
    ensures blocks == Durable(txns) && sequence.committed == Sum(blocks)
    ensures Demand(txns) <= MAX_UINT64 ==> sequence.committed == Demand(txns)
    ensures forall id: nat :: Times(blocks, id) == if 0 < id <= sequence.committed then 1 else 0
  {
    sequence := new TableSequence();
    blocks := [];
    for i := 0 to |txns|
      invariant fresh(sequence) && sequence.Valid()
      invariant blocks == Durable(txns[..i]) && sequence.committed == Sum(blocks)
    {
      DurableSnoc(txns, i);
      var given := sequence.RunTxn(txns[i]);
      if txns[i].commits {
        SumConcat(blocks, given);
        blocks := blocks + given;
      }
    }
    assert txns[..|txns|] == txns;
    if Demand(txns) <= MAX_UINT64 { DemandIsMet(txns); }
    forall id: nat ensures Times(blocks, id) == if 0 < id <= sequence.committed then 1 else 0 {
      EveryIdOnce(txns, id);
    }
  }

  lemma DurableSnoc(txns: seq<Txn>, i: nat)
    requires i < |txns|
    ensures var before := Durable(txns[..i]);
            Durable(txns[..i + 1]) ==
            if txns[i].commits then before + Granted(Sum(before), txns[i].writable, txns[i].counts) else before
  {
    assert txns[..i + 1][..i] == txns[..i];
  }
}
