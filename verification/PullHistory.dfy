/** The pull handshake told from what has happened: the log is what was committed, the
    replica is what was pulled, and a reader that keeps exchanging gets all of it. */
module PullHistory {
  import opened PullWires

  // ---------------------------------------------------------------- histories

  /** The batches of a list of responses, one after the other. */
  function Batches<B>(responses: seq<Consumed<B>>): seq<B> {
    if responses == [] then []
    else Batches(responses[..|responses| - 1]) + responses[|responses| - 1].response.batches
  }

  lemma BatchesSnoc<B>(responses: seq<Consumed<B>>, c: Consumed<B>)
    ensures Batches<B>([]) == [] && Batches(responses + [c]) == Batches(responses) + c.response.batches
  {
    assert (responses + [c])[..|responses|] == responses;
  }

  function Committed<B>(actions: seq<Action<B>>): seq<B> {
    if actions == [] then []
    else
      var a := actions[|actions| - 1];
      Committed(actions[..|actions| - 1]) + if a.Commit? then [a.batch] else []
  }

  lemma CommittedSnoc<B>(actions: seq<Action<B>>, a: Action<B>)
    ensures Committed<B>([]) == [] && Committed(actions + [a]) == Committed(actions) + if a.Commit? then [a.batch] else []
  {
    assert (actions + [a])[..|actions|] == actions;
  }

  lemma RunStep<B>(handle: Handler<B>, expected: nat, states: seq<State<B>>, actions: seq<Action<B>>, n: nat)
    requires IsRun(handle, expected, states, actions) && n < |actions|
    ensures |states| == |actions| + 1
    ensures Enabled(expected, states[n], actions[n]) && states[n + 1] == After(handle, expected, states[n], actions[n])
  {
  }

  /** The log is the batches committed, in order. */
  lemma {:induction false} LogIsCommitted<B>(
    handle: Handler<B>, expected: nat, states: seq<State<B>>, actions: seq<Action<B>>, n: nat)
    requires IsRun(handle, expected, states, actions) && n < |states|
    ensures states[n].log == Committed(actions[..n])
  {
    if n > 0 {
      LogIsCommitted(handle, expected, states, actions, n - 1);
      assert Enabled(expected, states[n - 1], actions[n - 1]);
      assert actions[..n] == actions[..n - 1] + [actions[n - 1]];
      CommittedSnoc(actions[..n - 1], actions[n - 1]);
    }
  }

  ghost predicate Finished<B>(actions: seq<Action<B>>, n: nat)
    requires n <= |actions|
  {
    exists i :: 0 <= i < n && (actions[i].FinishWriting? || actions[i].WriterFail?)
  }

  ghost predicate Stopped<B>(actions: seq<Action<B>>, n: nat)
    requires n <= |actions|
  {
    exists i :: 0 <= i < n && (actions[i].WriterFail? || actions[i].ReaderFail? || actions[i].MainStop?)
  }

  lemma RaisedStep<B>(actions: seq<Action<B>>, n: nat)
    requires n < |actions|
    ensures Finished(actions, n + 1) <==> Finished(actions, n) || actions[n].FinishWriting? || actions[n].WriterFail?
    ensures Stopped(actions, n + 1) <==>
            Stopped(actions, n) || actions[n].WriterFail? || actions[n].ReaderFail? || actions[n].MainStop?
  {
  }

  lemma {:induction false} RunFlags<B>(
    handle: Handler<B>, expected: nat, states: seq<State<B>>, actions: seq<Action<B>>, n: nat)
    requires IsRun(handle, expected, states, actions) && n < |states| == |actions| + 1
    ensures states[n].wire.writerDone <==> Finished(actions, n)
    ensures states[n].wire.stopRequested <==> Stopped(actions, n)
  {
    if n > 0 {
      RunStep(handle, expected, states, actions, n - 1);
      RaisedStep(actions, n - 1);
      hide IsRun, After, Enabled, Finished, Stopped;
      RunFlags(handle, expected, states, actions, n - 1);
      FlagStep(handle, expected, states[n - 1], actions[n - 1]);
    }
  }

  /** The writer is done exactly once it has finished or failed, and a stop is asked for
      exactly once the writer or the reader has failed or main has asked. */
  lemma FlagsAreRaised<B>(
    handle: Handler<B>, expected: nat, states: seq<State<B>>, actions: seq<Action<B>>, n: nat)
    requires IsRun(handle, expected, states, actions) && n < |states|
    ensures states[n].wire.writerDone <==>
            exists i :: 0 <= i < n && (actions[i].FinishWriting? || actions[i].WriterFail?)
    ensures states[n].wire.stopRequested <==>
            exists i :: 0 <= i < n && (actions[i].WriterFail? || actions[i].ReaderFail? || actions[i].MainStop?)
  {
    RunFlags(handle, expected, states, actions, n);
  }

  /** A writer that is done writes nothing more. */
  lemma {:induction false} DoneIsFinal<B>(
    handle: Handler<B>, expected: nat, states: seq<State<B>>, actions: seq<Action<B>>, n: nat, m: nat)
    requires IsRun(handle, expected, states, actions) && n <= m < |states| && states[n].wire.writerDone
    ensures states[m].wire.writerDone && states[m].log == states[n].log
  {
    if n < m {
      var s, a, t := states[m - 1], actions[m - 1], states[m];
      RunStep(handle, expected, states, actions, m - 1);
      DoneIsFinal(handle, expected, states, actions, n, m - 1);
      DoneStep(handle, expected, s, a, t);
      hide IsRun, After, Enabled;
    }
  }

  lemma DoneStep<B>(handle: Handler<B>, expected: nat, s: State<B>, a: Action<B>, t: State<B>)
    requires Enabled(expected, s, a) && t == After(handle, expected, s, a) && s.wire.writerDone
    ensures t.wire.writerDone && t.log == s.log
  {
  }

  lemma FlagStep<B>(handle: Handler<B>, expected: nat, s: State<B>, a: Action<B>)
    requires Enabled(expected, s, a)
    ensures var t := After(handle, expected, s, a);
            && (t.wire.writerDone <==> s.wire.writerDone || a.FinishWriting? || a.WriterFail?)
            && (t.wire.stopRequested <==> s.wire.stopRequested || a.WriterFail? || a.ReaderFail? || a.MainStop?)
  {
  }

  /** `failed` says that the reader failed applying a response. */
  ghost predicate Pulled<B>(s: State<B>, failed: bool) {
    && (failed ==> s.reader.ReaderEnded?)
    && (s.reader.Applying? || failed ==> s.consumed != [])
    && s.replica == Batches(if s.reader.Applying? || failed then s.consumed[..|s.consumed| - 1] else s.consumed)
    && (s.reader.Applying? ==> s.reader.received == s.consumed[|s.consumed| - 1].response)
  }

  lemma StepPulled<B>(handle: Handler<B>, expected: nat, s: State<B>, a: Action<B>, failed: bool)
    requires Enabled(expected, s, a) && Pulled(s, failed)
    ensures Pulled(After(handle, expected, s, a), failed || (a.ReaderFail? && s.reader.Applying?))
  {
    var t := After(handle, expected, s, a);
    if a.Consume? {
      assert t.consumed[..|t.consumed| - 1] == s.consumed;
    } else if a.Apply? {
      var c := s.consumed;
      assert c == c[..|c| - 1] + [c[|c| - 1]];
      BatchesSnoc(c[..|c| - 1], c[|c| - 1]);
    }
  }

  ghost predicate FailedApplying<B>(states: seq<State<B>>, actions: seq<Action<B>>, n: nat)
    requires n <= |actions| && n <= |states|
  {
    exists i :: 0 <= i < n && actions[i].ReaderFail? && states[i].reader.Applying?
  }

  lemma FailedStep<B>(states: seq<State<B>>, actions: seq<Action<B>>, n: nat)
    requires n < |actions| && n < |states|
    ensures FailedApplying(states, actions, n + 1) <==>
            FailedApplying(states, actions, n) || (actions[n].ReaderFail? && states[n].reader.Applying?)
  {
  }

  lemma {:induction false} RunPulled<B>(
    handle: Handler<B>, expected: nat, states: seq<State<B>>, actions: seq<Action<B>>, n: nat)
    requires IsRun(handle, expected, states, actions) && n < |states| == |actions| + 1
    ensures Pulled(states[n], FailedApplying(states, actions, n))
  {
    if n > 0 {
      RunStep(handle, expected, states, actions, n - 1);
      FailedStep(states, actions, n - 1);
      hide IsRun, Enabled, After, Pulled, FailedApplying;
      RunPulled(handle, expected, states, actions, n - 1);
      StepPulled(handle, expected, states[n - 1], actions[n - 1], FailedApplying(states, actions, n - 1));
    }
  }

  /** The replica is the batches of all responses consumed, in order, without the last one
      while the reader is still applying it or when it failed there. */
  lemma ReplicaIsPulled<B>(
    handle: Handler<B>, expected: nat, states: seq<State<B>>, actions: seq<Action<B>>, n: nat)
    requires IsRun(handle, expected, states, actions) && n < |states|
    ensures var s := states[n];
            if s.reader.Applying? || (exists i :: 0 <= i < n && actions[i].ReaderFail? && states[i].reader.Applying?)
            then s.consumed != [] && s.replica == Batches(s.consumed[..|s.consumed| - 1])
            else s.replica == Batches(s.consumed)
  {
    RunPulled(handle, expected, states, actions, n);
  }

  // ---------------------------------------------------------------- progress

  /** A pull that says yes and gives a batch to anybody behind who asks for some. */
  ghost predicate Helpful<B(!new)>(handle: Handler<B>) {
    forall q: Request, log: seq<B> {:trigger handle(q, log)} :: q.have <= |log| ==>
      handle(q, log).ok && (q.have < |log| && q.maxBatches > 0 ==> handle(q, log).batches != [])
  }

  /** Where the reader stood when it asked: at the batches of the responses before. */
  ghost predicate Asked<B>(s: State<B>) {
    && |s.consumed| <= |s.published| <= |s.consumed| + 1
    && forall i :: 0 <= i < |s.published| ==>
         s.published[i].request.have == |Batches(s.consumed[..i])| <= s.published[i].logLength
  }

  lemma StepAsked<B>(handle: Handler<B>, expected: nat, s: State<B>, a: Action<B>, failed: bool)
    requires Phases(s) && Asked(s) && Pulled(s, failed) && s.replica <= s.log && Enabled(expected, s, a)
    ensures Asked(After(handle, expected, s, a))
  {
    hide Batches;
    var t := After(handle, expected, s, a);
    StepPhases(handle, expected, s, a);
    forall i | 0 <= i < |t.published|
      ensures t.published[i].request.have == |Batches(t.consumed[..i])| <= t.published[i].logLength
    {
      assert s.consumed[..|s.consumed|] == s.consumed;
      assert t.consumed[..i] == s.consumed[..i];
    }
  }

  /** What StepAsked needs of the state before. */
  lemma Facts<B(!new)>(handle: Handler<B>, expected: nat, states: seq<State<B>>, actions: seq<Action<B>>, n: nat)
    returns (failed: bool)
    requires Incremental(handle) && IsRun(handle, expected, states, actions) && n < |states|
    ensures Phases(states[n]) && AllMatched(handle, states[n]) && Pulled(states[n], failed)
    ensures states[n].replica <= states[n].log && |states[n].log| <= expected
  {
    assert |states| == |actions| + 1;
    hide IsRun, Phases, AllMatched, InFlight, Pulled, Incremental;
    RunPulled(handle, expected, states, actions, n);
    RunInv(handle, expected, states, actions, n);
    RunReplicating(handle, expected, states, actions, n);
    failed := FailedApplying(states, actions, n);
  }

  lemma {:induction false} RunAsked<B(!new)>(
    handle: Handler<B>, expected: nat, states: seq<State<B>>, actions: seq<Action<B>>, n: nat)
    requires Incremental(handle) && IsRun(handle, expected, states, actions) && n < |states|
    ensures Asked(states[n])
  {
    if n > 0 {
      RunStep(handle, expected, states, actions, n - 1);
      hide IsRun, Enabled, After, Pulled, Asked, Incremental, AllMatched, Phases;
      RunAsked(handle, expected, states, actions, n - 1);
      var failed := Facts(handle, expected, states, actions, n - 1);
      StepAsked(handle, expected, states[n - 1], actions[n - 1], failed);
    }
  }

  /** A request published later was published on a log at least as long. */
  lemma {:induction false} AskedLater<B>(
    handle: Handler<B>, expected: nat, states: seq<State<B>>, actions: seq<Action<B>>, n: nat, m: nat)
    requires IsRun(handle, expected, states, actions) && n <= m < |states|
    ensures states[n].published <= states[m].published && states[n].log <= states[m].log
    ensures forall i :: |states[n].published| <= i < |states[m].published| ==>
              |states[n].log| <= states[m].published[i].logLength
  {
    if n < m {
      RunStep(handle, expected, states, actions, m - 1);
      hide IsRun, After, Enabled;
      AskedLater(handle, expected, states, actions, n, m - 1);
      LogStep(handle, expected, states[m - 1], actions[m - 1]);
    }
  }

  lemma LogStep<B>(handle: Handler<B>, expected: nat, s: State<B>, a: Action<B>)
    requires Enabled(expected, s, a)
    ensures var t := After(handle, expected, s, a);
            && s.log <= t.log && s.published <= t.published
            && forall i :: |s.published| <= i < |t.published| ==> t.published[i].logLength == |s.log|
  {
  }

  /** An exchange the reader began behind the log makes the replica longer. */
  lemma ExchangeAdds<B(!new)>(handle: Handler<B>, s: State<B>, i: nat)
    requires Helpful(handle) && Asked(s) && AllMatched(handle, s) && i < |s.consumed|
    requires s.published[i].request.maxBatches > 0
    ensures |Batches(s.consumed[..i + 1])| >= |Batches(s.consumed[..i])|
    ensures |Batches(s.consumed[..i])| < s.published[i].logLength ==>
              |Batches(s.consumed[..i + 1])| > |Batches(s.consumed[..i])|
  {
    var p, c := s.published[i], s.consumed[i];
    assert Matched(handle, p, c, s.log);
    assert s.consumed[..i + 1] == s.consumed[..i] + [c];
    BatchesSnoc(s.consumed[..i], c);
    var seen := s.log[..c.evaluatedAt];
    assert c.response == handle(p.request, seen) && |seen| >= p.logLength;
  }

  lemma {:induction false} Climbs<B(!new)>(handle: Handler<B>, expected: nat, s: State<B>, from: nat, i: nat)
    requires Helpful(handle) && Asked(s) && AllMatched(handle, s) && from <= i <= |s.consumed|
    requires forall j :: from <= j < |s.published| ==> expected <= s.published[j].logLength
    requires forall j :: from <= j < |s.published| ==> s.published[j].request.maxBatches > 0
    ensures |Batches(s.consumed[..i])| >= expected || |Batches(s.consumed[..i])| >= i - from
  {
    hide Helpful, Batches, Matched;
    if from < i {
      Climbs(handle, expected, s, from, i - 1);
      ExchangeAdds(handle, s, i - 1);
      assert expected <= s.published[i - 1].logLength;
    }
  }

  lemma AllPulled<B(!new)>(handle: Handler<B>, expected: nat, s: State<B>, failed: bool, from: nat)
    requires Helpful(handle) && Asked(s) && AllMatched(handle, s) && Pulled(s, failed)
    requires s.replica <= s.log && |s.log| <= expected && |s.consumed| > from + expected
    requires forall j :: from <= j < |s.published| ==> expected <= s.published[j].logLength
    requires forall j :: from <= j < |s.published| ==> s.published[j].request.maxBatches > 0
    ensures s.replica == s.log && |s.log| == expected
  {
    hide Helpful, Batches, AllMatched, Asked;
    Climbs(handle, expected, s, from, |s.consumed| - 1);
    Climbs(handle, expected, s, from, |s.consumed|);
    assert s.consumed[..|s.consumed|] == s.consumed;
    WholePrefix(s.replica, s.log, expected);
  }

  /** With a helpful handler a reader that keeps exchanging gets everything: once the whole
      log is written, as many exchanges begun after that as there are batches, and one more
      on its way, leave the replica equal to the log. */
  lemma ReaderCatchesUp<B(!new)>(
    handle: Handler<B>, expected: nat, states: seq<State<B>>, actions: seq<Action<B>>, n: nat, m: nat)
    requires Incremental(handle) && Helpful(handle) && IsRun(handle, expected, states, actions) && n <= m < |states|
    requires |states[n].log| == expected
    requires forall i :: 0 <= i < |states[m].published| ==> states[m].published[i].request.maxBatches > 0
    requires |states[m].consumed| > |states[n].published| + expected
    ensures states[m].replica == states[m].log && |states[m].log| == expected
  {
    hide IsRun, Pulled, Asked, Incremental, Helpful, AllMatched, Phases;
    RunAsked(handle, expected, states, actions, m);
    var failed := Facts(handle, expected, states, actions, m);
    AskedLater(handle, expected, states, actions, n, m);
    AllPulled(handle, expected, states[m], failed, |states[n].published|);
  }

  lemma WholePrefix<B>(a: seq<B>, b: seq<B>, n: nat)
    ensures a <= b && |b| <= n <= |a| ==> a == b && |b| == n
  {
  }

  // ---------------------------------------------------------------- a whole replication

  /** Between two exchanges, with nobody asking to stop. */
  predicate Resting<B>(s: State<B>) {
    && s.writer.Idle? && s.reader.Preparing?
    && !s.wire.requestReady && !s.wire.responseReady && !s.wire.stopRequested
  }

  lemma {:induction false} Commits<B>(handle: Handler<B>, batches: seq<B>, k: nat)
    returns (states: seq<State<B>>, actions: seq<Action<B>>)
    requires k <= |batches|
    ensures IsRun(handle, |batches|, states, actions)
    ensures var s := states[|actions|]; Resting(s) && s.log == batches[..k] && s.replica == [] && !s.wire.writerDone
  {
    if k == 0 {
      var wire := Wire(false, false, false, false, Request(0, 0), Response(false, [], false));
      states, actions := [State(wire, Idle, Preparing, [], [], [], [], 0)], [];
    } else {
      states, actions := Commits(handle, batches, k - 1);
      states, actions := RunSnoc(handle, |batches|, states, actions, Commit(batches[k - 1]));
      assert batches[..k] == batches[..k - 1] + [batches[k - 1]];
    }
  }

  /** One exchange of six steps adds what the handler has for the reader. */
  lemma Exchange<B>(handle: Handler<B>, expected: nat, states: seq<State<B>>, actions: seq<Action<B>>, maxBatches: nat)
    returns (states': seq<State<B>>, actions': seq<Action<B>>)
    requires IsRun(handle, expected, states, actions) && Resting(states[|actions|])
    requires var s := states[|actions|]; handle(Request(|s.replica|, maxBatches), s.log).ok
    ensures IsRun(handle, expected, states', actions')
    ensures var s, t := states[|actions|], states'[|actions'|];
            && Resting(t) && t.log == s.log && t.wire.writerDone == s.wire.writerDone && t.consumed != []
            && t.replica == s.replica + handle(Request(|s.replica|, maxBatches), s.log).batches
  {
    hide IsRun;
    states', actions' := RunSnoc(handle, expected, states, actions, Publish(maxBatches));
    states', actions' := RunSnoc(handle, expected, states', actions', Take);
    states', actions' := RunSnoc(handle, expected, states', actions', Handle);
    states', actions' := RunSnoc(handle, expected, states', actions', Reply);
    states', actions' := RunSnoc(handle, expected, states', actions', Consume);
    states', actions' := RunSnoc(handle, expected, states', actions', Apply);
  }

  lemma {:induction false} Exchanges<B(!new)>(
    handle: Handler<B>, expected: nat, states: seq<State<B>>, actions: seq<Action<B>>, maxBatches: nat)
    returns (states': seq<State<B>>, actions': seq<Action<B>>)
    requires Incremental(handle) && Helpful(handle) && maxBatches > 0
    requires IsRun(handle, expected, states, actions) && Resting(states[|actions|])
    ensures IsRun(handle, expected, states', actions')
    ensures var s, t := states[|actions|], states'[|actions'|];
            Resting(t) && t.log == s.log == t.replica && t.wire.writerDone == s.wire.writerDone && t.consumed != []
    decreases |states[|actions|].log| - |states[|actions|].replica|
  {
    var s := states[|actions|];
    ReplicaFollows(handle, expected, states, actions, |actions|);
    var r := handle(Request(|s.replica|, maxBatches), s.log);
    states', actions' := Exchange(handle, expected, states, actions, maxBatches);
    ReplicaFollows(handle, expected, states', actions', |actions'|);
    hide IsRun, Incremental, Helpful;
    if states'[|actions'|].replica != s.log {
      states', actions' := Exchanges(handle, expected, states', actions', maxBatches);
    }
  }

  /** Whatever the writer is to write, there is a run that writes it, hands it over in pages
      of any positive size and ends with the reader holding all of it. */
  lemma EveryLogIsReplicated<B(!new)>(handle: Handler<B>, batches: seq<B>, maxBatches: nat)
    returns (states: seq<State<B>>, actions: seq<Action<B>>)
    requires Incremental(handle) && Helpful(handle) && maxBatches > 0
    ensures IsRun(handle, |batches|, states, actions)
    ensures var s := states[|actions|];
            s.reader == ReaderEnded(true) && s.wire.writerDone && s.log == s.replica == batches
  {
    states, actions := Commits(handle, batches, |batches|);
    assert batches[..|batches|] == batches;
    hide IsRun, Incremental, Helpful;
    states, actions := RunSnoc(handle, |batches|, states, actions, FinishWriting);
    states, actions := Exchanges(handle, |batches|, states, actions, maxBatches);
    states, actions := RunSnoc(handle, |batches|, states, actions, ReaderQuit);
  }
}
