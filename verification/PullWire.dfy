/** The two-thread pull handshake of the threaded transport example: a writer that
    commits batches and serves pulls, a reader that publishes requests, consumes
    responses and applies their batches, and the shared wire between them. Every
    action is one critical section or one piece of thread-local work. `handle` stands
    for SyncEngine::handle_pull on the writer's log, and `expected` for the number of
    batches the writer is to produce. */
module PullWires {

  /** The reader's applied cursor for the one writer, and the page size it asks for. */
  datatype Request = Request(have: nat, maxBatches: nat)

  datatype Response<B> = Response(ok: bool, batches: seq<B>, hasMore: bool)

  datatype Wire<B> = Wire(
    requestReady: bool, responseReady: bool, writerDone: bool, stopRequested: bool,
    request: Request, response: Response<B>)

  datatype Writer<B> = Idle | Serving(request: Request) | Replying(response: Response<B>) | WriterEnded

  datatype Reader<B> = Preparing | Waiting(request: Request) | Applying(received: Response<B>) | ReaderEnded(replicated: bool)

  /** A request as it was published: with the writer's log length at that time. */
  datatype Published = Published(request: Request, logLength: nat)

  /** A response as it was consumed: the log length it was computed on and the one at
      consumption. */
  datatype Consumed<B> = Consumed(response: Response<B>, evaluatedAt: nat, consumedAt: nat)

  /** The wire, both threads, the writer's log, the reader's replica, and the history. */
  datatype State<B> = State(
    wire: Wire<B>, writer: Writer<B>, reader: Reader<B>, log: seq<B>, replica: seq<B>,
    published: seq<Published>, consumed: seq<Consumed<B>>, evaluatedAt: nat)

  datatype Action<B> =
    | Commit(batch: B)
    | Take
    | Handle
    | Reply
    | FinishWriting
    | WriterExit
    | WriterFail
    | Publish(maxBatches: nat)
    | Consume
    | Apply
    | ReaderQuit
    | ReaderFail
    | MainStop

  type Handler<!B> = (Request, seq<B>) -> Response<B>

  predicate Init<B>(s: State<B>) {
    && !s.wire.requestReady && !s.wire.responseReady && !s.wire.writerDone && !s.wire.stopRequested
    && s.writer.Idle? && s.reader.Preparing? && |s.log| == |s.replica| == |s.published| == |s.consumed| == 0
  }

  /** When the thread may take the step: its position and what it waits for. */
  predicate Enabled<B>(expected: nat, s: State<B>, a: Action<B>) {
    match a
    case Commit(_) => s.writer.Idle? && !s.wire.writerDone && |s.log| < expected
    case Take => s.writer.Idle? && s.wire.requestReady && !s.wire.stopRequested
    case Handle => s.writer.Serving?
    case Reply => s.writer.Replying?
    case FinishWriting => s.writer.Idle? && !s.wire.writerDone
    case WriterExit => s.writer.Idle? && s.wire.writerDone && s.wire.stopRequested
    case WriterFail => !s.writer.WriterEnded?
    case Publish(_) =>
      s.reader.Preparing? && !s.wire.requestReady && !s.wire.responseReady && !s.wire.stopRequested
    case Consume => s.reader.Waiting? && s.wire.responseReady
    case Apply => s.reader.Applying? && s.reader.received.ok
    case ReaderQuit => s.reader.Preparing? && s.consumed != [] && s.wire.writerDone && expected <= |s.replica|
    case ReaderFail =>
      !s.reader.ReaderEnded? && (s.reader.Waiting? ==> s.wire.stopRequested && !s.wire.responseReady)
    case MainStop => s.reader.ReaderEnded?
  }

  function After<B>(handle: Handler<B>, expected: nat, s: State<B>, a: Action<B>): State<B>
    requires Enabled(expected, s, a)
  {
    match a
    case Commit(b) => s.(log := s.log + [b])
    case Take => s.(wire := s.wire.(requestReady := false), writer := Serving(s.wire.request))
    case Handle => s.(writer := Replying(handle(s.writer.request, s.log)), evaluatedAt := |s.log|)
    case Reply => s.(wire := s.wire.(response := s.writer.response, responseReady := true), writer := Idle)
    case FinishWriting => s.(wire := s.wire.(writerDone := true))
    case WriterExit => s.(writer := WriterEnded)
    case WriterFail => s.(wire := s.wire.(writerDone := true, stopRequested := true), writer := WriterEnded)
    case Publish(n) =>
      var q := Request(|s.replica|, n);
      s.(wire := s.wire.(request := q, requestReady := true), reader := Waiting(q),
         published := s.published + [Published(q, |s.log|)])
    case Consume =>
      s.(wire := s.wire.(responseReady := false), reader := Applying(s.wire.response),
         consumed := s.consumed + [Consumed(s.wire.response, s.evaluatedAt, |s.log|)])
    case Apply => s.(reader := Preparing, replica := s.replica + s.reader.received.batches)
    case ReaderQuit => s.(reader := ReaderEnded(true))
    case ReaderFail => s.(wire := s.wire.(stopRequested := true), reader := ReaderEnded(false))
    case MainStop => s.(wire := s.wire.(stopRequested := true))
  }

  // ---------------------------------------------------------------- the invariant

  /** In how many places the current request is: pending, in service, answered. */
  function Places<B>(s: State<B>): nat {
    (if s.wire.requestReady then 1 else 0) + (if s.writer.Serving? || s.writer.Replying? then 1 else 0)
    + (if s.wire.responseReady then 1 else 0)
  }

  /** The response was computed from `p`'s request on a log between publication and now. */
  ghost predicate Answers<B>(handle: Handler<B>, r: Response<B>, p: Published, at: nat, log: seq<B>) {
    p.logLength <= at <= |log| && r == handle(p.request, log[..at])
  }

  /** The response answers the request, on a log between publication and consumption. */
  ghost predicate Matched<B>(handle: Handler<B>, p: Published, c: Consumed<B>, log: seq<B>) {
    c.evaluatedAt <= c.consumedAt <= |log| && Answers(handle, c.response, p, c.evaluatedAt, log)
  }

  /** The i-th response consumed answers the i-th request published. */
  ghost predicate AllMatched<B>(handle: Handler<B>, s: State<B>) {
    && |s.consumed| <= |s.published|
    && forall i :: 0 <= i < |s.consumed| ==> Matched(handle, s.published[i], s.consumed[i], s.log)
  }

  /** What is on the wire or in service belongs to the last published request. */
  ghost predicate InFlight<B>(handle: Handler<B>, s: State<B>) {
    s.published != [] ==>
      var p := s.published[|s.published| - 1];
      && p.logLength <= |s.log|
      && (s.wire.requestReady ==> s.wire.request == p.request)
      && (s.writer.Serving? ==> s.writer.request == p.request)
      && (s.writer.Replying? ==> Answers(handle, s.writer.response, p, s.evaluatedAt, s.log))
      && (s.wire.responseReady ==> Answers(handle, s.wire.response, p, s.evaluatedAt, s.log))
  }

  /** Who waits for what. */
  predicate Phases<B>(s: State<B>) {
    && Places(s) <= 1
    && |s.consumed| <= |s.published| <= |s.consumed| + 1
    && (s.reader.Preparing? || s.reader.Applying? ==> Places(s) == 0 && |s.published| == |s.consumed|)
    && (s.reader.Waiting? ==> |s.published| == |s.consumed| + 1
                              && s.published[|s.consumed|].request == s.reader.request)
    && (s.reader.Waiting? && !s.wire.stopRequested ==> Places(s) == 1)
    && (Places(s) == 1 ==> |s.published| == |s.consumed| + 1)
    && (s.writer.WriterEnded? ==> s.wire.stopRequested && s.wire.writerDone)
  }

  ghost predicate Inv<B>(handle: Handler<B>, s: State<B>) {
    Phases(s) && InFlight(handle, s) && AllMatched(handle, s)
  }

  lemma AnswersStay<B>(handle: Handler<B>, r: Response<B>, p: Published, at: nat, log: seq<B>, log': seq<B>)
    requires Answers(handle, r, p, at, log) && log <= log'
    ensures Answers(handle, r, p, at, log')
  {
    assert log'[..at] == log[..at];
  }

  lemma StepPhases<B>(handle: Handler<B>, expected: nat, s: State<B>, a: Action<B>)
    requires Phases(s) && Enabled(expected, s, a)
    ensures var t := After(handle, expected, s, a);
            Phases(t) && s.consumed <= t.consumed && s.published <= t.published && s.log <= t.log
  {
  }

  lemma StepInFlight<B>(handle: Handler<B>, expected: nat, s: State<B>, a: Action<B>)
    requires Inv(handle, s) && Enabled(expected, s, a)
    ensures InFlight(handle, After(handle, expected, s, a))
  {
    hide AllMatched;
    var t := After(handle, expected, s, a);
    if a.Commit? && s.wire.responseReady {
      AnswersStay(handle, s.wire.response, s.published[|s.published| - 1], s.evaluatedAt, s.log, t.log);
    }
    assert s.log[..|s.log|] == s.log;
  }

  lemma StepAllMatched<B>(handle: Handler<B>, expected: nat, s: State<B>, a: Action<B>)
    requires Inv(handle, s) && Enabled(expected, s, a)
    ensures AllMatched(handle, After(handle, expected, s, a))
  {
    var t := After(handle, expected, s, a);
    StepPhases(handle, expected, s, a);
    forall i | 0 <= i < |t.consumed| ensures Matched(handle, t.published[i], t.consumed[i], t.log) {
      if i < |s.consumed| {
        assert Matched(handle, s.published[i], s.consumed[i], s.log);
        AnswersStay(handle, s.consumed[i].response, s.published[i], s.consumed[i].evaluatedAt, s.log, t.log);
      }
    }
  }

  lemma StepInv<B>(handle: Handler<B>, expected: nat, s: State<B>, a: Action<B>)
    requires Inv(handle, s) && Enabled(expected, s, a)
    ensures Inv(handle, After(handle, expected, s, a))
  {
    hide AllMatched, InFlight, After;
    StepPhases(handle, expected, s, a);
    StepInFlight(handle, expected, s, a);
    StepAllMatched(handle, expected, s, a);
  }

  // ---------------------------------------------------------------- every interleaving

  /** A run: any interleaving of the threads' actions from the initial state. */
  ghost predicate IsRun<B>(handle: Handler<B>, expected: nat, states: seq<State<B>>, actions: seq<Action<B>>) {
    && |states| == |actions| + 1
    && Init(states[0])
    && forall i :: 0 <= i < |actions| ==>
         Enabled(expected, states[i], actions[i]) && states[i + 1] == After(handle, expected, states[i], actions[i])
  }

  lemma RunSnoc<B>(handle: Handler<B>, expected: nat, states: seq<State<B>>, actions: seq<Action<B>>, a: Action<B>)
    returns (states': seq<State<B>>, actions': seq<Action<B>>)
    requires IsRun(handle, expected, states, actions) && Enabled(expected, states[|actions|], a)
    ensures IsRun(handle, expected, states', actions')
    ensures states'[|actions'|] == After(handle, expected, states[|actions|], a)
  {
    hide Init, Enabled, After;
    states', actions' := states + [After(handle, expected, states[|actions|], a)], actions + [a];
  }

  lemma {:induction false} RunInv<B>(handle: Handler<B>, expected: nat, states: seq<State<B>>, actions: seq<Action<B>>, n: nat)
    requires IsRun(handle, expected, states, actions) && n < |states|
    ensures Inv(handle, states[n])
  {
    if n > 0 {
      hide Inv, Enabled, After, Init;
      RunInv(handle, expected, states, actions, n - 1);
      StepInv(handle, expected, states[n - 1], actions[n - 1]);
    }
  }

  /** In every state of every run: the request is in at most one place, the reader has
      consumed as many responses as it has published requests or one fewer, and each
      response is handle_pull of the request of the same number, evaluated on a log
      between the one at publication and the one at consumption. */
  lemma HandshakeSafe<B>(handle: Handler<B>, expected: nat, states: seq<State<B>>, actions: seq<Action<B>>, n: nat)
    requires IsRun(handle, expected, states, actions) && n < |states|
    ensures var s := states[n];
            && Places(s) <= 1
            && |s.consumed| <= |s.published| <= |s.consumed| + 1
            && forall i :: 0 <= i < |s.consumed| ==>
                 var c, p := s.consumed[i], s.published[i];
                 && p.logLength <= c.evaluatedAt <= c.consumedAt <= |s.log|
                 && c.response == handle(p.request, s.log[..c.evaluatedAt])
  {
    hide After, Enabled, InFlight;
    RunInv(handle, expected, states, actions, n);
    var s := states[n];
    forall i | 0 <= i < |s.consumed|
      ensures var c, p := s.consumed[i], s.published[i];
              && p.logLength <= c.evaluatedAt <= c.consumedAt <= |s.log|
              && c.response == handle(p.request, s.log[..c.evaluatedAt])
    {
      assert Matched(handle, s.published[i], s.consumed[i], s.log);
    }
  }

  /** No request is lost and the handshake never jams: as long as nobody has asked to
      stop, the reader can publish, apply or give up on a refused response, or one of
      take, handle, reply and consume can go on. */
  lemma NeverJams<B>(handle: Handler<B>, expected: nat, states: seq<State<B>>, actions: seq<Action<B>>, n: nat, maxBatches: nat)
    requires IsRun(handle, expected, states, actions) && n < |states|
    requires !states[n].wire.stopRequested
    ensures var s := states[n];
            match s.reader
            case Preparing => Enabled(expected, s, Publish(maxBatches))
            case Waiting(_) =>
              Enabled(expected, s, Take) || Enabled(expected, s, Handle) || Enabled(expected, s, Reply)
              || Enabled(expected, s, Consume)
            case Applying(r) => Enabled(expected, s, if r.ok then Apply else ReaderFail)
            case ReaderEnded(_) => Enabled(expected, s, MainStop)
  {
    hide After, AllMatched, InFlight;
    RunInv(handle, expected, states, actions, n);
  }

  // ---------------------------------------------------------------- every request is answered

  /** The steps that bring a published request to its answer. */
  predicate Serves<B>(a: Action<B>) {
    a.Take? || a.Handle? || a.Reply? || a.Consume?
  }

  /** How many of them are left. */
  function Distance<B>(s: State<B>): nat {
    if s.wire.requestReady then 4
    else if s.writer.Serving? then 3
    else if s.writer.Replying? then 2
    else if s.wire.responseReady then 1
    else 0
  }

  /** How many of them a stretch of a run takes. */
  function ServingSteps<B>(actions: seq<Action<B>>, from: nat, to: nat): nat
    requires from <= to <= |actions|
  {
    if from == to then 0 else ServingSteps(actions, from, to - 1) + if Serves(actions[to - 1]) then 1 else 0
  }

  /** While the reader waits, a serving step brings the answer one step nearer, and no
      other step takes it back. */
  ghost predicate Onward<B>(s: State<B>, a: Action<B>, t: State<B>) {
    && (s.wire.stopRequested ==> t.wire.stopRequested)
    && |s.consumed| <= |t.consumed|
    && (s.reader.Waiting? && !t.wire.stopRequested ==>
          && 1 <= Distance(s) <= 4
          && if a.Consume? then |t.consumed| == |s.consumed| + 1
             else t.reader == s.reader && Distance(t) == Distance(s) - if Serves(a) then 1 else 0)
  }

  lemma StepOnward<B>(handle: Handler<B>, expected: nat, s: State<B>, a: Action<B>)
    requires Inv(handle, s) && Enabled(expected, s, a)
    ensures Onward(s, a, After(handle, expected, s, a))
  {
    hide InFlight, AllMatched;
  }

  lemma {:induction false} Nearer<B>(handle: Handler<B>, expected: nat, states: seq<State<B>>, actions: seq<Action<B>>,
                                     n: nat, m: nat)
    requires IsRun(handle, expected, states, actions) && n <= m < |states|
    requires states[n].reader.Waiting? && !states[m].wire.stopRequested
    ensures |states[n].consumed| <= |states[m].consumed|
    ensures |states[m].consumed| == |states[n].consumed| ==>
              && states[m].reader == states[n].reader
              && Distance(states[m]) + ServingSteps(actions, n, m) == Distance(states[n])
  {
    hide After, Enabled, Inv, Distance, Init, Serves;
    if n < m {
      RunInv(handle, expected, states, actions, m - 1);
      StepOnward(handle, expected, states[m - 1], actions[m - 1]);
      assert Onward(states[m - 1], actions[m - 1], states[m - 1 + 1]);
      Nearer(handle, expected, states, actions, n, m - 1);
    }
  }

  lemma DistanceBound<B>(s: State<B>)
    ensures Distance(s) <= 4 && (Phases(s) && s.reader.Waiting? && !s.wire.stopRequested ==> Distance(s) >= 1)
  {
  }

  /** A request is answered within four serving steps of the two threads, whatever else
      they do in between; by NeverJams one of the four can always be taken. */
  lemma AnsweredWithinFour<B>(handle: Handler<B>, expected: nat, states: seq<State<B>>, actions: seq<Action<B>>, n: nat, m: nat)
    requires IsRun(handle, expected, states, actions) && n <= m < |states|
    requires states[n].reader.Waiting? && !states[m].wire.stopRequested && ServingSteps(actions, n, m) >= 4
    ensures var i := |states[n].consumed|;
            && i < |states[m].consumed| && i < |states[m].published|
            && states[m].published[i].request == states[n].reader.request
            && var c := states[m].consumed[i];
               c.evaluatedAt <= |states[m].log|
               && c.response == handle(states[n].reader.request, states[m].log[..c.evaluatedAt])
  {
    hide InFlight, AllMatched, Enabled, After;
    RunInv(handle, expected, states, actions, n);
    RunInv(handle, expected, states, actions, m);
    Nearer(handle, expected, states, actions, n, m);
    DistanceBound(states[n]);
    DistanceBound(states[m]);
    HandshakeSafe(handle, expected, states, actions, m);
    PublishedStays(handle, expected, states, actions, n, m);
  }

  lemma {:induction false} PublishedStays<B>(handle: Handler<B>, expected: nat, states: seq<State<B>>, actions: seq<Action<B>>,
                                             n: nat, m: nat)
    requires IsRun(handle, expected, states, actions) && n <= m < |states|
    ensures states[n].published <= states[m].published
  {
    if n < m {
      hide After, Enabled, Inv;
      PublishedStays(handle, expected, states, actions, n, m - 1);
      PublishedGrows(handle, expected, states[m - 1], actions[m - 1]);
    }
  }

  lemma PublishedGrows<B>(handle: Handler<B>, expected: nat, s: State<B>, a: Action<B>)
    requires Enabled(expected, s, a)
    ensures s.published <= After(handle, expected, s, a).published
  {
  }

  // ---------------------------------------------------------------- replication

  /** What a pull promises: batches right after the requester's cursor, in order. */
  ghost predicate Incremental<B(!new)>(handle: Handler<B>) {
    forall q: Request, log: seq<B> {:trigger handle(q, log)} :: q.have <= |log| ==> handle(q, log).batches <= log[q.have..]
  }

  /** The replica is a prefix of the log, and what is under way continues it. */
  ghost predicate Replicating<B>(expected: nat, s: State<B>) {
    && s.replica <= s.log && |s.log| <= expected
    && (s.reader.Waiting? ==> s.published != [] && s.published[|s.published| - 1].request.have == |s.replica|
                              && |s.replica| <= s.published[|s.published| - 1].logLength)
    && (s.reader.Applying? ==> s.reader.received.batches <= s.log[|s.replica|..])
    && (s.reader == ReaderEnded(true) ==> s.wire.writerDone && s.replica == s.log && |s.log| == expected)
  }

  lemma PrefixExtends<B>(a: seq<B>, b: seq<B>, log: seq<B>)
    requires a <= log && b <= log[|a|..]
    ensures a + b <= log
  {
  }

  /** A page cut from an earlier log is still a page of the log. */
  lemma PageStays<B>(page: seq<B>, from: nat, at: nat, log: seq<B>)
    requires from <= at <= |log| && page <= log[..at][from..]
    ensures page <= log[from..]
  {
    forall i | 0 <= i < |page| ensures page[i] == log[from..][i] {
      assert page[i] == log[..at][from..][i];
    }
  }

  lemma StepReplicating<B(!new)>(handle: Handler<B>, expected: nat, s: State<B>, a: Action<B>)
    requires Incremental(handle) && Inv(handle, s) && Replicating(expected, s) && Enabled(expected, s, a)
    ensures Replicating(expected, After(handle, expected, s, a))
  {
    hide AllMatched;
    var t := After(handle, expected, s, a);
    match a
    case Commit(b) =>
      if s.reader.Applying? {
        assert s.log == t.log[..|s.log|];
        PageStays(s.reader.received.batches, |s.replica|, |s.log|, t.log);
      }
    case Consume =>
      var p := s.published[|s.published| - 1];
      var log := s.log[..s.evaluatedAt];
      assert Answers(handle, s.wire.response, p, s.evaluatedAt, s.log);
      assert handle(p.request, log).batches <= log[p.request.have..];
      PageStays(s.wire.response.batches, |s.replica|, s.evaluatedAt, s.log);
    case Apply =>
      PrefixExtends(s.replica, s.reader.received.batches, s.log);
    case _ =>
  }

  lemma {:induction false} RunReplicating<B(!new)>(
    handle: Handler<B>, expected: nat, states: seq<State<B>>, actions: seq<Action<B>>, n: nat)
    requires Incremental(handle) && IsRun(handle, expected, states, actions) && n < |states|
    ensures Replicating(expected, states[n])
  {
    if n > 0 {
      hide Inv, Incremental, Enabled, After, Init, Replicating;
      RunReplicating(handle, expected, states, actions, n - 1);
      RunInv(handle, expected, states, actions, n - 1);
      StepReplicating(handle, expected, states[n - 1], actions[n - 1]);
    }
  }

  /** Under any interleaving the reader's replica is a prefix of the writer's log, with
      every batch applied once and in order; and a reader that ends by its own exit test
      holds the whole log, now and in every later state. */
  lemma ReplicaFollows<B(!new)>(
    handle: Handler<B>, expected: nat, states: seq<State<B>>, actions: seq<Action<B>>, n: nat)
    requires Incremental(handle) && IsRun(handle, expected, states, actions) && n < |states|
    ensures var s := states[n];
            s.replica <= s.log && (s.reader == ReaderEnded(true) ==> s.wire.writerDone && s.replica == s.log && |s.log| == expected)
  {
    hide After, Enabled, Incremental;
    RunReplicating(handle, expected, states, actions, n);
  }
}
