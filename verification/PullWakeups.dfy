/** The condition variable of the pull handshake. A thread whose wait condition does not
    hold goes to sleep on the wire; a critical section that changes the wire is followed,
    after the mutex is released, by a notify_all of its own. In between anything may
    happen, and a sleeping thread may also wake by itself: a timeout or a spurious wake. */
module PullWakeups {
  import opened PullWires

  datatype Thread = WriterThread | ReaderThread | MainThread

  /** The handshake, who sleeps on the wire, and who has yet to notify. */
  datatype Sleepy<B> = Sleepy(s: State<B>, asleep: set<Thread>, owing: set<Thread>)

  datatype Move<B> = Act(action: Action<B>) | Notify(thread: Thread) | Sleep(thread: Thread) | Wake(thread: Thread)

  function Owner<B>(a: Action<B>): Thread {
    match a
    case MainStop => MainThread
    case Publish(_) => ReaderThread
    case Consume => ReaderThread
    case Apply => ReaderThread
    case ReaderQuit => ReaderThread
    case ReaderFail => ReaderThread
    case _ => WriterThread
  }

  /** The critical sections a notify_all follows. */
  predicate Notifies<B>(a: Action<B>) {
    a.Take? || a.Reply? || a.FinishWriting? || a.WriterFail? || a.Publish? || a.Consume? || a.ReaderFail? || a.MainStop?
  }

  /** The condition of the wait the thread is at, true where it does not wait. */
  predicate Ready<B>(s: State<B>, t: Thread) {
    match t
    case WriterThread => s.writer.Idle? ==> s.wire.requestReady || s.wire.stopRequested
    case ReaderThread =>
      && (s.reader.Preparing? ==> (!s.wire.requestReady && !s.wire.responseReady) || s.wire.stopRequested)
      && (s.reader.Waiting? ==> s.wire.responseReady || s.wire.stopRequested)
    case MainThread => true
  }

  /** A thread acts awake and with nothing left to notify; main has joined the reader. */
  predicate Can<B>(expected: nat, w: Sleepy<B>, m: Move<B>) {
    match m
    case Act(a) =>
      && Enabled(expected, w.s, a) && Owner(a) !in w.asleep && Owner(a) !in w.owing
      && (a.MainStop? ==> ReaderThread !in w.owing)
    case Notify(t) => t in w.owing
    case Sleep(t) => !Ready(w.s, t) && t !in w.asleep && t !in w.owing
    case Wake(t) => t in w.asleep
  }

  function Moved<B>(handle: Handler<B>, expected: nat, w: Sleepy<B>, m: Move<B>): Sleepy<B>
    requires Can(expected, w, m)
  {
    match m
    case Act(a) =>
      w.(s := After(handle, expected, w.s, a), owing := if Notifies(a) then w.owing + {Owner(a)} else w.owing)
    case Notify(t) => w.(asleep := {}, owing := w.owing - {t})
    case Sleep(t) => w.(asleep := w.asleep + {t})
    case Wake(t) => w.(asleep := w.asleep - {t})
  }

  ghost predicate IsSleepyRun<B>(handle: Handler<B>, expected: nat, ws: seq<Sleepy<B>>, moves: seq<Move<B>>) {
    && |ws| == |moves| + 1
    && Init(ws[0].s) && ws[0].asleep == {} && ws[0].owing == {}
    && forall i :: 0 <= i < |moves| ==>
         Can(expected, ws[i], moves[i]) && ws[i + 1] == Moved(handle, expected, ws[i], moves[i])
  }

  // ---------------------------------------------------------------- no wake-up is lost

  /** Sleepers owe nothing, and one whose condition holds is about to be notified. */
  predicate Awaited<B>(w: Sleepy<B>) {
    && w.asleep !! w.owing
    && forall t :: t in w.asleep ==> t != MainThread && (Ready(w.s, t) ==> w.owing != {})
  }

  /** A step that nobody notifies about leaves every other thread's wait as it was. */
  lemma QuietStep<B>(handle: Handler<B>, expected: nat, s: State<B>, a: Action<B>, t: Thread)
    requires Enabled(expected, s, a) && !Notifies(a) && t != Owner(a)
    ensures Ready(After(handle, expected, s, a), t) == Ready(s, t)
  {
  }

  lemma MoveAwaited<B>(handle: Handler<B>, expected: nat, w: Sleepy<B>, m: Move<B>)
    requires Awaited(w) && Can(expected, w, m)
    ensures Awaited(Moved(handle, expected, w, m))
  {
    hide After, Enabled;
    var w' := Moved(handle, expected, w, m);
    if m.Act? && Notifies(m.action) {
      assert Owner(m.action) in w'.owing;
    } else if m.Act? {
      forall t | t in w'.asleep ensures Ready(w'.s, t) == Ready(w.s, t) {
        QuietStep(handle, expected, w.s, m.action, t);
      }
    }
  }

  lemma {:induction false} RunAwaited<B>(handle: Handler<B>, expected: nat, ws: seq<Sleepy<B>>, moves: seq<Move<B>>, n: nat)
    requires IsSleepyRun(handle, expected, ws, moves) && n < |ws|
    ensures Awaited(ws[n])
  {
    if n > 0 {
      hide Can, Moved, Awaited;
      RunAwaited(handle, expected, ws, moves, n - 1);
      MoveAwaited(handle, expected, ws[n - 1], moves[n - 1]);
    }
  }

  // ---------------------------------------------------------------- the same handshake

  /** Whatever sleeps, wakes and notifications happen, the handshake underneath is one of
      its runs, so all that holds of those holds here. */
  lemma {:induction false} Underneath<B>(handle: Handler<B>, expected: nat, ws: seq<Sleepy<B>>, moves: seq<Move<B>>, n: nat)
    returns (states: seq<State<B>>, actions: seq<Action<B>>)
    requires IsSleepyRun(handle, expected, ws, moves) && n < |ws|
    ensures IsRun(handle, expected, states, actions) && states[|actions|] == ws[n].s
  {
    hide Init, Enabled, After;
    if n == 0 {
      states, actions := [ws[0].s], [];
    } else {
      states, actions := Underneath(handle, expected, ws, moves, n - 1);
      if moves[n - 1].Act? {
        states, actions := RunSnoc(handle, expected, states, actions, moves[n - 1].action);
      }
    }
  }

  /** And every run of the handshake happens, each change notified at once. */
  lemma {:induction false} OnTop<B>(handle: Handler<B>, expected: nat, states: seq<State<B>>, actions: seq<Action<B>>, n: nat)
    returns (ws: seq<Sleepy<B>>, moves: seq<Move<B>>)
    requires IsRun(handle, expected, states, actions) && n < |states|
    ensures IsSleepyRun(handle, expected, ws, moves) && ws[|moves|] == Sleepy(states[n], {}, {})
  {
    hide Init, Enabled, After, Notifies, Owner;
    if n == 0 {
      ws, moves := [Sleepy(states[0], {}, {})], [];
    } else {
      ws, moves := OnTop(handle, expected, states, actions, n - 1);
      var a := actions[n - 1];
      ws, moves := SleepySnoc(handle, expected, ws, moves, Act(a));
      if Notifies(a) {
        ws, moves := SleepySnoc(handle, expected, ws, moves, Notify(Owner(a)));
      }
    }
  }

  lemma SleepySnoc<B>(handle: Handler<B>, expected: nat, ws: seq<Sleepy<B>>, moves: seq<Move<B>>, m: Move<B>)
    returns (ws': seq<Sleepy<B>>, moves': seq<Move<B>>)
    requires IsSleepyRun(handle, expected, ws, moves) && Can(expected, ws[|moves|], m)
    ensures IsSleepyRun(handle, expected, ws', moves')
    ensures ws'[|moves'|] == Moved(handle, expected, ws[|moves|], m)
  {
    hide Init, Can, Moved;
    ws', moves' := ws + [Moved(handle, expected, ws[|moves|], m)], moves + [m];
  }

  // ---------------------------------------------------------------- no deadlock

  /** In every state of every run, a sleeping thread whose wait condition holds has a
      notify_all coming, from a thread that is awake. */
  lemma NoLostWakeup<B>(handle: Handler<B>, expected: nat, ws: seq<Sleepy<B>>, moves: seq<Move<B>>, n: nat, t: Thread)
    requires IsSleepyRun(handle, expected, ws, moves) && n < |ws|
    requires t in ws[n].asleep && Ready(ws[n].s, t)
    ensures exists u :: u in ws[n].owing && u !in ws[n].asleep
  {
    hide Ready;
    RunAwaited(handle, expected, ws, moves, n);
    var u :| u in ws[n].owing;
  }

  /** No interleaving of steps, sleeps and notifications deadlocks: unless a notify_all is
      coming, before a stop the thread whose turn it is in the handshake is awake and can
      take it. */
  lemma NeverDeadlocks<B>(
    handle: Handler<B>, expected: nat, ws: seq<Sleepy<B>>, moves: seq<Move<B>>, n: nat, maxBatches: nat)
    requires IsSleepyRun(handle, expected, ws, moves) && n < |ws|
    requires ws[n].owing == {} && !ws[n].s.wire.stopRequested
    ensures var w := ws[n];
            match w.s.reader
            case Preparing => Can(expected, w, Act(Publish(maxBatches)))
            case Waiting(_) =>
              Can(expected, w, Act(Take)) || Can(expected, w, Act(Handle)) || Can(expected, w, Act(Reply))
              || Can(expected, w, Act(Consume))
            case Applying(r) => Can(expected, w, Act(if r.ok then Apply else ReaderFail))
            case ReaderEnded(_) => Can(expected, w, Act(MainStop))
  {
    RunAwaited(handle, expected, ws, moves, n);
    var states, actions := Underneath(handle, expected, ws, moves, n);
    hide IsSleepyRun, IsRun;
    NeverJams(handle, expected, states, actions, |actions|, maxBatches);
  }

  /** Nor does anyone miss a stop: unless a notify_all is coming, after a stop nobody
      sleeps, and each thread that has not ended can take a step of its way out. */
  lemma StopReachesAll<B>(handle: Handler<B>, expected: nat, ws: seq<Sleepy<B>>, moves: seq<Move<B>>, n: nat)
    requires IsSleepyRun(handle, expected, ws, moves) && n < |ws|
    requires ws[n].owing == {} && ws[n].s.wire.stopRequested
    ensures var w := ws[n];
            && w.asleep == {}
            && (match w.s.writer
                case Idle => Can(expected, w, Act(if w.s.wire.writerDone then WriterExit else FinishWriting))
                case Serving(_) => Can(expected, w, Act(Handle))
                case Replying(_) => Can(expected, w, Act(Reply))
                case WriterEnded => true)
            && match w.s.reader
               case Preparing => Can(expected, w, Act(ReaderFail))
               case Waiting(_) => Can(expected, w, Act(if w.s.wire.responseReady then Consume else ReaderFail))
               case Applying(r) => Can(expected, w, Act(if r.ok then Apply else ReaderFail))
               case ReaderEnded(_) => true
  {
    RunAwaited(handle, expected, ws, moves, n);
    hide IsSleepyRun;
    forall t ensures t !in ws[n].asleep {
      assert Ready(ws[n].s, t);
    }
  }
}
