/** Serve's accept loop, its closer and its sessions, which share a mutex-protected set of connections
    (internal/transport/transport.go:148-187). */
module Serve {

  const MAX_SESSIONS: int := 32

  /** The accept loop and the deferred shutdown. Between Locked and the next phase it holds the mutex:
      the context may be cancelled after it has been looked at. */
  datatype Loop =
    | Accepting
    | Holding(conn: nat)
    | Locked(conn: nat, refuse: bool)
    | Refusing(conn: nat)
    | Leaving
    | AwaitStopped
    | AwaitSessions
    | Returned

  /** The goroutine that waits for cancellation. In Pass it holds the mutex. */
  datatype Closer = Dormant | Awake | Pass(todo: set<nat>) | Stopped

  /** Sessions go from running to shut (connection closed), removed (from the active set) and finished. */
  datatype State = State(
    cancelled: bool, listening: bool, loop: Loop, closer: Closer, active: set<nat>,
    running: set<nat>, shut: set<nat>, removed: set<nat>, finished: set<nat>,
    accepted: set<nat>, closed: set<nat>)

  datatype Event =
    | Cancel                  // from outside
    | Accept(conn: nat)
    | AcceptFails
    | Lock
    | Unlock
    | CloseRefused
    | Leave                   // the deferred cancel
    | SeeStopped
    | SeeSessions
    | Wake
    | StartPass
    | CloseOne(conn: nat)
    | EndPass
    | EndSession(conn: nat)
    | Remove(conn: nat)
    | Done(conn: nat)

  predicate MutexFree(s: State) {
    !s.loop.Locked? && !s.closer.Pass?
  }

  function Step(s: State, ev: Event): State {
    match ev
    case Cancel => s.(cancelled := true)
    case Accept(c) =>
      if s.loop.Accepting? && s.listening && c !in s.accepted then s.(loop := Holding(c), accepted := s.accepted + {c}) else s
    case AcceptFails => if s.loop.Accepting? then s.(loop := Leaving) else s
    case Lock =>
      if s.loop.Holding? && MutexFree(s) then s.(loop := Locked(s.loop.conn, |s.active| >= MAX_SESSIONS || s.cancelled)) else s
    case Unlock =>
      if !s.loop.Locked? then s
      else if s.loop.refuse then s.(loop := Refusing(s.loop.conn))
      else s.(loop := Accepting, active := s.active + {s.loop.conn}, running := s.running + {s.loop.conn})
    case CloseRefused => if s.loop.Refusing? then s.(loop := Accepting, closed := s.closed + {s.loop.conn}) else s
    case Leave => if s.loop.Leaving? then s.(loop := AwaitStopped, cancelled := true) else s
    case SeeStopped => if s.loop.AwaitStopped? && s.closer.Stopped? then s.(loop := AwaitSessions) else s
    case SeeSessions =>
      if s.loop.AwaitSessions? && s.running == {} && s.shut == {} && s.removed == {} then s.(loop := Returned) else s
    case Wake => if s.closer.Dormant? && s.cancelled then s.(closer := Awake, listening := false) else s
    case StartPass => if s.closer.Awake? && MutexFree(s) then s.(closer := Pass(s.active)) else s
    case CloseOne(c) =>
      if s.closer.Pass? && c in s.closer.todo then s.(closer := Pass(s.closer.todo - {c}), closed := s.closed + {c}) else s
    case EndPass => if s.closer.Pass? && s.closer.todo == {} then s.(closer := Stopped) else s
    case EndSession(c) =>
      if c in s.running then s.(running := s.running - {c}, shut := s.shut + {c}, closed := s.closed + {c}) else s
    case Remove(c) =>
      if c in s.shut && MutexFree(s) then s.(shut := s.shut - {c}, removed := s.removed + {c}, active := s.active - {c}) else s
    case Done(c) => if c in s.removed then s.(removed := s.removed - {c}, finished := s.finished + {c}) else s
  }

  const START: State := State(false, true, Accepting, Dormant, {}, {}, {}, {}, {}, {}, {})

  function Run(evs: seq<Event>): State {
    if evs == [] then START else Step(Run(evs[..|evs| - 1]), evs[|evs| - 1])
  }

  /** The connection the loop has in hand. */
  predicate InHand(s: State, c: nat) {
    (s.loop.Holding? || s.loop.Locked? || s.loop.Refusing?) && s.loop.conn == c
  }

  ghost predicate Places(s: State) {
    && (forall c :: c in s.active <==> c in s.running || c in s.shut)
    && (forall c :: c in s.running ==> c !in s.shut && c !in s.removed && c !in s.finished && c in s.accepted)
    && (forall c :: c in s.shut ==> c !in s.removed && c !in s.finished && c in s.accepted && c in s.closed)
    && (forall c :: c in s.removed ==> c !in s.finished && c in s.accepted && c in s.closed)
    && (forall c :: c in s.finished ==> c in s.accepted && c in s.closed)
    && (forall c :: InHand(s, c) ==> c in s.accepted && c !in s.running && c !in s.shut && c !in s.removed && c !in s.finished)
    && (forall c :: c in s.accepted ==> c in s.closed || c in s.active || InHand(s, c))
  }

  ghost predicate Order(s: State) {
    && |s.active| <= MAX_SESSIONS
    && (s.loop.Locked? ==> !s.closer.Pass? && (!s.loop.refuse ==> |s.active| < MAX_SESSIONS))
    && (s.loop.Locked? && s.closer.Stopped? ==> s.loop.refuse)
    && (!s.closer.Dormant? <==> !s.listening)
    && (!s.closer.Dormant? ==> s.cancelled)
    && (s.loop.AwaitStopped? || s.loop.AwaitSessions? || s.loop.Returned? ==> s.cancelled)
    && (s.closer.Pass? ==> forall c :: c in s.active ==> c in s.closed || c in s.closer.todo)
    && (s.closer.Pass? ==> s.closer.todo <= s.active)
    && (s.closer.Stopped? ==> forall c :: c in s.active ==> c in s.closed)
    && (s.loop.AwaitSessions? || s.loop.Returned? ==> s.closer.Stopped?)
    && (s.loop.Returned? ==> s.running == {} && s.shut == {} && s.removed == {})
  }

  ghost predicate Inv(s: State) {
    Places(s) && Order(s)
  }

  lemma Sizes(a: set<nat>, c: nat)
    ensures if c in a then |a - {c}| == |a| - 1 else a - {c} == a
    ensures |a + {c}| <= |a| + 1
  {}

  predicate OfSession(ev: Event) {
    ev.EndSession? || ev.Remove? || ev.Done?
  }

  lemma SessionKeepsPlaces(s: State, ev: Event)
    requires Places(s) && OfSession(ev)
    ensures Places(Step(s, ev))
  {}

  predicate OfCloser(ev: Event) {
    ev.Cancel? || ev.Wake? || ev.StartPass? || ev.CloseOne? || ev.EndPass?
  }

  lemma CloserKeepsPlaces(s: State, ev: Event)
    requires Places(s) && OfCloser(ev)
    ensures Places(Step(s, ev))
  {}

  lemma LoopKeepsPlaces(s: State, ev: Event)
    requires Places(s) && !OfSession(ev) && !OfCloser(ev)
    ensures Places(Step(s, ev))
  {}

  lemma StepKeepsOrder(s: State, ev: Event)
    requires Order(s) && !ev.Remove? && !ev.Unlock?
    ensures Order(Step(s, ev))
  {}

  lemma SetChangeKeepsOrder(s: State, ev: Event)
    requires Order(s) && (ev.Remove? || ev.Unlock?)
    ensures Order(Step(s, ev))
  {
    match ev {
      case Remove(c) => Sizes(s.active, c);
      case Unlock => if s.loop.Locked? { Sizes(s.active, s.loop.conn); }
    }
  }

  lemma StepInv(s: State, ev: Event)
    requires Inv(s)
    ensures Inv(Step(s, ev))
  {
    hide Places, Order, Step;
    if ev.Remove? || ev.Unlock? {
      SetChangeKeepsOrder(s, ev);
    } else {
      StepKeepsOrder(s, ev);
    }
    if OfSession(ev) {
      SessionKeepsPlaces(s, ev);
    } else if OfCloser(ev) {
      CloserKeepsPlaces(s, ev);
    } else {
      LoopKeepsPlaces(s, ev);
    }
  }

  lemma {:induction false} RunInv(evs: seq<Event>)
    ensures Inv(Run(evs))
  {
    hide Inv, Step;
    if evs == [] {
      assert Inv(START) by { StartInv(); }
    } else {
      RunInv(evs[..|evs| - 1]);
      StepInv(Run(evs[..|evs| - 1]), evs[|evs| - 1]);
    }
  }

  lemma StartInv()
    ensures Inv(START)
  {}

  /** At every moment at most 32 sessions are active, and every accepted connection is closed, in the
      active set, or in the hands of the accept loop. */
  lemma NothingIsForgotten(evs: seq<Event>, c: nat)
    requires c in Run(evs).accepted
    ensures var s := Run(evs);
            |s.active| <= MAX_SESSIONS && (c in s.closed || c in s.active || InHand(s, c))
  {
    RunInv(evs);
    hide Run;
  }

  /** Once the closer has made its pass, the active set only shrinks and all of it is closed, even if the
      loop looked at the context before it was cancelled. */
  lemma NoEntryAfterPass(evs: seq<Event>, ev: Event)
    requires Run(evs).closer.Stopped?
    ensures Step(Run(evs), ev).active <= Run(evs).active <= Run(evs).closed
  {
    RunInv(evs);
    hide Run;
  }

  /** Admission is exact: a connection that the loop has in hand, when it gets the mutex, becomes a running
      session if and only if there is room for it and the context has not ended by then; otherwise it is
      closed. */
  lemma AdmissionIsExact(evs: seq<Event>)
    requires var s := Run(evs); s.loop.Holding? && MutexFree(s)
    ensures var s := Run(evs);
            var c := s.loop.conn;
            var s' := Step(Step(s, Lock), Unlock);
            && (if |s.active| < 32 && !s.cancelled
                then s'.loop.Accepting? && s'.active == s.active + {c} && s'.running == s.running + {c} && c !in s.active && c !in s.closed
                else s'.active == s.active && s'.running == s.running && Step(s', CloseRefused).loop.Accepting?
                     && c in Step(s', CloseRefused).closed)
  {
    RunInv(evs);
    HandIsOpen(evs, Run(evs).loop.conn);
    hide Run;
  }

  /** A connection in the loop's hands has not been closed. */
  lemma {:induction false} HandIsOpen(evs: seq<Event>, c: nat)
    requires InHand(Run(evs), c)
    ensures c !in Run(evs).closed
  {
    hide Step;
    if evs != [] {
      var init := evs[..|evs| - 1];
      RunInv(init);
      ClosedWereAccepted(init);
      if InHand(Run(init), c) {
        HandIsOpen(init, c);
      }
      HandStep(Run(init), evs[|evs| - 1], c);
    }
  }

  lemma {:induction false} ClosedWereAccepted(evs: seq<Event>)
    ensures Run(evs).closed <= Run(evs).accepted
  {
    hide Step;
    if evs == [] {
      assert START.closed == {};
    } else {
      var init := evs[..|evs| - 1];
      RunInv(init);
      ClosedWereAccepted(init);
      ClosedStep(Run(init), evs[|evs| - 1]);
    }
  }

  lemma ClosedStep(s: State, ev: Event)
    requires Inv(s) && s.closed <= s.accepted
    ensures Step(s, ev).closed <= Step(s, ev).accepted
  {}

  lemma HandStep(s: State, ev: Event, c: nat)
    requires Inv(s) && InHand(Step(s, ev), c) && (InHand(s, c) ==> c !in s.closed)
    requires forall x :: x in s.closed ==> x in s.accepted
    ensures c !in Step(s, ev).closed
  {}

  /** A free loop of an open server accepts any new connection. */
  lemma NewConnectionIsTaken(s: State, c: nat)
    requires s.loop.Accepting? && s.listening && c !in s.accepted
    ensures var s' := Step(s, Accept(c)); s'.loop == Holding(c) && s'.accepted == s.accepted + {c}
  {}

  /** When Serve returns, every accepted connection is closed and every session has finished. */
  lemma ReturnMeansDone(evs: seq<Event>)
    requires Run(evs).loop.Returned?
    ensures var s := Run(evs);
            s.accepted <= s.closed && s.active == {} && s.running == {} && s.shut == {} && s.removed == {}
  {
    RunInv(evs);
    hide Run;
  }

  function LoopRank(l: Loop): nat {
    match l
    case Holding(_) => 12
    case Locked(_, _) => 11
    case Refusing(_) => 6
    case Accepting => 5
    case Leaving => 4
    case AwaitStopped => 3
    case AwaitSessions => 2
    case Returned => 0
  }

  function CloserRank(c: Closer): nat {
    match c
    case Dormant => MAX_SESSIONS + 3
    case Awake => MAX_SESSIONS + 2
    case Pass(todo) => |todo| + 1
    case Stopped => 0
  }

  function Rank(s: State): nat {
    LoopRank(s.loop) + CloserRank(s.closer) + 3 * |s.running| + 2 * |s.shut| + |s.removed|
  }

  /** An event that must come: a session ends by itself at any time, but has to once its connection is
      closed. */
  predicate Due(s: State, ev: Event) {
    Step(s, ev) != s && !ev.Cancel? && (ev.EndSession? ==> ev.conn in s.closed)
  }

  lemma SessionAdvances(s: State, ev: Event)
    requires OfSession(ev) && Step(s, ev) != s
    ensures Rank(Step(s, ev)) < Rank(s)
  {
    hide LoopRank, CloserRank;
    match ev {
      case EndSession(c) =>
        assert c in s.running;
        Sizes(s.running, c);
        Sizes(s.shut, c);
      case Remove(c) =>
        assert c in s.shut;
        Sizes(s.shut, c);
        Sizes(s.removed, c);
      case Done(c) =>
        assert c in s.removed;
        Sizes(s.removed, c);
    }
  }

  lemma UnlockAdvances(s: State)
    requires s.loop.Locked?
    ensures Rank(Step(s, Unlock)) < Rank(s)
  {
    Sizes(s.running, s.loop.conn);
  }

  lemma CloseAdvances(s: State, c: nat)
    requires s.closer.Pass? && c in s.closer.todo
    ensures Rank(Step(s, CloseOne(c))) < Rank(s)
  {
    Sizes(s.closer.todo, c);
  }

  /** Shutdown ends: once the listener is closed, every event that has an effect brings the return
      nearer, ... */
  lemma ShutdownAdvances(s: State, ev: Event)
    requires Inv(s) && !s.listening && Step(s, ev) != s
    ensures Rank(Step(s, ev)) < Rank(s)
  {
    hide Places;
    if OfSession(ev) {
      SessionAdvances(s, ev);
    } else if ev.Unlock? {
      UnlockAdvances(s);
    } else if ev.CloseOne? {
      CloseAdvances(s, ev.conn);
    }
  }

  /** ... and from cancellation until Serve has returned some event is due; while the listener is still
      open, it is the one that closes it. */
  lemma ShutdownIsNeverStuck(s: State) returns (ev: Event)
    requires Inv(s) && s.cancelled && !s.loop.Returned?
    ensures Due(s, ev) && (s.listening ==> !Step(s, ev).listening)
  {
    if s.listening {
      ev := Wake;
    } else if s.closer.Pass? {
      if s.closer.todo == {} {
        ev := EndPass;
      } else {
        var c :| c in s.closer.todo;
        ev := CloseOne(c);
        assert Step(s, ev).closer != s.closer;
      }
    } else if s.loop.Locked? {
      ev := Unlock;
    } else if s.closer.Awake? {
      ev := StartPass;
    } else {
      match s.loop {
        case Holding(_) => ev := Lock;
        case Refusing(_) => ev := CloseRefused;
        case Accepting => ev := AcceptFails;
        case Leaving => ev := Leave;
        case AwaitStopped => ev := SeeStopped;
        case AwaitSessions =>
          if s.running != {} {
            var c :| c in s.running;
            ev := EndSession(c);
            assert c !in Step(s, ev).running;
          } else if s.shut != {} {
            var c :| c in s.shut;
            ev := Remove(c);
            assert c !in Step(s, ev).shut;
          } else if s.removed != {} {
            var c :| c in s.removed;
            ev := Done(c);
            assert c !in Step(s, ev).removed;
          } else {
            ev := SeeSessions;
          }
      }
    }
  }
}
