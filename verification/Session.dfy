/** One authenticated connection: concurrent client calls serialised by the gate, a server that answers
    in turn, and cancellations, errors and lost connections anywhere
    (internal/transport/transport.go:187-286 and 290-432). */
module Session {
  import opened Model
  import opened Transfer

  const VERSION: int := 1

  datatype Request =
    | Greeting
    | ListOf(folder: string)
    | BlockOf(folder: string, path: string, hash: Digest, block: Block)

  /** What the backend says. */
  datatype Answer = Refused | Listed(es: seq<Entry>) | Read(data: Bytes)

  /** A reply as a whole: the frames, and whether the server goes on serving after them. */
  datatype Reply = Reply(greeted: bool, request: Request, answer: Answer, frames: seq<Message>, alive: bool)

  predicate WellAsked(q: Request) {
    match q
    case Greeting => true
    case ListOf(f) => 0 < |f| <= 256
    case BlockOf(f, p, d, b) =>
      0 < |f| <= 256 && |p| <= 4096 && 0 < b.size <= BLOCK_SIZE && b.offset >= 0 && |d| == 64 && |b.hash| == 64
  }

  /** handleRequest, and the greeting before it. */
  ghost predicate Legal(r: Reply) {
    if !r.greeted then
      if r.request.Greeting? then r.frames == [Hello(VERSION)] && r.alive else r.frames == [] && !r.alive
    else if r.request.Greeting? || !WellAsked(r.request) then r.frames == [] && !r.alive
    else if r.answer.Refused? then r.frames == [Rejected] && r.alive
    else if r.request.ListOf? then r.answer.Listed? && ListReply(r.answer.es, r.frames, r.alive)
    else
      && r.answer.Read? && r.alive
      && r.frames == if |r.answer.data| != r.request.block.size then [Rejected] else [BlockFollows, Data(r.answer.data)]
  }

  /** handleRequest: the request is checked, the backend asked, and its answer sent; an answer is one of
      the kind that the request asks for. */
  method HandleRequest(q: Request, answer: Answer) returns (r: Reply)
    requires q.ListOf? ==> !answer.Read?
    requires q.BlockOf? ==> !answer.Listed?
    ensures Legal(r) && r.greeted && r.request == q && r.answer == answer
  {
    var closing := Reply(true, q, answer, [], false);
    if q.Greeting? || |q.folder| == 0 || |q.folder| > 256 {
      return closing;
    }
    if q.ListOf? {
      if answer.Refused? {
        return Reply(true, q, answer, [Rejected], true);
      }
      var ms, alive := ServeList(answer.es);
      return Reply(true, q, answer, ms, alive);
    }
    var b := q.block;
    if |q.path| > 4096 || b.size <= 0 || b.size > 262144 || b.offset < 0 || |q.hash| != 64 || |b.hash| != 64 {
      return closing;
    }
    if answer.Refused? || |answer.data| != b.size {
      return Reply(true, q, answer, [Rejected], true);
    }
    return Reply(true, q, answer, [BlockFollows, Data(answer.data)], true);
  }

  datatype Verdict = GoOn | Success | Refuse

  /** What the client makes of the frames received so far for its request, the last one just now. */
  ghost function Judge(h: Hasher, q: Request, got: seq<Message>): Verdict {
    if got == [] then GoOn
    else
      var m := got[|got| - 1];
      match q
      case Greeting => if m == Hello(VERSION) then Success else Refuse
      case ListOf(_) =>
        if TotalSize(got) > MAX_INDEX_BYTES then Refuse
        else if m.EntryIs? then if |got| > MAX_LISTED then Refuse else GoOn
        else if m.End? then Success
        else Refuse
      case BlockOf(_, _, _, b) =>
        if |got| == 1 then if m.BlockFollows? then GoOn else Refuse
        else if m.Data? && |m.data| == b.size && h(m.data) == b.hash then Success
        else Refuse
  }

  /** Judging frame by frame is Client.List: it comes to a success exactly on the responses that the
      loop accepts, and at the same frame. */
  lemma JudgeIsClientList(h: Hasher, folder: string, ms: seq<Message>, k: nat)
    requires 0 < k <= |ms| && forall j :: 0 <= j < k ==> Judge(h, ListOf(folder), ms[..j]) == GoOn
    ensures Judge(h, ListOf(folder), ms[..k]) == Success <==> Acceptable(ms) && k == Leading(ms) + 1
  {
    hide TotalSize, Leading;
    forall j | 0 <= j < k - 1 ensures ms[j].EntryIs? {
      assert Judge(h, ListOf(folder), ms[..j + 1]) == GoOn && ms[..j + 1][j] == ms[j];
    }
    LeadingAt(ms, k - 1);
    assert ms[..k][k - 1] == ms[k - 1];
    assert Judge(h, ListOf(folder), ms[..k - 1]) == GoOn;
  }

  lemma LeadingAt(ms: seq<Message>, n: nat)
    requires n < |ms| && forall j :: 0 <= j < n ==> ms[j].EntryIs?
    ensures Leading(ms) >= n && (ms[n].EntryIs? <==> Leading(ms) > n)
  {}

  /** The call that holds the gate; got is None until its request has been sent. */
  datatype Call = Call(id: nat, request: Request, got: Option<seq<Message>>)

  datatype Outcome = Outcome(request: Request, sent: bool, ok: bool, got: seq<Message>)

  datatype Server = Waiting(greeted: bool) | Working(id: nat, rest: seq<Message>, alive: bool) | Gone

  /** Frames carry the number of the call they belong to; the program does not see these numbers.
      `served` and `outcomes` are history. */
  datatype State = State(
    open: bool, gate: Option<Call>, toServer: seq<(nat, Request)>, toClient: seq<(nat, Message)>,
    server: Server, next: nat, served: map<nat, Reply>, outcomes: map<nat, Outcome>)

  datatype Event =
    | Acquire(request: Request)
    | Withdraw                       // the caller's context ended before anything was sent
    | Send
    | Receive
    | Fail                           // any error, timeout or cancellation of the call at work
    | Close                          // the connection is closed under the call or between calls
    | Take(reply: Reply)             // the server reads a request and settles its reply
    | Emit
    | ServerStops                    // the server's side ends: timeout, error, shutdown

  function Finish(s: State, c: Call, ok: bool, got: seq<Message>, close: bool): State {
    s.(gate := None, open := s.open && !close, outcomes := s.outcomes[c.id := Outcome(c.request, c.got.Some?, ok, got)])
  }

  ghost function DoReceive(h: Hasher, s: State, c: Call, got: seq<Message>): State
    requires s.toClient != []
  {
    var got' := got + [s.toClient[0].1];
    var s1 := s.(toClient := s.toClient[1..]);
    match Judge(h, c.request, got')
    case GoOn => s1.(gate := Some(c.(got := Some(got'))))
    case Success => Finish(s1, c, true, got', false)
    case Refuse => Finish(s1, c, false, got', true)
  }

  ghost function DoTake(s: State, r: Reply): State
    requires s.toServer != []
  {
    var id := s.toServer[0].0;
    s.(toServer := s.toServer[1..], served := s.served[id := r],
       server := if r.frames == [] then Gone else Working(id, r.frames, r.alive))
  }

  function DoEmit(s: State): State
    requires s.server.Working? && s.server.rest != []
  {
    var w := s.server;
    s.(toClient := s.toClient + [(w.id, w.rest[0])],
       server := if |w.rest| > 1 then w.(rest := w.rest[1..]) else if w.alive then Waiting(true) else Gone)
  }

  ghost function Step(h: Hasher, s: State, ev: Event): State {
    match ev
    case Acquire(q) => if s.gate.None? then s.(gate := Some(Call(s.next, q, None)), next := s.next + 1) else s
    case Withdraw => if s.gate.Some? && s.gate.value.got.None? then Finish(s, s.gate.value, false, [], false) else s
    case Send =>
      if s.open && s.gate.Some? && s.gate.value.got.None? then
        s.(toServer := s.toServer + [(s.gate.value.id, s.gate.value.request)], gate := Some(s.gate.value.(got := Some([]))))
      else s
    case Receive =>
      if s.gate.Some? && s.gate.value.got.Some? && s.toClient != [] then DoReceive(h, s, s.gate.value, s.gate.value.got.value)
      else s
    case Fail =>
      if s.gate.Some? then Finish(s, s.gate.value, false, (if s.gate.value.got.Some? then s.gate.value.got.value else []), true) else s
    case Close => s.(open := false)
    case Take(r) =>
      if s.server.Waiting? && s.toServer != [] && Legal(r) && r.greeted == s.server.greeted && r.request == s.toServer[0].1
      then DoTake(s, r) else s
    case Emit => if s.server.Working? && s.server.rest != [] then DoEmit(s) else s
    case ServerStops => s.(server := Gone)
  }

  /** Nothing is on its way in either direction. */
  predicate Quiet(s: State) {
    s.toServer == [] && s.toClient == [] && !s.server.Working?
  }

  function Messages(fs: seq<(nat, Message)>): (ms: seq<Message>)
    ensures |ms| == |fs| && forall i :: 0 <= i < |fs| ==> ms[i] == fs[i].1
  {
    seq(|fs|, i requires 0 <= i < |fs| => fs[i].1)
  }

  /** What has arrived and what is on its way belong to the reply to this very call. */
  ghost predicate Exchange(s: State, c: Call, got: seq<Message>) {
    || (s.toServer == [(c.id, c.request)] && s.toClient == [] && got == [] && !s.server.Working? && c.id !in s.served)
    || (&& s.toServer == [] && c.id in s.served && s.served[c.id].request == c.request
        && (forall i :: 0 <= i < |s.toClient| ==> s.toClient[i].0 == c.id)
        && var r := s.served[c.id];
           var seen := got + Messages(s.toClient);
           match s.server
           case Working(id, rest, alive) => id == c.id && rest != [] && alive == r.alive && seen + rest == r.frames
           case Waiting(_) => r.alive && seen == r.frames
           case Gone => seen <= r.frames)
  }

  ghost predicate HistoryOk(h: Hasher, s: State) {
    && (forall i :: i in s.served ==> i < s.next && Legal(s.served[i]))
    && |s.toServer| <= 1
    && (forall f :: f in s.toServer ==> f.0 < s.next && f.0 !in s.served)
    && (forall i :: i in s.outcomes ==> i < s.next && (s.gate.Some? ==> i != s.gate.value.id))
    && (forall i :: i in s.outcomes && s.outcomes[i].sent && !s.outcomes[i].ok ==> !s.open)
    && (forall i :: i in s.outcomes && s.outcomes[i].ok ==>
          i in s.served && s.served[i].alive && s.served[i].request == s.outcomes[i].request
          && s.outcomes[i].got == s.served[i].frames && Judge(h, s.outcomes[i].request, s.outcomes[i].got) == Success)
  }

  ghost predicate Inv(h: Hasher, s: State) {
    && HistoryOk(h, s)
    && match s.gate
       case None => s.open ==> Quiet(s)
       case Some(c) =>
         && c.id < s.next
         && match c.got
            case None => s.open ==> Quiet(s) && c.id !in s.served
            case Some(got) => Exchange(s, c, got) && Judge(h, c.request, got) == GoOn
  }

  /** A reply is judged a success only when it is complete and the server stays; and a complete reply
      of a server that stays is always judged. */
  lemma RepliesEndWithTheirLastFrame(h: Hasher, r: Reply, k: nat)
    requires Legal(r) && 0 < k <= |r.frames|
    ensures Judge(h, r.request, r.frames[..k]) == Success ==> r.alive && k == |r.frames|
    ensures r.alive && k == |r.frames| ==> Judge(h, r.request, r.frames[..k]) != GoOn
  {
    hide TotalSize, Size, FramesFit;
    var part := r.frames[..k];
    assert part[|part| - 1] == r.frames[k - 1];
  }

  lemma ReceiveInv(h: Hasher, s: State)
    requires Inv(h, s) && s.gate.Some? && s.gate.value.got.Some? && s.toClient != []
    ensures Inv(h, Step(h, s, Receive))
    ensures s.toClient[0].0 == s.gate.value.id
  {
    hide Judge, Legal;
    var c := s.gate.value;
    var got := c.got.value;
    var got' := got + [s.toClient[0].1];
    var r := s.served[c.id];
    assert got + Messages(s.toClient) == got' + Messages(s.toClient[1..]);
    assert got' <= r.frames && got' == r.frames[..|got'|];
    RepliesEndWithTheirLastFrame(h, r, |got'|);
  }

  lemma TakeHistory(h: Hasher, s: State, r: Reply)
    requires HistoryOk(h, s) && s.toServer != [] && Legal(r)
    ensures HistoryOk(h, DoTake(s, r))
  {
    hide Judge, Legal;
    var id := s.toServer[0].0;
    assert s.toServer[0] in s.toServer;
    assert s.toServer[1..] == [];
  }

  lemma TakeExchange(s: State, c: Call, r: Reply)
    requires Exchange(s, c, []) && s.toServer != [] && s.server.Waiting? && Legal(r) && r.request == s.toServer[0].1
    ensures Exchange(DoTake(s, r), c, [])
  {
    hide ListReply, WellAsked;
    assert Messages([]) == [] && [] + [] + r.frames == r.frames;
  }

  lemma TakeInv(h: Hasher, s: State, r: Reply)
    requires Inv(h, s)
    ensures Inv(h, Step(h, s, Take(r)))
  {
    hide Judge, Legal, HistoryOk;
    if s.server.Waiting? && s.toServer != [] && Legal(r) && r.request == s.toServer[0].1 {
      TakeHistory(h, s, r);
      if s.gate.Some? && s.gate.value.got.Some? {
        assert s.gate.value.got.value == [];
        TakeExchange(s, s.gate.value, r);
      }
    }
  }

  lemma EmitInv(h: Hasher, s: State)
    requires Inv(h, s)
    ensures Inv(h, Step(h, s, Emit))
  {
    hide Judge, Legal;
    if s.server.Working? && s.server.rest != [] && s.gate.Some? && s.gate.value.got.Some? {
      var got := s.gate.value.got.value;
      var w := s.server;
      assert w.rest == [w.rest[0]] + w.rest[1..];
      assert Messages(s.toClient + [(w.id, w.rest[0])]) == Messages(s.toClient) + [w.rest[0]];
      assert got + Messages(s.toClient) + w.rest == got + Messages(DoEmit(s).toClient) + w.rest[1..];
      assert |w.rest| == 1 ==> w.rest[1..] == [];
    }
  }

  /** Every event keeps the invariant. */
  lemma StepInv(h: Hasher, s: State, ev: Event)
    requires Inv(h, s)
    ensures Inv(h, Step(h, s, ev))
  {
    hide Legal;
    match ev {
      case Receive => if s.gate.Some? && s.gate.value.got.Some? && s.toClient != [] { ReceiveInv(h, s); }
      case Take(r) => TakeInv(h, s, r);
      case Emit => EmitInv(h, s);
      case _ =>
    }
  }

  /** A new connection. */
  const START: State := State(true, None, [], [], Waiting(false), 0, map[], map[])

  ghost function Run(h: Hasher, evs: seq<Event>): State {
    if evs == [] then START else Step(h, Run(h, evs[..|evs| - 1]), evs[|evs| - 1])
  }

  lemma {:induction false} RunInv(h: Hasher, evs: seq<Event>)
    ensures Inv(h, Run(h, evs))
  {
    hide Inv, Step;
    if evs == [] {
      assert Inv(h, START) by { StartInv(h); }
    } else {
      RunInv(h, evs[..|evs| - 1]);
      StepInv(h, Run(h, evs[..|evs| - 1]), evs[|evs| - 1]);
    }
  }

  lemma StartInv(h: Hasher)
    ensures Inv(h, START)
  {}

  /** Lockstep: in every run, an open session with a free gate has nothing under way in either direction. */
  lemma Lockstep(h: Hasher, evs: seq<Event>)
    ensures var s := Run(h, evs);
            s.open && s.gate.None? ==> s.toServer == [] && s.toClient == [] && !s.server.Working?
  {
    RunInv(h, evs);
  }

  /** No call consumes a frame that belongs to another call. */
  lemma OwnFramesOnly(h: Hasher, evs: seq<Event>)
    requires var s := Run(h, evs); s.gate.Some? && s.gate.value.got.Some? && s.toClient != []
    ensures var s := Run(h, evs); s.toClient[0].0 == s.gate.value.id
  {
    RunInv(h, evs);
    ReceiveInv(h, Run(h, evs));
  }

  /** A call that failed after sending has closed the session, for good. */
  lemma FailureCloses(h: Hasher, evs: seq<Event>, more: seq<Event>, id: nat)
    requires var s := Run(h, evs); id in s.outcomes && s.outcomes[id].sent && !s.outcomes[id].ok
    ensures !Run(h, evs + more).open
  {
    RunInv(h, evs);
    ClosedStays(h, evs, more);
  }

  lemma StepStaysClosed(h: Hasher, s: State, ev: Event)
    requires !s.open
    ensures !Step(h, s, ev).open
  {
    hide Judge, Legal;
  }

  lemma {:induction false} ClosedStays(h: Hasher, evs: seq<Event>, more: seq<Event>)
    requires !Run(h, evs).open
    ensures !Run(h, evs + more).open
  {
    hide Step;
    if more == [] {
      assert evs + more == evs;
    } else {
      ClosedStays(h, evs, more[..|more| - 1]);
      assert (evs + more)[..|evs + more| - 1] == evs + more[..|more| - 1];
      StepStaysClosed(h, Run(h, evs + more[..|more| - 1]), more[|more| - 1]);
    }
  }

  /** A List that succeeds returned, frame by frame, the whole list the backend gave for it. */
  lemma ListIsExact(h: Hasher, evs: seq<Event>, id: nat)
    requires var s := Run(h, evs); id in s.outcomes && s.outcomes[id].ok && s.outcomes[id].request.ListOf?
    ensures var s := Run(h, evs);
            && id in s.served && s.served[id].request == s.outcomes[id].request && s.served[id].answer.Listed?
            && s.outcomes[id].got == EntryFrames(s.served[id].answer.es) + [End]
  {
    RunInv(h, evs);
    hide Run;
    SuccessfulList(h, Run(h, evs).served[id]);
  }

  lemma SuccessfulList(h: Hasher, r: Reply)
    requires Legal(r) && r.request.ListOf? && Judge(h, r.request, r.frames) == Success
    ensures r.answer.Listed? && r.frames == EntryFrames(r.answer.es) + [End]
  {
    hide TotalSize, Size, FramesFit;
  }

  /** A ReadBlock that succeeds returned the backend's bytes for it, with the announced size and hash. */
  lemma BlockIsExact(h: Hasher, evs: seq<Event>, id: nat)
    requires var s := Run(h, evs); id in s.outcomes && s.outcomes[id].ok && s.outcomes[id].request.BlockOf?
    ensures var s := Run(h, evs);
            var b := s.outcomes[id].request.block;
            && id in s.served && s.served[id].request == s.outcomes[id].request && s.served[id].answer.Read?
            && var d := s.served[id].answer.data;
               s.outcomes[id].got == [BlockFollows, Data(d)] && |d| == b.size && h(d) == b.hash
  {
    RunInv(h, evs);
    hide Run;
    SuccessfulBlock(h, Run(h, evs).served[id]);
  }

  lemma SuccessfulBlock(h: Hasher, r: Reply)
    requires Legal(r) && r.request.BlockOf? && Judge(h, r.request, r.frames) == Success
    ensures r.answer.Read? && r.frames == [BlockFollows, Data(r.answer.data)]
    ensures |r.answer.data| == r.request.block.size && h(r.answer.data) == r.request.block.hash
  {}

  /** A call that waits for a server that waits for requests has its answer already on the way: the two
      never wait for each other. */
  lemma NoStall(h: Hasher, evs: seq<Event>)
    requires var s := Run(h, evs);
             s.gate.Some? && s.gate.value.got.Some? && s.server.Waiting? && s.toServer == []
    ensures Run(h, evs).toClient != []
  {
    RunInv(h, evs);
    var s := Run(h, evs);
    hide Run, Legal, Judge;
    var c := s.gate.value;
    var r := s.served[c.id];
    if s.toClient == [] {
      assert c.got.value == r.frames == r.frames[..|r.frames|];
      LegalHasFrames(r);
      RepliesEndWithTheirLastFrame(h, r, |r.frames|);
    }
  }

  lemma LegalHasFrames(r: Reply)
    requires Legal(r) && r.alive
    ensures r.frames != []
  {}

  /** What the caller asked for is there, is within the limits of both ends, and is what was announced. */
  ghost predicate Answered(h: Hasher, r: Reply) {
    match r.request
    case Greeting => true
    case ListOf(_) => r.answer.Listed? && Deliverable(r.answer.es)
    case BlockOf(_, _, _, b) => r.answer.Read? && |r.answer.data| == b.size && h(r.answer.data) == b.hash
  }

  /** The greeting of a new connection, or a request that keeps to the protocol after it. */
  ghost predicate InOrder(r: Reply) {
    match r.request
    case Greeting => !r.greeted
    case ListOf(f) => r.greeted && 0 < |f| <= 256
    case BlockOf(f, p, d, b) =>
      r.greeted && 0 < |f| <= 256 && |p| <= 4096 && 0 < b.size <= 262144 && b.offset >= 0 && |d| == 64 && |b.hash| == 64
  }

  /** A reply is accepted exactly if it answers the request. */
  lemma AnsweredIsAccepted(h: Hasher, r: Reply, k: nat)
    requires Legal(r) && InOrder(r) && 0 < k <= |r.frames|
    ensures Answered(h, r) ==> Judge(h, r.request, r.frames[..k]) == (if k == |r.frames| then Success else GoOn)
    ensures Judge(h, r.request, r.frames[..k]) == Success ==> Answered(h, r)
  {
    var part := r.frames[..k];
    assert part[k - 1] == r.frames[k - 1];
    if r.request.ListOf? && r.answer.Listed? {
      hide Size;
      ListAccepted(h, r, k);
    }
  }

  lemma ListAccepted(h: Hasher, r: Reply, k: nat)
    requires Legal(r) && InOrder(r) && 0 < k <= |r.frames| && r.request.ListOf? && r.answer.Listed?
    ensures Deliverable(r.answer.es) ==> Judge(h, r.request, r.frames[..k]) == (if k == |r.frames| then Success else GoOn)
    ensures Judge(h, r.request, r.frames[..k]) == Success ==> Deliverable(r.answer.es)
  {
    hide Size, TotalSize;
    var es := r.answer.es;
    var part := r.frames[..k];
    assert part[k - 1] == r.frames[k - 1];
    if r.alive && |es| <= MAX_LISTED {
      assert r.frames == EntryFrames(es) + [End];
      AppendSize(EntryFrames(es), End);
      EndSize();
      TotalSizePrefix(r.frames, k);
      assert r.frames[..|r.frames|] == r.frames;
      if k < |r.frames| {
        assert part == EntryFrames(es)[..k];
        TotalSizePrefix(EntryFrames(es), k);
      }
    }
  }

  ghost function RunFrom(h: Hasher, s: State, evs: seq<Event>): State {
    if evs == [] then s else Step(h, RunFrom(h, s, evs[..|evs| - 1]), evs[|evs| - 1])
  }

  /** A call under way with reply r, or over. */
  ghost predicate Attended(h: Hasher, s: State, id: nat, r: Reply) {
    && Inv(h, s) && id in s.served && s.served[id] == r
    && match s.gate
       case Some(c) => c.id == id && c.request == r.request && c.got.Some? && s.open && s.toServer == []
       case None => id in s.outcomes && s.outcomes[id].request == r.request && s.open == s.outcomes[id].ok
                    && if s.outcomes[id].ok then Answered(h, r) else !Answered(h, r)
  }

  lemma AttendedStep(h: Hasher, s: State, id: nat, r: Reply, ev: Event)
    requires Attended(h, s, id, r) && Legal(r) && InOrder(r) && (ev.Emit? || ev.Receive?)
    ensures Attended(h, Step(h, s, ev), id, r)
    ensures s.gate.None? ==> Step(h, s, ev).gate.None?
  {
    hide Legal, InOrder, Answered, Judge, Inv, DoReceive;
    StepInv(h, s, ev);
    if ev.Receive? && s.gate.Some? && s.toClient != [] {
      var c := s.gate.value;
      ReceivedIsPrefix(h, s);
      var got' := c.got.value + [s.toClient[0].1];
      AnsweredIsAccepted(h, r, |got'|);
      AttendedReceive(h, s, c, c.got.value, r);
    }
  }

  /** Receiving a frame leaves the call under way, or over with the verdict on what it has received. */
  lemma AttendedReceive(h: Hasher, s: State, c: Call, got: seq<Message>, r: Reply)
    requires s.toClient != [] && s.open && s.gate == Some(c) && c.got == Some(got)
    requires var v := Judge(h, c.request, got + [s.toClient[0].1]);
             (v == Success ==> Answered(h, r)) && (v == Refuse ==> !Answered(h, r))
    ensures var f := DoReceive(h, s, c, got);
            && f.served == s.served && f.toServer == s.toServer
            && match f.gate
               case Some(d) => d.id == c.id && d.request == c.request && d.got.Some? && f.open
               case None => c.id in f.outcomes && f.outcomes[c.id].request == c.request && f.open == f.outcomes[c.id].ok
                            && if f.outcomes[c.id].ok then Answered(h, r) else !Answered(h, r)
  {
    hide Judge, Answered;
  }

  /** What has been received, and the next frame, are a part of the reply. */
  lemma ReceivedIsPrefix(h: Hasher, s: State)
    requires Inv(h, s) && s.gate.Some? && s.gate.value.got.Some? && s.toClient != []
    ensures var c := s.gate.value;
            var got' := c.got.value + [s.toClient[0].1];
            c.id in s.served && 0 < |got'| <= |s.served[c.id].frames| && s.served[c.id].frames[..|got'|] == got'
  {
    hide Judge, Legal;
    var c := s.gate.value;
    var got := c.got.value;
    var got' := got + [s.toClient[0].1];
    assert got + Messages(s.toClient) == got' + Messages(s.toClient[1..]);
    assert got' <= s.served[c.id].frames;
  }

  /** The state in which a new call has been sent and its reply settled. */
  ghost function Asked(h: Hasher, s: State, q: Request, r: Reply): State {
    Step(h, Step(h, Step(h, s, Acquire(q)), Send), Take(r))
  }

  lemma AskedIs(h: Hasher, s: State, q: Request, r: Reply)
    requires Inv(h, s) && s.open && s.gate.None? && s.server == Waiting(r.greeted)
    requires Legal(r) && r.request == q
    ensures var a := Asked(h, s, q, r);
            && a.gate == Some(Call(s.next, q, Some([]))) && a.open && a.toServer == [] && a.toClient == []
            && a.server == (if r.frames == [] then Gone else Working(s.next, r.frames, r.alive))
            && s.next in a.served && a.served[s.next] == r && Inv(h, a)
  {
    StepInv(h, s, Acquire(q));
    StepInv(h, Step(h, s, Acquire(q)), Send);
    StepInv(h, Step(h, Step(h, s, Acquire(q)), Send), Take(r));
    hide Legal, Judge, HistoryOk;
  }

  lemma {:induction false} AttendedRun(h: Hasher, s: State, id: nat, r: Reply, more: seq<Event>)
    requires Attended(h, s, id, r) && Legal(r) && InOrder(r)
    requires forall i :: 0 <= i < |more| ==> more[i].Emit? || more[i].Receive?
    ensures Attended(h, RunFrom(h, s, more), id, r)
    ensures s.gate.None? ==> RunFrom(h, s, more).gate.None?
  {
    hide Attended, Legal, InOrder, Step;
    if more != [] {
      AttendedRun(h, s, id, r, more[..|more| - 1]);
      AttendedStep(h, RunFrom(h, s, more[..|more| - 1]), id, r, more[|more| - 1]);
    }
  }

  /** Calls are answered: from any state that a run reaches, with the session open, the gate free and the
      server waiting, a call whose request is in order and whose frames travel, in any order of sending
      and receiving, is over with success if and only if the backend gave what was asked for: a list that
      both ends' limits admit, or a block with the announced size and hash. The session stays open exactly
      then. */
  lemma CallIsAnswered(h: Hasher, evs: seq<Event>, q: Request, r: Reply, more: seq<Event>)
    requires var s := Run(h, evs); s.open && s.gate.None? && s.server == Waiting(r.greeted)
    requires Legal(r) && InOrder(r) && r.request == q
    requires forall i :: 0 <= i < |more| ==> more[i].Emit? || more[i].Receive?
    requires RunFrom(h, Asked(h, Run(h, evs), q, r), more).gate.None?
    ensures var id := Run(h, evs).next;
            var f := RunFrom(h, Asked(h, Run(h, evs), q, r), more);
            id in f.outcomes && (f.outcomes[id].ok <==> Answered(h, r)) && f.open == f.outcomes[id].ok
  {
    RunInv(h, evs);
    var s := Run(h, evs);
    hide Run, RunFrom, Legal, InOrder, Asked, Inv, Answered;
    AskedIs(h, s, q, r);
    AttendedRun(h, Asked(h, s, q, r), s.next, r, more);
  }

  function Rounds(n: nat): (evs: seq<Event>)
    ensures forall i :: 0 <= i < |evs| ==> evs[i].Emit? || evs[i].Receive?
  {
    if n == 0 then [] else Rounds(n - 1) + [Emit, Receive]
  }

  lemma RunTwo(h: Hasher, s: State, evs: seq<Event>, a: Event, b: Event)
    ensures RunFrom(h, s, evs + [a, b]) == Step(h, Step(h, RunFrom(h, s, evs), a), b)
  {
    hide Step;
    assert (evs + [a, b])[..|evs| + 1] == evs + [a] && (evs + [a])[..|evs|] == evs;
  }

  /** After k rounds of one frame sent and received, the call is over or has received k frames. */
  lemma {:induction false} AfterRounds(h: Hasher, s: State, q: Request, r: Reply, k: nat)
    requires Inv(h, s) && s.open && s.gate.None? && s.server == Waiting(r.greeted)
    requires Legal(r) && InOrder(r) && r.request == q && r.alive && k <= |r.frames|
    ensures var f := RunFrom(h, Asked(h, s, q, r), Rounds(k));
            f.gate.None? || (f.gate == Some(Call(s.next, q, Some(r.frames[..k]))) && f.toClient == []
                             && f.server == (if k == |r.frames| then Waiting(true) else Working(s.next, r.frames[k..], true)))
  {
    hide Legal, InOrder, Judge, Inv, Asked, Step, RunFrom;
    AskedIs(h, s, q, r);
    LegalHasFrames(r);
    if k == 0 {
      RunNone(h, Asked(h, s, q, r));
      assert r.frames[..0] == [] && r.frames[0..] == r.frames;
    } else {
      AfterRounds(h, s, q, r, k - 1);
      RunTwo(h, Asked(h, s, q, r), Rounds(k - 1), Emit, Receive);
      OneRound(h, RunFrom(h, Asked(h, s, q, r), Rounds(k - 1)), s.next, q, r, k - 1);
    }
  }

  lemma RunNone(h: Hasher, s: State)
    ensures RunFrom(h, s, []) == s
  {}

  lemma OneRound(h: Hasher, f: State, id: nat, q: Request, r: Reply, k: nat)
    requires k < |r.frames| && r.alive
    requires f.gate.None? || (f.gate == Some(Call(id, q, Some(r.frames[..k]))) && f.toClient == []
                              && f.server == Working(id, r.frames[k..], true))
    ensures var g := Step(h, Step(h, f, Emit), Receive);
            g.gate.None? || (g.gate == Some(Call(id, q, Some(r.frames[..k + 1]))) && g.toClient == []
                             && g.server == (if k + 1 == |r.frames| then Waiting(true) else Working(id, r.frames[k + 1..], true)))
  {
    hide Judge, Legal;
    if f.gate.Some? {
      var e := Step(h, f, Emit);
      assert e.toClient == [(id, r.frames[k])];
      assert r.frames[..k] + [r.frames[k]] == r.frames[..k + 1];
      assert r.frames[k..][1..] == r.frames[k + 1..];
    }
  }

  /** And such a call does get to its end: once a reply that keeps the server has been sent and received frame
      by frame, the call is over. */
  lemma CallEnds(h: Hasher, evs: seq<Event>, q: Request, r: Reply)
    requires var s := Run(h, evs); s.open && s.gate.None? && s.server == Waiting(r.greeted)
    requires Legal(r) && InOrder(r) && r.request == q && r.alive
    ensures RunFrom(h, Asked(h, Run(h, evs), q, r), Rounds(|r.frames|)).gate.None?
  {
    RunInv(h, evs);
    var s := Run(h, evs);
    var n := |r.frames|;
    AfterRounds(h, s, q, r, n);
    AskedIs(h, s, q, r);
    LegalHasFrames(r);
    hide Run, Asked, Judge;
    AttendedRun(h, Asked(h, s, q, r), s.next, r, Rounds(n));
    RepliesEndWithTheirLastFrame(h, r, n);
    assert r.frames[..n] == r.frames;
  }

  /** A new connection is greeted. */
  lemma GreetingSucceeds(h: Hasher)
    ensures var r := Reply(false, Greeting, Refused, [Hello(VERSION)], true);
            var f := RunFrom(h, Asked(h, START, Greeting, r), Rounds(1));
            f.gate.None? && f.open && 0 in f.outcomes && f.outcomes[0].ok
  {
    var r := Reply(false, Greeting, Refused, [Hello(VERSION)], true);
    assert Run(h, []) == START;
    CallEnds(h, [], Greeting, r);
    CallIsAnswered(h, [], Greeting, r, Rounds(1));
  }

  /** A call that is withdrawn before anything was sent leaves an open session open and free. */
  lemma WithdrawalIsHarmless(h: Hasher, s: State)
    requires s.gate.Some? && s.gate.value.got.None?
    ensures var s' := Step(h, s, Withdraw);
            s'.gate.None? && s'.open == s.open && s'.toServer == s.toServer && s'.toClient == s.toClient && s'.server == s.server
  {}

  /** A closed connection stays closed. */
  lemma CloseIsFinal(h: Hasher, evs: seq<Event>, more: seq<Event>)
    ensures !Run(h, evs + [Close] + more).open
  {
    assert (evs + [Close])[..|evs|] == evs;
    assert !Run(h, evs + [Close]).open;
    ClosedStays(h, evs + [Close], more);
  }
}
