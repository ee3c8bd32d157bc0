/** How a finished session reaches the client, as a state machine over the steps of one client and one
    server (internal/server/nocc-server.go, internal/server/session.go, internal/client/files-receiving.go,
    internal/client/daemon.go). Every step is one send, one receive, one channel operation or one event
    of the network; they interleave in any order. */
module Delivery {
  import opened Wrappers

  type SessionID = nat
  type StreamID = nat

  /** A reply on a receive stream: one of the chunks of a session's result. The reply for a compile error
      is a last chunk of its own. */
  datatype Chunk = Chunk(session: SessionID, last: bool)

  /** The stream the client reads now. `wire` is what was sent and not received yet; `broken`: the transport
      is gone; `ended`: the server ended the stream, with a trailer naming a session or without;
      `partial`: the session whose chunks are being received. */
  datatype Reading = Reading(id: StreamID, wire: seq<Chunk>, broken: bool, ended: Option<Option<SessionID>>,
                             partial: Option<SessionID>)

  const READY_CHANNEL_SIZE := 200

  datatype State = State(
    // the client
    known: set<SessionID>,             // every invocation there was, by its session
    waiting: set<SessionID>,           // those waiting for their result
    reading: Option<Reading>,
    remoteDown: bool,
    // the server
    requested: set<SessionID>,         // asked for by StartCompilationSession, which is under way
    working: set<SessionID>,           // waiting for uploads, or being compiled
    pending: set<SessionID>,           // about to be pushed to the ready channel
    ready: seq<SessionID>,             // the ready channel
    held: map<SessionID, StreamID>,    // taken from the channel by a stream's handler
    closed: set<SessionID>,
    failed: set<SessionID>,            // given up by a handler that could not send them
    running: set<StreamID>,            // handlers of receive streams
    cancelled: set<StreamID>,          // streams whose end the server has noticed
    sent: seq<SessionID>,              // sessions sent completely, in order
    objFiles: set<SessionID>,          // compiled object files that exist
    fromCache: set<SessionID>,         // sessions served from the object cache
    nextStream: StreamID
  )

  const INITIAL := State({}, {}, None, false, {}, {}, {}, [], map[], {}, {}, {}, {}, [], {}, {}, 0)

  /** promptCancel: a stream that broke, or that the client cancelled, is noticed by the server at once.
      emptyObjects: an object file without a byte, and without notes, may occur. */
  datatype Config = Config(promptCancel: bool, emptyObjects: bool)

  datatype Step =
    | Invoke(sid: SessionID)
    | GiveUp(sid: SessionID)                     // refused, interrupted by timeout, or the reply got lost
    | ServerStart(sid: SessionID, cacheHit: bool)
    | ServerRefuse(sid: SessionID)
    | Compiled(sid: SessionID)
    | Push(sid: SessionID)
    | Take(id: StreamID)
    | SendChunk(id: StreamID, last: bool)
    | SendNothing(id: StreamID)
    | FailSession(id: StreamID)                  // compiler killed, or no .gcno
    | SendError(id: StreamID)
    | EndQuietly(id: StreamID)
    | NoticeCancel(id: StreamID)
    | OpenStream
    | RemoteLost
    | Break(kept: nat)                           // the transport breaks; so much of the wire still arrives
    | Receive
    | ReceiveEnd

  predicate Idle(s: State, id: StreamID) { id in s.running && id !in s.held.Values }

  predicate Holds(s: State, id: StreamID) { id in s.running && id in s.held.Values }

  ghost function Held(s: State, id: StreamID): (x: SessionID)
    requires Holds(s, id)
    ensures x in s.held && s.held[x] == id
  {
    var x :| x in s.held && s.held[x] == id; x
  }

  ghost predicate Enabled(c: Config, s: State, step: Step) {
    match step
    case Invoke(sid) => sid !in s.known && !s.remoteDown
    case GiveUp(sid) => sid in s.waiting
    case ServerStart(sid, _) => sid in s.requested
    case ServerRefuse(sid) => sid in s.requested
    case Compiled(sid) => sid in s.working
    case Push(sid) => sid in s.pending && |s.ready| < READY_CHANNEL_SIZE
    case Take(id) => Idle(s, id) && s.ready != []
    case SendChunk(id, _) => Holds(s, id)
    case SendNothing(id) => Holds(s, id) && c.emptyObjects
    case FailSession(id) => Holds(s, id)
    case SendError(id) => Holds(s, id) && id !in s.cancelled
    case EndQuietly(id) => Idle(s, id) && id in s.cancelled
    case NoticeCancel(id) => id in s.running && !Live(s, id)
    case OpenStream => s.reading.None? && !s.remoteDown
    case RemoteLost => true
    case Break(kept) => s.reading.Some? && kept <= |s.reading.value.wire|
    case Receive => s.reading.Some? && s.reading.value.wire != []
    case ReceiveEnd =>
      s.reading.Some? && s.reading.value.wire == [] && (s.reading.value.broken || s.reading.value.ended.Some?)
  }

  /** The client reads this stream, over a working transport. */
  predicate Live(s: State, id: StreamID) { s.reading.Some? && s.reading.value.id == id && !s.reading.value.broken }

  // ---------------------------------------------------------------- the server's steps

  /** giveBack, and the handler's return. */
  function GiveBack(s: State, x: SessionID, id: StreamID): State {
    Ended(s.(held := s.held - {x}, pending := s.pending + {x}), id, None)
  }

  /** The handler returns; a trailer reaches the client only over a working transport. */
  function Ended(s: State, id: StreamID, trailer: Option<SessionID>): State {
    var s' := s.(running := s.running - {id});
    if Live(s, id) then s'.(reading := Some(s.reading.value.(ended := Some(trailer)))) else s'
  }

  /** CloseSession: the object file goes, unless it belongs to the object cache. */
  function Close(s: State, x: SessionID): State {
    s.(held := s.held - {x}, closed := s.closed + {x},
       objFiles := if x in s.fromCache then s.objFiles else s.objFiles - {x})
  }

  function OnWire(s: State, id: StreamID, c: Chunk): State {
    if Live(s, id) then s.(reading := Some(s.reading.value.(wire := s.reading.value.wire + [c]))) else s
  }

  function AfterTake(s: State, id: StreamID): State
    requires s.ready != []
  {
    var x, taken := s.ready[0], s.(ready := s.ready[1..]);
    if id in s.cancelled then Ended(taken.(pending := taken.pending + {x}), id, None)
    else taken.(held := taken.held[x := id])
  }

  function AfterSend(s: State, id: StreamID, x: SessionID, last: bool): State {
    if id in s.cancelled then GiveBack(s, x, id)
    else
      var on := OnWire(s, id, Chunk(x, last));
      if last then Close(on, x).(sent := on.sent + [x]) else on
  }

  // ---------------------------------------------------------------- the client's steps

  /** The client cancels the stream it gave up on; the server notices at once, or not. */
  function Cancel(c: Config, s: State, id: StreamID): State {
    if c.promptCancel then s.(cancelled := s.cancelled + {id}) else s
  }

  /** RecreateReceiveStreamOrQuit up to the new stream; if objects may be lost, every invocation fails. */
  function GiveUpStream(c: Config, s: State, released: set<SessionID>): State
    requires s.reading.Some?
  {
    Cancel(c, s.(reading := None, waiting := s.waiting - released), s.reading.value.id)
  }

  function AfterReceive(c: Config, s: State): State
    requires s.reading.Some? && s.reading.value.wire != []
  {
    var r := s.reading.value;
    var chunk := r.wire[0];
    if r.partial.Some? && r.partial.value != chunk.session then GiveUpStream(c, s, s.waiting)  // chunks mismatch
    else if chunk.last then
      s.(waiting := s.waiting - {chunk.session}, reading := Some(r.(wire := r.wire[1..], partial := None)))
    else s.(reading := Some(r.(wire := r.wire[1..], partial := Some(chunk.session))))
  }

  function AfterEnd(c: Config, s: State): State
    requires s.reading.Some?
  {
    var r := s.reading.value;
    if !r.broken && r.partial.None? && r.ended.Some? && r.ended.value.Some?
    then GiveUpStream(c, s, {r.ended.value.value})
    else GiveUpStream(c, s, s.waiting)
  }

  ghost function Apply(c: Config, s: State, step: Step): State
    requires Enabled(c, s, step)
  {
    match step
    case Invoke(sid) => s.(known := s.known + {sid}, waiting := s.waiting + {sid}, requested := s.requested + {sid})
    case GiveUp(sid) => s.(waiting := s.waiting - {sid})
    case ServerStart(sid, hit) =>
      var s' := s.(requested := s.requested - {sid});
      if hit then s'.(pending := s.pending + {sid}, fromCache := s.fromCache + {sid})
      else s'.(working := s.working + {sid})
    case ServerRefuse(sid) =>
      s.(requested := s.requested - {sid}, failed := s.failed + {sid}, waiting := s.waiting - {sid})
    case Compiled(sid) =>
      s.(working := s.working - {sid}, pending := s.pending + {sid}, objFiles := s.objFiles + {sid})
    case Push(sid) => s.(pending := s.pending - {sid}, ready := s.ready + [sid])
    case Take(id) => AfterTake(s, id)
    case SendChunk(id, last) => AfterSend(s, id, Held(s, id), last)
    case SendNothing(id) => var x := Held(s, id); Close(s, x).(sent := s.sent + [x])
    case FailSession(id) => var x := Held(s, id); Ended(Close(s, x), id, Some(x))
    case SendError(id) =>
      var x := Held(s, id);
      Ended(s.(held := s.held - {x}, failed := s.failed + {x}), id, Some(x))
    case EndQuietly(id) => Ended(s, id, None)
    case NoticeCancel(id) => s.(cancelled := s.cancelled + {id})
    case OpenStream =>
      s.(reading := Some(Reading(s.nextStream, [], false, None, None)), running := s.running + {s.nextStream},
         nextStream := s.nextStream + 1)
    case RemoteLost =>
      if s.reading.Some? then GiveUpStream(c, s.(remoteDown := true), s.waiting)
      else s.(remoteDown := true, waiting := {})
    case Break(kept) =>
      var r := s.reading.value;
      Cancel(c, s.(reading := Some(r.(wire := r.wire[..kept], broken := true))), r.id)
    case Receive => AfterReceive(c, s)
    case ReceiveEnd => AfterEnd(c, s)
  }

  // ---------------------------------------------------------------- conservation

  /** In how many places the server has a session. */
  ghost function Places(s: State, x: SessionID): nat {
    (if x in s.requested then 1 else 0) + (if x in s.working then 1 else 0) + (if x in s.pending then 1 else 0)
    + multiset(s.ready)[x] + (if x in s.held then 1 else 0) + (if x in s.closed then 1 else 0)
    + (if x in s.failed then 1 else 0)
  }

  /** Every session is in exactly one place. */
  ghost predicate OnePlace(s: State) { forall x :: Places(s, x) == if x in s.known then 1 else 0 }

  /** A handler holds one session at most; only running handlers hold any. */
  ghost predicate Handlers(s: State) {
    && (forall x, y :: x in s.held && y in s.held && s.held[x] == s.held[y] ==> x == y)
    && (forall x :: x in s.held ==> s.held[x] in s.running)
    && (forall id :: id in s.running ==> id < s.nextStream)
    && |s.ready| <= READY_CHANNEL_SIZE
  }

  /** What was sent completely was sent once, and is closed. */
  ghost predicate SentOnce(s: State) {
    && (forall i, j :: 0 <= i < j < |s.sent| ==> s.sent[i] != s.sent[j])
    && (forall i :: 0 <= i < |s.sent| ==> s.sent[i] in s.closed)
  }

  /** The object file of a session that may still be taken, sent or given back exists, unless it is the cache's. */
  ghost predicate ObjectsExist(s: State) {
    forall x :: x in s.pending || x in s.ready || x in s.held ==> x in s.objFiles || x in s.fromCache
  }

  ghost predicate Conserved(s: State) { OnePlace(s) && Handlers(s) && SentOnce(s) && ObjectsExist(s) }

  lemma InReady(s: State, x: SessionID)
    ensures x in s.ready <==> multiset(s.ready)[x] > 0
  {
  }

  lemma TakeFirst<T>(q: seq<T>)
    requires q != []
    ensures multiset(q) == multiset{q[0]} + multiset(q[1..])
    ensures forall y :: y in q[1..] ==> y in q
  {
    assert q == [q[0]] + q[1..];
  }

  lemma OthersStay(s: State, id: StreamID, y: SessionID)
    requires s.ready != [] && y != s.ready[0]
    ensures Places(AfterTake(s, id), y) == Places(s, y)
  {
    TakeFirst(s.ready);
  }

  lemma TakenMoves(s: State, id: StreamID, y: SessionID)
    requires s.ready != [] && y == s.ready[0] && Places(s, y) == 1
    ensures Places(AfterTake(s, id), y) == 1
  {
    TakeFirst(s.ready);
    assert y !in s.pending && y !in s.held;
  }

  lemma PlacesAfterTake(s: State, id: StreamID)
    requires OnePlace(s) && s.ready != []
    ensures OnePlace(AfterTake(s, id))
  {
    TakeFirst(s.ready);
    assert AfterTake(s, id).known == s.known && Places(s, s.ready[0]) == 1;
    forall y ensures Places(AfterTake(s, id), y) == Places(s, y) {
      if y == s.ready[0] { TakenMoves(s, id, y); } else { OthersStay(s, id, y); }
    }
  }

  lemma ConservedTake(s: State, id: StreamID)
    requires Conserved(s) && Idle(s, id) && s.ready != []
    ensures Conserved(AfterTake(s, id))
  {
    PlacesAfterTake(s, id);
    hide OnePlace;
    TakeFirst(s.ready);
  }

  lemma ConservedGiveBack(s: State, x: SessionID, id: StreamID)
    requires Conserved(s) && x in s.held && s.held[x] == id
    ensures Conserved(GiveBack(s, x, id))
  {
    assert Places(s, x) <= 1;
  }

  lemma ConservedClose(s: State, x: SessionID)
    requires Conserved(s) && x in s.held
    ensures Conserved(Close(s, x)) && x !in s.sent
    ensures forall y :: y in Close(s, x).held ==> Close(s, x).held[y] != s.held[x]
  {
    assert Places(s, x) <= 1;
    InReady(s, x);
  }

  /** Closing a session after its last chunk. */
  lemma ConservedSent(s: State, x: SessionID)
    requires Conserved(s) && x in s.held
    ensures Conserved(Close(s, x).(sent := s.sent + [x]))
  {
    ConservedClose(s, x);
  }

  lemma ConservedFail(s: State, x: SessionID)
    requires Conserved(s) && x in s.held
    ensures Conserved(s.(held := s.held - {x}, failed := s.failed + {x}))
  {
    assert Places(s, x) <= 1;
  }

  lemma ConservedEnded(s: State, id: StreamID, trailer: Option<SessionID>)
    requires Conserved(s) && forall x :: x in s.held ==> s.held[x] != id
    ensures Conserved(Ended(s, id, trailer))
  {
  }

  lemma ConservedSend(c: Config, s: State, id: StreamID, last: bool)
    requires Conserved(s) && Holds(s, id)
    ensures Conserved(AfterSend(s, id, Held(s, id), last))
  {
    hide OnePlace, Handlers, SentOnce, ObjectsExist;
    var x := Held(s, id);
    if id in s.cancelled {
      ConservedGiveBack(s, x, id);
    } else {
      var on := OnWire(s, id, Chunk(x, last));
      SameServer(s, on);
      ConservedSent(on, x);
    }
  }

  /** Nothing of the above depends on the client. */
  lemma SameServer(s: State, s': State)
    requires Conserved(s)
    requires s'.known == s.known && s'.requested == s.requested && s'.working == s.working && s'.pending == s.pending
    requires s'.ready == s.ready && s'.held == s.held && s'.closed == s.closed && s'.failed == s.failed
    requires s'.running == s.running && s'.sent == s.sent && s'.objFiles == s.objFiles && s'.fromCache == s.fromCache
    requires s'.nextStream == s.nextStream
    ensures Conserved(s')
  {
    assert forall x :: Places(s', x) == Places(s, x);
  }

  predicate Moves(step: Step) { step.Invoke? || step.ServerStart? || step.ServerRefuse? || step.Compiled? }

  /** Such a step touches one session. */
  lemma OthersPlaces(c: Config, s: State, step: Step, x: SessionID)
    requires Enabled(c, s, step) && Moves(step) && x != step.sid
    ensures Places(Apply(c, s, step), x) == Places(s, x)
    ensures x in Apply(c, s, step).known <==> x in s.known
  {
    match step {
      case Invoke(_) =>
      case ServerStart(_, _) =>
      case ServerRefuse(_) =>
      case Compiled(_) =>
    }
  }

  lemma MovedPlaces(c: Config, s: State, step: Step)
    requires Enabled(c, s, step) && Moves(step) && Places(s, step.sid) == if step.sid in s.known then 1 else 0
    ensures Places(Apply(c, s, step), step.sid) == 1 && step.sid in Apply(c, s, step).known
  {
    match step {
      case Invoke(_) =>
      case ServerStart(_, _) =>
      case ServerRefuse(_) =>
      case Compiled(_) =>
    }
  }

  lemma ConservedMove(c: Config, s: State, step: Step)
    requires Conserved(s) && Enabled(c, s, step) && Moves(step)
    ensures Conserved(Apply(c, s, step))
  {
    var s' := Apply(c, s, step);
    assert OnePlace(s') by {
      hide Apply, Places, Handlers, SentOnce, ObjectsExist, Enabled;
      assert Places(s, step.sid) == if step.sid in s.known then 1 else 0;
      forall x ensures Places(s', x) == if x in s'.known then 1 else 0 {
        if x == step.sid { MovedPlaces(c, s, step); } else { OthersPlaces(c, s, step, x); }
      }
    }
    hide OnePlace, Places;
  }

  lemma ConservedPush(c: Config, s: State, step: Step)
    requires Conserved(s) && Enabled(c, s, step) && step.Push?
    ensures Conserved(Apply(c, s, step))
  {
    assert Places(s, step.sid) <= 1;
    assert multiset(s.ready + [step.sid]) == multiset(s.ready) + multiset{step.sid};
  }

  lemma ConservedOpen(c: Config, s: State)
    requires Conserved(s) && Enabled(c, s, OpenStream)
    ensures Conserved(Apply(c, s, OpenStream))
  {
  }

  lemma ConservedStep(c: Config, s: State, step: Step)
    requires Conserved(s) && Enabled(c, s, step)
    ensures Conserved(Apply(c, s, step))
  {
    hide OnePlace, Handlers, SentOnce, ObjectsExist;
    match step {
      case Invoke(_) => ConservedMove(c, s, step);
      case ServerStart(_, _) => ConservedMove(c, s, step);
      case ServerRefuse(_) => ConservedMove(c, s, step);
      case Compiled(_) => ConservedMove(c, s, step);
      case Push(_) => ConservedPush(c, s, step);
      case Take(id) => ConservedTake(s, id);
      case SendChunk(id, last) => ConservedSend(c, s, id, last);
      case SendNothing(id) => ConservedSent(s, Held(s, id));
      case FailSession(id) =>
        ConservedClose(s, Held(s, id));
        ConservedEnded(Close(s, Held(s, id)), id, Some(Held(s, id)));
      case SendError(id) =>
        ConservedFail(s, Held(s, id));
        HeldOnce(s, id);
        ConservedEnded(s.(held := s.held - {Held(s, id)}, failed := s.failed + {Held(s, id)}), id, Some(Held(s, id)));
      case EndQuietly(id) => ConservedEnded(s, id, None);
      case OpenStream => ConservedOpen(c, s);
      case _ => SameServer(s, Apply(c, s, step));
    }
  }

  lemma HeldOnce(s: State, id: StreamID)
    requires Handlers(s) && Holds(s, id)
    ensures forall x :: x in s.held && x != Held(s, id) ==> s.held[x] != id
  {
  }

  // ---------------------------------------------------------------- runs

  ghost predicate ValidRun(c: Config, s: State, steps: seq<Step>)
    decreases |steps|
  {
    steps == [] || (Enabled(c, s, steps[0]) && ValidRun(c, Apply(c, s, steps[0]), steps[1..]))
  }

  ghost function After(c: Config, s: State, steps: seq<Step>): State
    requires ValidRun(c, s, steps)
    decreases |steps|
  {
    if steps == [] then s else After(c, Apply(c, s, steps[0]), steps[1..])
  }

  /** Whatever happens, however late the server notices a dead stream, every session stays in one place. */
  lemma {:induction false} AlwaysConserved(c: Config, s: State, steps: seq<Step>)
    requires Conserved(s) && ValidRun(c, s, steps)
    ensures Conserved(After(c, s, steps))
    decreases |steps|
  {
    hide OnePlace, Handlers, SentOnce, ObjectsExist;
    if steps != [] {
      ConservedStep(c, s, steps[0]);
      AlwaysConserved(c, Apply(c, s, steps[0]), steps[1..]);
    }
  }

  lemma SessionConservation(c: Config, steps: seq<Step>)
    requires ValidRun(c, INITIAL, steps)
    ensures Conserved(After(c, INITIAL, steps))
  {
    assert forall x :: Places(INITIAL, x) == 0;
    AlwaysConserved(c, INITIAL, steps);
  }

  // ---------------------------------------------------------------- nobody waits in vain

  /** The client will learn what became of this session from the stream it reads: the last chunk is on the
      wire, or the stream ends in a way that fails this invocation. */
  predicate Coming(s: State, x: SessionID) {
    && s.reading.Some?
    && var r := s.reading.value;
       || Chunk(x, true) in r.wire
       || r.broken
       || (r.ended.Some? && (r.ended.value.None? || r.ended.value.value == x))
  }

  /** No invocation waits for a session the server is done with, unless its outcome is on the way. */
  predicate NoneForgotten(s: State) {
    forall x :: x in s.waiting && (x in s.closed || x in s.failed) ==> Coming(s, x)
  }

  /** What makes it so: handlers of streams nobody reads are cancelled, and no invocation waits for what they hold. */
  predicate Streams(s: State) {
    && (forall id :: id in s.running ==> id in s.cancelled || Live(s, id))
    && (s.reading.Some? ==>
          && s.reading.value.id < s.nextStream
          && (s.reading.value.ended.Some? ==> s.reading.value.id !in s.running)
          && (s.reading.value.id in s.running || s.reading.value.broken || s.reading.value.ended.Some?))
    && (forall x :: x in s.held && x in s.waiting ==> s.reading.Some? && s.reading.value.id == s.held[x])
    && s.waiting <= s.known
    && (s.remoteDown ==> s.waiting == {})
  }

  ghost predicate Inv(s: State) { Conserved(s) && Streams(s) && NoneForgotten(s) }

  const PROMPT := Config(true, false)

  lemma HandlerStep(s: State, step: Step)
    requires Handlers(s) && Streams(s) && NoneForgotten(s) && Enabled(PROMPT, s, step)
    requires step.Take? || step.EndQuietly? || step.NoticeCancel?
    ensures Streams(Apply(PROMPT, s, step)) && NoneForgotten(Apply(PROMPT, s, step))
  {
  }

  lemma SenderStep(s: State, step: Step)
    requires Handlers(s) && Streams(s) && NoneForgotten(s) && Enabled(PROMPT, s, step)
    requires step.SendChunk? || step.FailSession? || step.SendError?
    ensures Streams(Apply(PROMPT, s, step)) && NoneForgotten(Apply(PROMPT, s, step))
  {
  }

  lemma ClientStep(s: State, step: Step)
    requires Handlers(s) && Streams(s) && NoneForgotten(s) && Enabled(PROMPT, s, step)
    requires step.OpenStream? || step.Receive? || step.ReceiveEnd?
    ensures Streams(Apply(PROMPT, s, step)) && NoneForgotten(Apply(PROMPT, s, step))
  {
  }

  lemma NetworkStep(s: State, step: Step)
    requires Handlers(s) && Streams(s) && NoneForgotten(s) && Enabled(PROMPT, s, step)
    requires step.RemoteLost? || step.Break? || step.GiveUp?
    ensures Streams(Apply(PROMPT, s, step)) && NoneForgotten(Apply(PROMPT, s, step))
  {
  }

  lemma CompileStep(s: State, step: Step)
    requires Conserved(s) && Streams(s) && NoneForgotten(s) && Enabled(PROMPT, s, step)
    requires step.Invoke? || step.ServerStart? || step.ServerRefuse? || step.Compiled? || step.Push?
    ensures Streams(Apply(PROMPT, s, step)) && NoneForgotten(Apply(PROMPT, s, step))
  {
    if step.Invoke? { assert Places(s, step.sid) == 0; }
  }

  lemma InvStep(s: State, step: Step)
    requires Inv(s) && Enabled(PROMPT, s, step)
    ensures Inv(Apply(PROMPT, s, step))
  {
    hide OnePlace, Handlers, SentOnce, ObjectsExist, Streams, NoneForgotten;
    ConservedStep(PROMPT, s, step);
    if step.Take? || step.EndQuietly? || step.NoticeCancel? {
      HandlerStep(s, step);
    } else if step.SendChunk? || step.FailSession? || step.SendError? {
      SenderStep(s, step);
    } else if step.OpenStream? || step.Receive? || step.ReceiveEnd? {
      ClientStep(s, step);
    } else if step.RemoteLost? || step.Break? || step.GiveUp? {
      NetworkStep(s, step);
    } else {
      CompileStep(s, step);
    }
  }

  lemma {:induction false} InvRun(s: State, steps: seq<Step>)
    requires Inv(s) && ValidRun(PROMPT, s, steps)
    ensures Inv(After(PROMPT, s, steps))
    decreases |steps|
  {
    hide Inv;
    if steps != [] {
      InvStep(s, steps[0]);
      InvRun(Apply(PROMPT, s, steps[0]), steps[1..]);
    }
  }

  /** In every run in which a cancelled stream ends at once, and every object has a byte to send. */
  lemma NobodyWaitsInVain(steps: seq<Step>)
    requires ValidRun(PROMPT, INITIAL, steps)
    ensures var s := After(PROMPT, INITIAL, steps);
            forall x :: x in s.waiting && (x in s.closed || x in s.failed) ==> Coming(s, x)
    ensures Inv(After(PROMPT, INITIAL, steps))
  {
    assert forall x :: Places(INITIAL, x) == 0;
    InvRun(INITIAL, steps);
  }

  // ---------------------------------------------------------------- and it does come

  function IndexOf(wire: seq<Chunk>, c: Chunk): (i: nat)
    ensures i <= |wire| && (i < |wire| <==> c in wire)
    ensures i < |wire| ==> wire[i] == c
  {
    if wire == [] || wire[0] == c then 0 else 1 + IndexOf(wire[1..], c)
  }

  /** After so many receives at the latest this invocation is told. */
  function Distance(s: State, x: SessionID): (d: nat)
    requires s.reading.Some?
    ensures d > 0
  {
    IndexOf(s.reading.value.wire, Chunk(x, true)) + 1
  }

  predicate Receives(step: Step) { step.Receive? || step.ReceiveEnd? }

  function CountReceives(steps: seq<Step>): nat {
    if steps == [] then 0 else (if Receives(steps[0]) then 1 else 0) + CountReceives(steps[1..])
  }

  /** The client can always go on reading. */
  lemma ReceiveEnabled(c: Config, s: State, x: SessionID)
    requires Coming(s, x)
    ensures Enabled(c, s, Receive) || Enabled(c, s, ReceiveEnd)
  {
  }

  lemma {:induction false} IndexOfTaken(wire: seq<Chunk>, kept: nat, c: Chunk)
    requires kept <= |wire|
    ensures IndexOf(wire[..kept], c) <= IndexOf(wire, c)
  {
    if kept == 0 {
      assert wire[..0] == [];
    } else if wire[0] != c {
      assert wire[..kept][1..] == wire[1..][..kept - 1];
      IndexOfTaken(wire[1..], kept - 1, c);
    }
  }

  lemma {:induction false} IndexOfMore(wire: seq<Chunk>, more: seq<Chunk>, c: Chunk)
    requires c in wire
    ensures IndexOf(wire + more, c) == IndexOf(wire, c)
  {
    if wire[0] != c {
      assert (wire + more)[1..] == wire[1..] + more;
      IndexOfMore(wire[1..], more, c);
    }
  }

  /** A step of the server or of the network does not lose the news. */
  lemma NotLost(s: State, step: Step, x: SessionID)
    requires Handlers(s) && Streams(s) && Enabled(PROMPT, s, step) && Coming(s, x) && !Receives(step)
    requires x in Apply(PROMPT, s, step).waiting
    ensures Coming(Apply(PROMPT, s, step), x) && Distance(Apply(PROMPT, s, step), x) <= Distance(s, x)
  {
    var wire := s.reading.value.wire;
    if step.Break? {
      IndexOfTaken(wire, step.kept, Chunk(x, true));
    } else if step.SendChunk? {
      var sent := [Chunk(Held(s, step.id), step.last)];
      if Chunk(x, true) in wire { IndexOfMore(wire, sent, Chunk(x, true)); }
    }
  }

  /** Every receive brings it closer, or delivers it. */
  lemma Closer(s: State, step: Step, x: SessionID)
    requires Enabled(PROMPT, s, step) && Coming(s, x) && Receives(step)
    requires x in Apply(PROMPT, s, step).waiting
    ensures Coming(Apply(PROMPT, s, step), x) && Distance(Apply(PROMPT, s, step), x) < Distance(s, x)
  {
  }

  /** A released invocation waits no more. */
  lemma {:induction false} StaysReleased(c: Config, s: State, steps: seq<Step>, x: SessionID)
    requires ValidRun(c, s, steps) && x in s.known && x !in s.waiting
    ensures x !in After(c, s, steps).waiting
    decreases |steps|
  {
    if steps != [] {
      ReleasedStep(c, s, steps[0], x);
      StaysReleased(c, Apply(c, s, steps[0]), steps[1..], x);
    }
  }

  lemma ReleasedStep(c: Config, s: State, step: Step, x: SessionID)
    requires Enabled(c, s, step) && x in s.known
    ensures x in Apply(c, s, step).known && (x in Apply(c, s, step).waiting ==> x in s.waiting)
  {
  }

  /** However the run goes on, after Distance receives the invocation has been told. */
  lemma {:induction false} Told(s: State, steps: seq<Step>, x: SessionID)
    requires Inv(s) && x in s.waiting && Coming(s, x)
    requires ValidRun(PROMPT, s, steps) && CountReceives(steps) >= Distance(s, x)
    ensures x !in After(PROMPT, s, steps).waiting
    decreases |steps|
  {
    hide OnePlace, SentOnce, ObjectsExist, Handlers, NoneForgotten, Coming, Distance;
    var step, s' := steps[0], Apply(PROMPT, s, steps[0]);
    ReleasedStep(PROMPT, s, step, x);
    if x !in s'.waiting {
      StaysReleased(PROMPT, s', steps[1..], x);
    } else {
      if Receives(step) { Closer(s, step, x); } else { NotLost(s, step, x); }
      InvStep(s, step);
      Told(s', steps[1..], x);
    }
  }

  /** Together: in any reachable state, an invocation whose session the server is done with can read on, and
      is released by the next Distance receives, whatever else happens between them. */
  lemma EveryInvocationIsTold(before: seq<Step>, x: SessionID, later: seq<Step>)
    requires ValidRun(PROMPT, INITIAL, before)
    requires var s := After(PROMPT, INITIAL, before);
             && x in s.waiting && (x in s.closed || x in s.failed)
    ensures var s := After(PROMPT, INITIAL, before);
            && (Enabled(PROMPT, s, Receive) || Enabled(PROMPT, s, ReceiveEnd))
            && s.reading.Some?
            && (ValidRun(PROMPT, s, later) && CountReceives(later) >= Distance(s, x) ==>
                  x !in After(PROMPT, s, later).waiting)
  {
    hide Inv;
    NobodyWaitsInVain(before);
    var s := After(PROMPT, INITIAL, before);
    ReceiveEnabled(PROMPT, s, x);
    if ValidRun(PROMPT, s, later) && CountReceives(later) >= Distance(s, x) {
      Told(s, later, x);
    }
  }

  // ---------------------------------------------------------------- and is told nothing else

  /** This step tells an invocation: by its own news, or because everything on the stream is lost. */
  predicate Tells(s: State, step: Step, x: SessionID) {
    match step
    case GiveUp(sid) => sid == x
    case ServerRefuse(sid) => sid == x
    case RemoteLost => true
    case Receive =>
      && s.reading.Some? && s.reading.value.wire != []
      && var partial, chunk := s.reading.value.partial, s.reading.value.wire[0];
         if partial.Some? && partial.value != chunk.session then true else chunk == Chunk(x, true)
    case ReceiveEnd =>
      && s.reading.Some?
      && var r := s.reading.value;
         r.broken || r.partial.Some? || r.ended == Some(None) || r.ended == Some(Some(x))
    case _ => false
  }

  ghost predicate ToldIn(c: Config, s: State, steps: seq<Step>, x: SessionID)
    requires ValidRun(c, s, steps)
    decreases |steps|
  {
    steps != [] && (Tells(s, steps[0], x) || ToldIn(c, Apply(c, s, steps[0]), steps[1..], x))
  }

  /** A waiting invocation stops waiting exactly at such a step. */
  lemma StopsWaitingExactly(c: Config, s: State, step: Step, x: SessionID)
    requires Enabled(c, s, step) && x in s.waiting
    ensures x !in Apply(c, s, step).waiting <==> Tells(s, step, x)
  {
  }

  /** In a whole run, it is released exactly if there is such a step in it. */
  lemma {:induction false} ReleasedExactlyWhen(c: Config, s: State, steps: seq<Step>, x: SessionID)
    requires ValidRun(c, s, steps) && x in s.waiting && x in s.known
    ensures x !in After(c, s, steps).waiting <==> ToldIn(c, s, steps, x)
    decreases |steps|
  {
    hide Apply, Enabled, Tells;
    if steps != [] {
      var s' := Apply(c, s, steps[0]);
      StopsWaitingExactly(c, s, steps[0], x);
      ReleasedStep(c, s, steps[0], x);
      if x in s'.waiting { ReleasedExactlyWhen(c, s', steps[1..], x); } else { StaysReleased(c, s', steps[1..], x); }
    }
  }

  /** A session whose chunks were begun and not ended is not passed over: what the client receives next is a chunk of
      it, or everyone is told. */
  lemma BegunIsEnded(c: Config, s: State, step: Step, x: SessionID, y: SessionID)
    requires Enabled(c, s, Receive) && s.reading.value.wire[0] == Chunk(x, false) && !Tells(s, Receive, y)
    requires var s' := Apply(c, s, Receive); Enabled(c, s', step) && Receives(step) && y in s'.waiting
    ensures var s' := Apply(c, s, Receive);
            y !in Apply(c, s', step).waiting <==>
              (step.Receive? && s'.reading.value.wire[0].session == x ==> s'.reading.value.wire[0].last && y == x)
  {
  }

  /** A remote that was lost stays lost: everyone is released, and nobody starts waiting on it or reading from it. */
  lemma {:induction false} LostForGood(c: Config, s: State, steps: seq<Step>)
    ensures Apply(c, s, RemoteLost).remoteDown && Apply(c, s, RemoteLost).waiting == {}
    ensures ValidRun(c, s, steps) && s.remoteDown ==>
              After(c, s, steps).remoteDown && forall step :: step in steps ==> !step.Invoke? && !step.OpenStream?
    decreases |steps|
  {
    if steps != [] && ValidRun(c, s, steps) && s.remoteDown {
      LostForGood(c, Apply(c, s, steps[0]), steps[1..]);
      assert steps == [steps[0]] + steps[1..];
    }
  }

  /** What becomes of a session: only a refusal, or a send that failed over a stream the server thought alive, gives it
      up; it is closed when it was sent as a whole or could not be made; and one that a dead stream's handler has
      goes back. */
  lemma LeavesExactly(c: Config, s: State, step: Step, x: SessionID)
    requires Enabled(c, s, step) && x !in s.closed && x !in s.failed && Handlers(s)
    ensures var s' := Apply(c, s, step);
            && (x in s'.failed <==> step == ServerRefuse(x) || (step.SendError? && Held(s, step.id) == x))
            && (x in s'.closed <==>
                  || ((step.SendNothing? || step.FailSession?) && Held(s, step.id) == x)
                  || (step.SendChunk? && step.last && step.id !in s.cancelled && Held(s, step.id) == x))
            && (step.SendChunk? && Held(s, step.id) == x && step.id in s.cancelled ==> x in s'.pending)
            && (step.Take? && s.ready[0] == x ==> if step.id in s.cancelled then x in s'.pending else x in s'.held)
  {
    hide Handlers;
  }

  /** The last chunk of a session is on the wire only if it was sent as a whole, a trailer names only a session that
      was not, and a stream ends without a trailer only if it is one that nobody reads, as far as the server knows. */
  predicate TrueNews(s: State) {
    s.reading.Some? ==>
      && (forall i :: 0 <= i < |s.reading.value.wire| && s.reading.value.wire[i].last ==>
            s.reading.value.wire[i].session in s.sent)
      && (s.reading.value.ended == Some(None) ==> s.reading.value.id in s.cancelled)
      && (s.reading.value.ended.Some? && s.reading.value.ended.value.Some? ==>
            var x := s.reading.value.ended.value.value; x !in s.sent && (x in s.closed || x in s.failed))
  }

  /** An object file is there only of a session that may still be sent, or that could not be; and never of one from
      the object cache. */
  predicate NoFilesLeft(s: State) {
    && (forall x :: x in s.objFiles ==>
          x !in s.fromCache && (x in s.pending || x in s.ready || x in s.held || x in s.failed))
    && (forall x :: x in s.fromCache ==> x in s.known && x !in s.requested && x !in s.working)
  }

  /** In every run, however late a dead stream is noticed. */
  lemma NewsIsTrue(c: Config, steps: seq<Step>)
    requires ValidRun(c, INITIAL, steps)
    ensures TrueNews(After(c, INITIAL, steps)) && NoFilesLeft(After(c, INITIAL, steps))
  {
    assert forall x :: Places(INITIAL, x) == 0;
    NewsStaysTrue(c, INITIAL, steps);
  }

  lemma {:induction false} NewsStaysTrue(c: Config, s: State, steps: seq<Step>)
    requires Conserved(s) && TrueNews(s) && NoFilesLeft(s) && ValidRun(c, s, steps)
    ensures TrueNews(After(c, s, steps)) && NoFilesLeft(After(c, s, steps))
    decreases |steps|
  {
    hide Conserved, TrueNews, NoFilesLeft, Apply, Enabled;
    if steps != [] {
      ConservedStep(c, s, steps[0]);
      TrueNewsStep(c, s, steps[0]);
      NoFilesLeftStep(c, s, steps[0]);
      NewsStaysTrue(c, Apply(c, s, steps[0]), steps[1..]);
    }
  }

  lemma TrueNewsStep(c: Config, s: State, step: Step)
    requires Conserved(s) && TrueNews(s) && Enabled(c, s, step)
    ensures TrueNews(Apply(c, s, step))
  {
    OnePlaceOnly(s);
    hide OnePlace, Places, ObjectsExist, SentOnce;
    if step.SendChunk? || step.SendNothing? || step.FailSession? || step.SendError? {
      assert Held(s, step.id) !in s.sent;
      TrueNewsSent(c, s, step);
    } else {
      TrueNewsOther(c, s, step);
    }
  }

  lemma TrueNewsSent(c: Config, s: State, step: Step)
    requires TrueNews(s) && Enabled(c, s, step)
    requires step.SendChunk? || step.SendNothing? || step.FailSession? || step.SendError?
    requires Held(s, step.id) !in s.sent && Held(s, step.id) !in s.closed && Held(s, step.id) !in s.failed
    ensures TrueNews(Apply(c, s, step))
  {
  }

  lemma TrueNewsOther(c: Config, s: State, step: Step)
    requires TrueNews(s) && Enabled(c, s, step)
    requires !step.SendChunk? && !step.SendNothing? && !step.FailSession? && !step.SendError?
    ensures TrueNews(Apply(c, s, step))
  {
    if step.Receive? || step.ReceiveEnd? || step.Break? || step.OpenStream? || step.RemoteLost? {
      TrueNewsRead(c, s, step);
    } else if step.Take? || step.EndQuietly? || step.NoticeCancel? {
      TrueNewsHandled(c, s, step);
    }
  }

  lemma TrueNewsRead(c: Config, s: State, step: Step)
    requires TrueNews(s) && Enabled(c, s, step)
    requires step.Receive? || step.ReceiveEnd? || step.Break? || step.OpenStream? || step.RemoteLost?
    ensures TrueNews(Apply(c, s, step))
  {
  }

  lemma TrueNewsHandled(c: Config, s: State, step: Step)
    requires TrueNews(s) && Enabled(c, s, step) && (step.Take? || step.EndQuietly? || step.NoticeCancel?)
    ensures TrueNews(Apply(c, s, step))
  {
  }

  lemma NoFilesLeftStep(c: Config, s: State, step: Step)
    requires Conserved(s) && NoFilesLeft(s) && Enabled(c, s, step)
    ensures NoFilesLeft(Apply(c, s, step))
  {
    hide OnePlace, ObjectsExist, SentOnce, Handlers;
    if step.Take? {
      TakenFilesLeft(s, step.id);
    } else if step.SendChunk? || step.SendNothing? || step.FailSession? || step.SendError? {
      SentFilesLeft(c, s, step);
    } else {
      OtherFilesLeft(c, s, step);
    }
  }

  lemma OtherFilesLeft(c: Config, s: State, step: Step)
    requires NoFilesLeft(s) && Enabled(c, s, step)
    requires !step.Take? && !step.SendChunk? && !step.SendNothing? && !step.FailSession? && !step.SendError?
    requires OnePlace(s)
    ensures NoFilesLeft(Apply(c, s, step))
  {
    OnePlaceOnly(s);
    if step.ServerStart? { assert Places(s, step.sid) <= 1; InReady(s, step.sid); }
    hide OnePlace, Places;
    if Moves(step) || step.Push? { CompiledFilesLeft(c, s, step); }
  }

  lemma CompiledFilesLeft(c: Config, s: State, step: Step)
    requires NoFilesLeft(s) && Enabled(c, s, step) && (Moves(step) || step.Push?)
    requires step.ServerStart? ==> step.sid in s.known && step.sid !in s.working && step.sid !in s.objFiles
    ensures NoFilesLeft(Apply(c, s, step))
  {
  }

  lemma TakenFilesLeft(s: State, id: StreamID)
    requires NoFilesLeft(s) && s.ready != []
    ensures NoFilesLeft(AfterTake(s, id))
  {
    assert s.ready == [s.ready[0]] + s.ready[1..];
  }

  lemma SentFilesLeft(c: Config, s: State, step: Step)
    requires NoFilesLeft(s) && Enabled(c, s, step)
    requires step.SendChunk? || step.SendNothing? || step.FailSession? || step.SendError?
    ensures NoFilesLeft(Apply(c, s, step))
  {
  }

  lemma OnePlaceOnly(s: State)
    requires OnePlace(s)
    ensures forall x :: x in s.held ==> x !in s.closed && x !in s.failed
    ensures forall x :: x in s.working || x in s.requested ==> x !in s.closed && x in s.known
  {
    forall x ensures x in s.held ==> x !in s.closed && x !in s.failed
             ensures x in s.working || x in s.requested ==> x !in s.closed && x in s.known
    {
      assert Places(s, x) <= 1;
    }
  }

  // ---------------------------------------------------------------- what happens without the two conditions

  ghost predicate Forgotten(s: State, x: SessionID) { x in s.waiting && x in s.closed && !Coming(s, x) }

  lemma FirstStep(c: Config, s: State, step: Step, s': State, rest: seq<Step>, end: State)
    requires Enabled(c, s, step) && Apply(c, s, step) == s'
    requires ValidRun(c, s', rest) && After(c, s', rest) == end
    ensures ValidRun(c, s, [step] + rest) && After(c, s, [step] + rest) == end
  {
    assert ([step] + rest)[1..] == rest;
  }

  const LATE := Config(false, false)

  /** A client that reads stream 1, and a handler of stream 0 that does not know it is alone. */
  const TWO_STREAMS := INITIAL.(reading := Some(Reading(1, [], false, None, None)), running := {0, 1}, nextStream := 2)

  lemma StreamDiesUnnoticed() returns (steps: seq<Step>)
    ensures ValidRun(LATE, INITIAL, steps) && After(LATE, INITIAL, steps) == TWO_STREAMS
  {
    hide ValidRun, After;
    var s1 := INITIAL.(reading := Some(Reading(0, [], false, None, None)), running := {0}, nextStream := 1);
    var s2 := s1.(reading := Some(Reading(0, [], true, None, None)));
    var s3 := s2.(reading := None);
    NoSteps(LATE, TWO_STREAMS);
    FirstStep(LATE, s3, OpenStream, TWO_STREAMS, [], TWO_STREAMS);
    FirstStep(LATE, s2, ReceiveEnd, s3, [OpenStream] + [], TWO_STREAMS);
    FirstStep(LATE, s1, Break(0), s2, [ReceiveEnd] + ([OpenStream] + []), TWO_STREAMS);
    FirstStep(LATE, INITIAL, OpenStream, s1, [Break(0)] + ([ReceiveEnd] + ([OpenStream] + [])), TWO_STREAMS);
    steps := [OpenStream] + ([Break(0)] + ([ReceiveEnd] + ([OpenStream] + [])));
  }

  lemma NoSteps(c: Config, s: State)
    ensures ValidRun(c, s, []) && After(c, s, []) == s
  {
  }

  /** The only session, ready to be sent. */
  function WithReady(s: State): State {
    s.(known := {7}, waiting := {7}, objFiles := {7}, ready := [7])
  }

  function Fresh(r: Option<Reading>, handlers: set<StreamID>, next: StreamID): State {
    INITIAL.(reading := r, running := handlers, nextStream := next)
  }

  const COMPILE := [Invoke(7)] + ([ServerStart(7, false)] + ([Compiled(7)] + ([Push(7)] + [])))

  lemma SessionGetsReady(c: Config, r: Option<Reading>, handlers: set<StreamID>, next: StreamID)
    ensures ValidRun(c, Fresh(r, handlers, next), COMPILE)
    ensures After(c, Fresh(r, handlers, next), COMPILE) == WithReady(Fresh(r, handlers, next))
  {
    hide ValidRun, After;
    var s0, end := Fresh(r, handlers, next), WithReady(Fresh(r, handlers, next));
    var s1 := s0.(known := {7}, waiting := {7}, requested := {7});
    var s2 := s1.(requested := {}, working := {7});
    var s3 := s2.(working := {}, pending := {7}, objFiles := {7});
    NoSteps(c, end);
    FirstStep(c, s3, Push(7), end, [], end);
    FirstStep(c, s2, Compiled(7), s3, [Push(7)] + [], end);
    FirstStep(c, s1, ServerStart(7, false), s2, [Compiled(7)] + ([Push(7)] + []), end);
    FirstStep(c, s0, Invoke(7), s1, [ServerStart(7, false)] + ([Compiled(7)] + ([Push(7)] + [])), end);
  }

  lemma {:induction false} Joined(c: Config, s: State, a: seq<Step>, b: seq<Step>)
    requires ValidRun(c, s, a) && ValidRun(c, After(c, s, a), b)
    ensures ValidRun(c, s, a + b) && After(c, s, a + b) == After(c, After(c, s, a), b)
    decreases |a|
  {
    if a == [] {
      assert a + b == b;
    } else {
      assert (a + b)[1..] == a[1..] + b;
      Joined(c, Apply(c, s, a[0]), a[1..], b);
    }
  }

  /** Handler 0 takes the only session, and lets go of it with this step. */
  lemma TakenAndClosed(c: Config, s: State, step: Step)
    requires s.ready == [7] && s.held == map[] && 0 in s.running && 0 !in s.cancelled
    requires step == SendChunk(0, true) || (step == SendNothing(0) && c.emptyObjects)
    requires 7 in s.waiting
             && s.reading.Some? && s.reading.value.wire == [] && !s.reading.value.broken && s.reading.value.ended.None?
    requires step == SendChunk(0, true) ==> s.reading.value.id != 0
    ensures ValidRun(c, s, [Take(0), step]) && Forgotten(After(c, s, [Take(0), step]), 7)
  {
    var taken := Apply(c, s, Take(0));
    assert 7 in taken.held && taken.held[7] == 0;
    assert Held(taken, 0) == 7;
    var sent := Apply(c, taken, step);
    NoSteps(c, sent);
    FirstStep(c, taken, step, sent, [], sent);
    assert [step] + [] == [step] && [Take(0), step] == [Take(0)] + [step];
    FirstStep(c, s, Take(0), taken, [step], sent);
  }

  /** There is a run in which an invocation is left waiting for a session the server has closed. */
  ghost predicate CanForget(c: Config) {
    exists steps, x :: ValidRun(c, INITIAL, steps) && Forgotten(After(c, INITIAL, steps), x)
  }

  /** A handler whose stream died unnoticed takes the session of a later invocation, and sends it to nobody. */
  lemma LateCancelForgets()
    ensures CanForget(Config(false, false))
  {
    hide ValidRun, After;
    var r := Some(Reading(1, [], false, None, None));
    var begin := StreamDiesUnnoticed();
    SessionGetsReady(LATE, r, {0, 1}, 2);
    Joined(LATE, INITIAL, begin, COMPILE);
    TakenAndClosed(LATE, WithReady(Fresh(r, {0, 1}, 2)), SendChunk(0, true));
    Joined(LATE, INITIAL, begin + COMPILE, [Take(0), SendChunk(0, true)]);
  }

  /** An empty object file without notes is sent in no chunk at all: its invocation hears nothing. */
  lemma EmptyObjectForgets(c: Config)
    requires c.emptyObjects
    ensures CanForget(c)
  {
    hide ValidRun, After;
    var r := Some(Reading(0, [], false, None, None));
    var begun := Fresh(r, {0}, 1);
    NoSteps(c, begun);
    FirstStep(c, INITIAL, OpenStream, begun, [], begun);
    SessionGetsReady(c, r, {0}, 1);
    Joined(c, INITIAL, [OpenStream] + [], COMPILE);
    TakenAndClosed(c, WithReady(begun), SendNothing(0));
    Joined(c, INITIAL, [OpenStream] + [] + COMPILE, [Take(0), SendNothing(0)]);
  }

  /** Exactly these two conditions are needed. */
  lemma ForgetsExactlyWhen(c: Config)
    ensures CanForget(c) <==> !c.promptCancel || c.emptyObjects
  {
    if c.emptyObjects {
      EmptyObjectForgets(c);
    } else if !c.promptCancel {
      LateCancelForgets();
    } else {
      forall steps, x | ValidRun(c, INITIAL, steps) ensures !Forgotten(After(c, INITIAL, steps), x) {
        NobodyWaitsInVain(steps);
      }
    }
  }
}
