/** One connection of the IPC protocol: calls in flight, handlers finishing in any order,
    timeouts and late replies, over two framed byte streams. */
module Multiplexing {
  import opened Wrappers
  import opened Frames

  /** Where a call is. `Leaving` is between the select and the deferred removal of the
      pending entry; the outcome is then already decided. */
  datatype Outcome = Reply(f: Frame) | TimedOut
  datatype Phase = Registered | Waiting | Leaving(out: Outcome) | Done(out: Outcome)

  /** `inbox` is the reply channel, of capacity one. */
  datatype Call = Call(seqId: nat, request: seq<Byte>, phase: Phase, inbox: seq<Frame>)

  /** A frame the reader has matched to a call but not yet handed over. */
  datatype Held = Nothing | Holding(call: nat, f: Frame)

  /** `up` and `down` are the frames the two byte streams consist of; `log` pairs every
      request with the reply sent for it. All three are history. */
  datatype State = State(
    counter: nat, calls: seq<Call>, pending: map<nat, nat>,
    toServer: seq<Byte>, toClient: seq<Byte>, inFlight: seq<Frame>, held: Held,
    up: seq<Frame>, down: seq<Frame>, log: seq<(Frame, Frame)>)

  const INIT := State(0, [], map[], [], [], [], Nothing, [], [], [])

  datatype Action =
    | StartCall(request: seq<Byte>)
    | WriteRequest(c: nat)
    | ServerReads
    | HandlerDone(i: nat, failed: bool, result: seq<Byte>)
    | ClientReads
    | HandOver
    | Receive(c: nat)
    | Timeout(c: nat)
    | Unregister(c: nat)
    | Emit(data: seq<Byte>)
    | Broadcast(data: seq<Byte>)

  function Outgoing(msgType: nat, sequenceId: nat, payload: seq<Byte>): Frame {
    Stamped(Frame(Header(0, 0, 0, msgType, sequenceId, 0), payload))
  }

  predicate IsReply(f: Frame) {
    f.header.msgType == OP_RPC_RESPONSE || f.header.msgType == OP_RPC_ERROR
  }

  predicate InPhase(s: State, c: nat, p: Phase) {
    c < |s.calls| && s.calls[c].phase == p
  }

  predicate Enabled(s: State, a: Action) {
    match a
    case StartCall(request) => |request| < U32
    case WriteRequest(c) => InPhase(s, c, Registered)
    case ServerReads => ReadFrame(s.toServer).ReadOk?
    case HandlerDone(i, _, result) => i < |s.inFlight| && |result| < U32
    case ClientReads => s.held.Nothing? && ReadFrame(s.toClient).ReadOk?
    case HandOver => s.held.Holding? && s.held.call < |s.calls| && s.calls[s.held.call].inbox == []
    case Receive(c) => InPhase(s, c, Waiting) && s.calls[c].inbox != []
    case Timeout(c) => InPhase(s, c, Waiting)
    case Unregister(c) => c < |s.calls| && s.calls[c].phase.Leaving?
    case Emit(data) => |data| < U32
    case Broadcast(data) => |data| < U32
  }

  function WithCall(s: State, c: nat, call: Call): State
    requires c < |s.calls|
  {
    s.(calls := s.calls[c := call])
  }

  function Apply(s: State, a: Action): State
    requires Enabled(s, a)
  {
    match a
    case StartCall(request) =>
      var id := (s.counter + 1) % U32;
      s.(counter := id, calls := s.calls + [Call(id, request, Registered, [])], pending := s.pending[id := |s.calls|])
    case WriteRequest(c) =>
      var f := Outgoing(OP_RPC_REQUEST, s.calls[c].seqId, s.calls[c].request);
      WithCall(s, c, s.calls[c].(phase := Waiting)).(toServer := s.toServer + Wire(f), up := s.up + [f])
    case ServerReads =>
      var r := ReadFrame(s.toServer);
      s.(toServer := r.rest, up := if s.up == [] then [] else s.up[1..],
         inFlight := if r.frame.header.msgType == OP_RPC_REQUEST then s.inFlight + [r.frame] else s.inFlight)
    case HandlerDone(i, failed, result) =>
      var req := s.inFlight[i];
      var f := Outgoing(if failed then OP_RPC_ERROR else OP_RPC_RESPONSE, req.header.sequenceId, result);
      s.(inFlight := s.inFlight[..i] + s.inFlight[i + 1..], toClient := s.toClient + Wire(f), down := s.down + [f],
         log := s.log + [(req, f)])
    case ClientReads =>
      var r := ReadFrame(s.toClient);
      s.(toClient := r.rest, down := if s.down == [] then [] else s.down[1..],
         held := if IsReply(r.frame) && r.frame.header.sequenceId in s.pending
                 then Holding(s.pending[r.frame.header.sequenceId], r.frame) else Nothing)
    case HandOver =>
      var call := s.calls[s.held.call];
      WithCall(s, s.held.call, call.(inbox := call.inbox + [s.held.f])).(held := Nothing)
    case Receive(c) =>
      WithCall(s, c, s.calls[c].(phase := Leaving(Reply(s.calls[c].inbox[0])), inbox := s.calls[c].inbox[1..]))
    case Timeout(c) => WithCall(s, c, s.calls[c].(phase := Leaving(TimedOut)))
    case Unregister(c) =>
      WithCall(s, c, s.calls[c].(phase := Done(s.calls[c].phase.out))).(pending := s.pending - {s.calls[c].seqId})
    case Emit(data) =>
      var f := Outgoing(OP_EVENT_EMIT, 0, data);
      s.(toServer := s.toServer + Wire(f), up := s.up + [f])
    case Broadcast(data) =>
      var f := Outgoing(OP_EVENT_EMIT, 0, data);
      s.(toClient := s.toClient + Wire(f), down := s.down + [f])
  }

  ghost predicate IsRun(actions: seq<Action>)
    decreases |actions|, 0
  {
    actions == [] ||
    var before := actions[..|actions| - 1];
    IsRun(before) && Enabled(After(before), actions[|actions| - 1])
  }

  ghost function After(actions: seq<Action>): State
    requires IsRun(actions)
    decreases |actions|, 1
  {
    if actions == [] then INIT
    else Apply(After(actions[..|actions| - 1]), actions[|actions| - 1])
  }

  // ----- where the token of a request is ---------------------------------------------------

  /** How often sequence id k occurs among the requests, or the replies, of some frames. */
  ghost function Requests(fs: seq<Frame>, k: nat): nat {
    if fs == [] then 0 else RequestIs(fs[0], k) + Requests(fs[1..], k)
  }

  ghost function RequestIs(f: Frame, k: nat): nat {
    if f.header.msgType == OP_RPC_REQUEST && f.header.sequenceId == k then 1 else 0
  }

  ghost function Replies(fs: seq<Frame>, k: nat): nat {
    if fs == [] then 0 else ReplyIs(fs[0], k) + Replies(fs[1..], k)
  }

  ghost function ReplyIs(f: Frame, k: nat): nat {
    if IsReply(f) && f.header.sequenceId == k then 1 else 0
  }

  ghost function Inboxes(calls: seq<Call>, k: nat): nat {
    if calls == [] then 0 else Replies(calls[0].inbox, k) + Inboxes(calls[1..], k)
  }

  /** All places a request or its reply can be: on the way up, with a handler, on the way
      down, with the reader, in a reply channel. */
  ghost function Tokens(s: State, k: nat): nat {
    Requests(s.up, k) + Requests(s.inFlight, k) + Replies(s.down, k)
    + (if s.held.Holding? then ReplyIs(s.held.f, k) else 0) + Inboxes(s.calls, k)
  }

  lemma RequestsConcat(a: seq<Frame>, b: seq<Frame>, k: nat)
    ensures Requests(a + b, k) == Requests(a, k) + Requests(b, k)
  {
    if a == [] {
      assert a + b == b;
    } else {
      assert (a + b)[1..] == a[1..] + b;
      RequestsConcat(a[1..], b, k);
    }
  }

  lemma RepliesConcat(a: seq<Frame>, b: seq<Frame>, k: nat)
    ensures Replies(a + b, k) == Replies(a, k) + Replies(b, k)
  {
    if a == [] {
      assert a + b == b;
    } else {
      assert (a + b)[1..] == a[1..] + b;
      RepliesConcat(a[1..], b, k);
    }
  }

  lemma InboxesConcat(a: seq<Call>, b: seq<Call>, k: nat)
    ensures Inboxes(a + b, k) == Inboxes(a, k) + Inboxes(b, k)
  {
    if a == [] {
      assert a + b == b;
    } else {
      assert (a + b)[1..] == a[1..] + b;
      InboxesConcat(a[1..], b, k);
    }
  }

  lemma InboxesAround(calls: seq<Call>, c: nat, k: nat)
    requires c < |calls|
    ensures Inboxes(calls, k) == Inboxes(calls[..c], k) + Replies(calls[c].inbox, k) + Inboxes(calls[c + 1..], k)
  {
    var tail := calls[c..];
    assert calls == calls[..c] + tail && tail[0] == calls[c] && tail[1..] == calls[c + 1..];
    InboxesConcat(calls[..c], tail, k);
  }

  lemma InboxesUpdate(calls: seq<Call>, c: nat, call: Call, k: nat)
    requires c < |calls|
    ensures Inboxes(calls[c := call], k) == Inboxes(calls, k) - Replies(calls[c].inbox, k) + Replies(call.inbox, k)
  {
    InboxesAround(calls, c, k);
    InboxesAround(calls[c := call], c, k);
    assert calls[c := call][..c] == calls[..c] && calls[c := call][c + 1..] == calls[c + 1..];
  }

  // ----- the invariant ---------------------------------------------------------------------

  /** The pending table lists exactly the calls that have not left yet, under their ids. */
  ghost predicate IdsOk(s: State) {
    && s.counter == |s.calls| < U32
    && (forall c :: 0 <= c < |s.calls| ==> s.calls[c].seqId == c + 1 && |s.calls[c].request| < U32)
    && (forall k :: k in s.pending ==> 1 <= k <= |s.calls| && s.pending[k] == k - 1)
    && (forall c :: 0 <= c < |s.calls| ==> (c + 1 in s.pending <==> !s.calls[c].phase.Done?))
  }

  ghost predicate StreamsOk(s: State) {
    && s.toServer == WireAll(s.up) && s.toClient == WireAll(s.down)
    && (forall f :: f in s.up || f in s.down ==> Writable(f))
    && (forall f :: f in s.inFlight ==> f.header.msgType == OP_RPC_REQUEST && f.header.sequenceId < U32)
  }

  /** The call was written and no reply has been taken for it. */
  predicate Open(p: Phase) {
    p == Waiting || p == Leaving(TimedOut) || p == Done(TimedOut)
  }

  /** Each token is in at most one place, only for an open call, and for a waiting call in
      exactly one. */
  ghost predicate TokensOk(s: State) {
    forall k: nat :: TokenOk(s, k)
  }

  ghost predicate TokenOk(s: State, k: nat) {
    && Tokens(s, k) <= 1
    && (Tokens(s, k) == 1 ==> 1 <= k <= |s.calls| && Open(s.calls[k - 1].phase))
    && (1 <= k <= |s.calls| && s.calls[k - 1].phase == Waiting ==> Tokens(s, k) == 1)
  }

  /** A request on its way carries the bytes of the call with its id. */
  ghost predicate Genuine(s: State, f: Frame) {
    && 1 <= f.header.sequenceId <= |s.calls|
    && f.payload == s.calls[f.header.sequenceId - 1].request
  }

  /** A reply was sent for the request of the call with its id. */
  ghost predicate Answers(s: State, f: Frame) {
    exists j :: 0 <= j < |s.log| && s.log[j].1 == f
                && s.log[j].0.header.sequenceId == f.header.sequenceId && Genuine(s, s.log[j].0)
  }

  ghost predicate InboxOk(s: State, c: nat)
    requires c < |s.calls|
  {
    forall f :: f in s.calls[c].inbox ==> IsReply(f) && f.header.sequenceId == c + 1 && Answers(s, f)
  }

  ghost predicate OutcomeOk(s: State, c: nat)
    requires c < |s.calls|
  {
    var p := s.calls[c].phase;
    (p.Leaving? || p.Done?) && p.out.Reply? ==> p.out.f.header.sequenceId == c + 1 && Answers(s, p.out.f)
  }

  ghost predicate ContentOk(s: State) {
    && UpOk(s) && DownOk(s)
    && (forall c :: 0 <= c < |s.calls| ==> InboxOk(s, c) && OutcomeOk(s, c))
  }

  ghost predicate Inv(s: State) {
    IdsOk(s) && StreamsOk(s) && TokensOk(s) && ContentOk(s)
  }

  // ----- one step keeps it -----------------------------------------------------------------

  lemma IdsStep(s: State, a: Action)
    requires IdsOk(s) && Enabled(s, a) && |Apply(s, a).calls| < U32
    ensures IdsOk(Apply(s, a))
  {
    match a
    case StartCall(request) => IdsStart(s, request);
    case WriteRequest(c) => IdsCall(s, c, s.calls[c].(phase := Waiting));
    case HandOver => IdsCall(s, s.held.call, s.calls[s.held.call].(inbox := s.calls[s.held.call].inbox + [s.held.f]));
    case Receive(c) =>
      IdsCall(s, c, s.calls[c].(phase := Leaving(Reply(s.calls[c].inbox[0])), inbox := s.calls[c].inbox[1..]));
    case Timeout(c) => IdsCall(s, c, s.calls[c].(phase := Leaving(TimedOut)));
    case Unregister(c) => IdsUnregister(s, c);
    case _ =>
  }

  lemma IdsStart(s: State, request: seq<Byte>)
    requires IdsOk(s) && |request| < U32 && |s.calls| + 1 < U32
    ensures IdsOk(Apply(s, StartCall(request)))
  {
  }

  lemma IdsUnregister(s: State, c: nat)
    requires IdsOk(s) && Enabled(s, Unregister(c))
    ensures IdsOk(Apply(s, Unregister(c)))
  {
  }

  /** Moving one call along, short of its end, leaves the tables in order. */
  lemma IdsCall(s: State, c: nat, call: Call)
    requires IdsOk(s) && c < |s.calls| && call.seqId == s.calls[c].seqId && call.request == s.calls[c].request
    requires call.phase.Done? == s.calls[c].phase.Done?
    ensures IdsOk(WithCall(s, c, call))
  {
  }

  lemma StreamsStep(s: State, a: Action)
    requires IdsOk(s) && StreamsOk(s) && Enabled(s, a)
    ensures StreamsOk(Apply(s, a))
  {
    match a
    case WriteRequest(c) => StreamsWrite(s, c);
    case Emit(data) => SendUp(s, Outgoing(OP_EVENT_EMIT, 0, data));
    case Broadcast(data) => SendDown(s, Outgoing(OP_EVENT_EMIT, 0, data));
    case HandlerDone(i, failed, result) => StreamsDone(s, i, failed, result);
    case ServerReads => StreamsServer(s);
    case ClientReads => StreamRead(s.down);
    case _ =>
  }

  lemma StreamsWrite(s: State, c: nat)
    requires IdsOk(s) && StreamsOk(s) && Enabled(s, WriteRequest(c))
    ensures StreamsOk(Apply(s, WriteRequest(c)))
  {
    SendUp(s, Outgoing(OP_RPC_REQUEST, s.calls[c].seqId, s.calls[c].request));
  }

  lemma StreamsServer(s: State)
    requires StreamsOk(s) && Enabled(s, ServerReads)
    ensures StreamsOk(Apply(s, ServerReads)) && s.up != [] && ReadFrame(s.toServer).frame == s.up[0]
  {
    StreamRead(s.up);
    assert s.up[0] in s.up;
  }

  lemma StreamsDone(s: State, i: nat, failed: bool, result: seq<Byte>)
    requires StreamsOk(s) && Enabled(s, HandlerDone(i, failed, result))
    ensures StreamsOk(Apply(s, HandlerDone(i, failed, result)))
  {
    var req := s.inFlight[i];
    assert req in s.inFlight;
    SendDown(s, Outgoing(if failed then OP_RPC_ERROR else OP_RPC_RESPONSE, req.header.sequenceId, result));
  }

  lemma SendUp(s: State, f: Frame)
    requires StreamsOk(s) && f == Stamped(f) && Sendable(f) && |f.payload| < U32
    ensures s.toServer + Wire(f) == WireAll(s.up + [f]) && Writable(f)
  {
    WireAllAppend(s.up, f);
  }

  lemma SendDown(s: State, f: Frame)
    requires StreamsOk(s) && f == Stamped(f) && Sendable(f) && |f.payload| < U32
    ensures s.toClient + Wire(f) == WireAll(s.down + [f]) && Writable(f)
  {
    WireAllAppend(s.down, f);
  }

  // ----- tokens move, appear when a request is written, vanish when a reply is taken --------

  /** The token a step creates. */
  ghost function Created(s: State, a: Action, k: nat): nat
    requires Enabled(s, a)
  {
    if a.WriteRequest? && s.calls[a.c].seqId == k then 1 else 0
  }

  /** The token a step consumes: a reply taken, or one nobody waits for any more. */
  ghost function Consumed(s: State, a: Action, k: nat): nat
    requires Enabled(s, a)
  {
    match a
    case Receive(c) => ReplyIs(s.calls[c].inbox[0], k)
    case ClientReads => if k in s.pending then 0 else ReplyIs(ReadFrame(s.toClient).frame, k)
    case _ => 0
  }

  lemma TokensMove(s: State, a: Action, k: nat)
    requires IdsOk(s) && StreamsOk(s) && Enabled(s, a)
    ensures Tokens(Apply(s, a), k) + Consumed(s, a, k) == Tokens(s, k) + Created(s, a, k)
  {
    match a
    case WriteRequest(c) => WriteCreates(s, c, k);
    case ServerReads => ServerMoves(s, k);
    case HandlerDone(i, failed, result) => DoneMoves(s, i, failed, result, k);
    case ClientReads => ClientMoves(s, k);
    case HandOver => HandOverMoves(s, k);
    case Receive(c) => ReceiveConsumes(s, c, k);
    case StartCall(request) => InboxesConcat(s.calls, [Call((s.counter + 1) % U32, request, Registered, [])], k);
    case Timeout(c) => InboxesUpdate(s.calls, c, s.calls[c].(phase := Leaving(TimedOut)), k);
    case Unregister(c) => InboxesUpdate(s.calls, c, s.calls[c].(phase := Done(s.calls[c].phase.out)), k);
    case Emit(data) => RequestsConcat(s.up, [Outgoing(OP_EVENT_EMIT, 0, data)], k);
    case Broadcast(data) => RepliesConcat(s.down, [Outgoing(OP_EVENT_EMIT, 0, data)], k);
  }

  lemma WriteCreates(s: State, c: nat, k: nat)
    requires Enabled(s, WriteRequest(c))
    ensures Tokens(Apply(s, WriteRequest(c)), k) == Tokens(s, k) + Created(s, WriteRequest(c), k)
  {
    RequestsConcat(s.up, [Outgoing(OP_RPC_REQUEST, s.calls[c].seqId, s.calls[c].request)], k);
    InboxesUpdate(s.calls, c, s.calls[c].(phase := Waiting), k);
  }

  lemma ServerMoves(s: State, k: nat)
    requires StreamsOk(s) && Enabled(s, ServerReads)
    ensures Tokens(Apply(s, ServerReads), k) == Tokens(s, k)
  {
    StreamsServer(s);
    RequestsConcat(s.inFlight, [s.up[0]], k);
  }

  lemma HandOverMoves(s: State, k: nat)
    requires Enabled(s, HandOver)
    ensures Tokens(Apply(s, HandOver), k) == Tokens(s, k)
  {
    var call := s.calls[s.held.call];
    RepliesConcat(call.inbox, [s.held.f], k);
    InboxesUpdate(s.calls, s.held.call, call.(inbox := call.inbox + [s.held.f]), k);
  }

  lemma ReceiveConsumes(s: State, c: nat, k: nat)
    requires Enabled(s, Receive(c))
    ensures Tokens(Apply(s, Receive(c)), k) + Consumed(s, Receive(c), k) == Tokens(s, k)
  {
    var call := s.calls[c];
    InboxesUpdate(s.calls, c, call.(phase := Leaving(Reply(call.inbox[0])), inbox := call.inbox[1..]), k);
  }

  /** Taking one frame out of a list. */
  lemma RequestsRemove(fs: seq<Frame>, i: nat, k: nat)
    requires i < |fs|
    ensures Requests(fs, k) == Requests(fs[..i] + fs[i + 1..], k) + RequestIs(fs[i], k)
  {
    var a, b := fs[..i], fs[i + 1..];
    assert fs == a + ([fs[i]] + b) && ([fs[i]] + b)[1..] == b;
    RequestsConcat(a, [fs[i]] + b, k);
    RequestsConcat(a, b, k);
  }

  lemma RepliesAppend(fs: seq<Frame>, f: Frame, k: nat)
    ensures Replies(fs + [f], k) == Replies(fs, k) + ReplyIs(f, k)
  {
    RepliesConcat(fs, [f], k);
  }

  lemma DoneMoves(s: State, i: nat, failed: bool, result: seq<Byte>, k: nat)
    requires StreamsOk(s) && Enabled(s, HandlerDone(i, failed, result))
    ensures Tokens(Apply(s, HandlerDone(i, failed, result)), k) == Tokens(s, k)
  {
    var req := s.inFlight[i];
    assert req in s.inFlight;
    RequestsRemove(s.inFlight, i, k);
    RepliesAppend(s.down, Outgoing(if failed then OP_RPC_ERROR else OP_RPC_RESPONSE, req.header.sequenceId, result), k);
  }

  lemma ClientMoves(s: State, k: nat)
    requires StreamsOk(s) && Enabled(s, ClientReads)
    ensures Tokens(Apply(s, ClientReads), k) + Consumed(s, ClientReads, k) == Tokens(s, k)
  {
    StreamRead(s.down);
    assert s.down != [] && ReadFrame(s.toClient).frame == s.down[0];
  }

  /** The frame in a reply channel, counted. */
  lemma InboxCounts(s: State, c: nat)
    requires c < |s.calls| && InboxOk(s, c)
    ensures |s.calls[c].inbox| <= Tokens(s, c + 1)
  {
    AllCount(s.calls[c].inbox, c + 1);
    InboxesAround(s.calls, c, c + 1);
  }

  lemma AllCount(fs: seq<Frame>, k: nat)
    requires forall f :: f in fs ==> IsReply(f) && f.header.sequenceId == k
    ensures Replies(fs, k) == |fs|
  {
    if fs != [] {
      assert fs[0] in fs;
      AllCount(fs[1..], k);
    }
  }

  /** Which phase a call may have next to its token. */
  lemma TokensStep(s: State, a: Action)
    requires Inv(s) && Enabled(s, a)
    ensures TokensOk(Apply(s, a))
  {
    forall k: nat ensures TokenOk(Apply(s, a), k) {
      TokenStep(s, a, k);
    }
  }

  lemma TokenStep(s: State, a: Action, k: nat)
    requires Inv(s) && Enabled(s, a)
    ensures TokenOk(Apply(s, a), k)
  {
    TokensMove(s, a, k);
    assert TokenOk(s, k);
    if a.Receive? {
      assert s.calls[a.c].inbox[0] in s.calls[a.c].inbox && InboxOk(s, a.c);
    }
  }

  // ----- replies stay with their requests ---------------------------------------------------

  lemma GenuineLater(s: State, a: Action, f: Frame)
    requires Enabled(s, a) && Genuine(s, f)
    ensures Genuine(Apply(s, a), f)
  {
  }

  lemma AnswersLater(s: State, a: Action, f: Frame)
    requires Enabled(s, a) && Answers(s, f)
    ensures Answers(Apply(s, a), f)
  {
    var j :| 0 <= j < |s.log| && s.log[j].1 == f
             && s.log[j].0.header.sequenceId == f.header.sequenceId && Genuine(s, s.log[j].0);
    GenuineLater(s, a, s.log[j].0);
    assert Apply(s, a).log[j] == s.log[j];
  }

  ghost predicate UpOk(s: State) {
    && (forall f :: f in s.up && f.header.msgType == OP_RPC_REQUEST ==> Genuine(s, f))
    && (forall f :: f in s.inFlight ==> Genuine(s, f))
  }

  lemma UpStep(s: State, a: Action)
    requires Inv(s) && Enabled(s, a)
    ensures UpOk(Apply(s, a))
  {
    forall f | Genuine(s, f) ensures Genuine(Apply(s, a), f) { GenuineLater(s, a, f); }
    if a.ServerReads? { StreamsServer(s); }
  }

  ghost predicate DownOk(s: State) {
    && (forall f :: f in s.down && IsReply(f) ==> Answers(s, f))
    && (s.held.Holding? ==> IsReply(s.held.f) && s.held.call == s.held.f.header.sequenceId - 1 && Answers(s, s.held.f))
  }

  lemma DownStep(s: State, a: Action)
    requires Inv(s) && Enabled(s, a)
    ensures DownOk(Apply(s, a))
  {
    forall f | Answers(s, f) ensures Answers(Apply(s, a), f) { AnswersLater(s, a, f); }
    if a.ClientReads? {
      StreamRead(s.down);
      assert s.down[0] in s.down;
    }
    if a.HandlerDone? {
      var t := Apply(s, a);
      var req := s.inFlight[a.i];
      assert req in s.inFlight;
      assert t.log[|s.log|].0 == req && Genuine(t, req);
      assert Answers(t, t.log[|s.log|].1);
    }
  }

  lemma CallsStep(s: State, a: Action, c: nat)
    requires Inv(s) && Enabled(s, a) && c < |Apply(s, a).calls|
    ensures InboxOk(Apply(s, a), c) && OutcomeOk(Apply(s, a), c)
  {
    forall f | Answers(s, f) ensures Answers(Apply(s, a), f) { AnswersLater(s, a, f); }
    if c < |s.calls| {
      assert InboxOk(s, c) && OutcomeOk(s, c);
    }
    if a.Receive? && a.c == c {
      assert s.calls[c].inbox[0] in s.calls[c].inbox;
    }
  }

  lemma StepKeepsInv(s: State, a: Action)
    requires Inv(s) && Enabled(s, a) && |Apply(s, a).calls| < U32
    ensures Inv(Apply(s, a))
  {
    IdsStep(s, a);
    StreamsStep(s, a);
    TokensStep(s, a);
    UpStep(s, a);
    DownStep(s, a);
    forall c | 0 <= c < |Apply(s, a).calls| ensures InboxOk(Apply(s, a), c) && OutcomeOk(Apply(s, a), c) {
      CallsStep(s, a, c);
    }
  }

  lemma {:induction false} RunKeepsInv(actions: seq<Action>)
    requires IsRun(actions) && |After(actions).calls| < U32
    ensures Inv(After(actions))
    decreases |actions|
  {
    if actions != [] {
      RunKeepsInv(actions[..|actions| - 1]);
      StepKeepsInv(After(actions[..|actions| - 1]), actions[|actions| - 1]);
    }
  }

  // ----- what every interleaving guarantees --------------------------------------------------

  /** In every run of fewer than 2^32 calls: a request or its reply is in at most one place,
      and in exactly one while its call waits, so nothing is lost or doubled; no reply
      channel ever holds two frames. */
  lemma EachTokenInOnePlace(actions: seq<Action>, c: nat)
    requires IsRun(actions) && |After(actions).calls| < U32 && c < |After(actions).calls|
    ensures var s := After(actions);
      && Tokens(s, c + 1) <= 1 && |s.calls[c].inbox| <= 1
      && (s.calls[c].phase == Waiting ==> Tokens(s, c + 1) == 1)
  {
    RunKeepsInv(actions);
    assert TokenOk(After(actions), c + 1) && InboxOk(After(actions), c);
    InboxCounts(After(actions), c);
  }

  /** The reader never blocks on a full reply channel. */
  lemma ReaderNeverBlocks(actions: seq<Action>)
    requires IsRun(actions) && |After(actions).calls| < U32 && After(actions).held.Holding?
    ensures Enabled(After(actions), HandOver)
  {
    RunKeepsInv(actions);
    var s := After(actions);
    var c := s.held.call;
    var j :| 0 <= j < |s.log| && s.log[j].1 == s.held.f
             && s.log[j].0.header.sequenceId == s.held.f.header.sequenceId && Genuine(s, s.log[j].0);
    assert InboxOk(s, c);
    AllCount(s.calls[c].inbox, c + 1);
    InboxesAround(s.calls, c, c + 1);
    assert TokenOk(s, c + 1);
  }

  lemma OutcomeAnswered(s: State, c: nat, f: Frame)
    requires Inv(s) && (InPhase(s, c, Done(Reply(f))) || InPhase(s, c, Leaving(Reply(f))))
    ensures exists j :: 0 <= j < |s.log| && SentFor(s, j, c, f)
  {
    assert OutcomeOk(s, c);
    var j :| 0 <= j < |s.log| && s.log[j].1 == f
             && s.log[j].0.header.sequenceId == f.header.sequenceId && Genuine(s, s.log[j].0);
    assert SentFor(s, j, c, f);
  }

  /** The j-th reply the server sent is f, and it was sent for the request of call c. */
  ghost predicate SentFor(s: State, j: nat, c: nat, f: Frame)
    requires j < |s.log| && c < |s.calls|
  {
    s.log[j].1 == f && s.log[j].0.header.sequenceId == c + 1 && s.log[j].0.payload == s.calls[c].request
  }

  /** A call that returns a reply returns one the server sent for this call's own request. */
  lemma ReplyIsForOwnRequest(actions: seq<Action>, c: nat, f: Frame)
    requires IsRun(actions) && |After(actions).calls| < U32
    requires InPhase(After(actions), c, Done(Reply(f))) || InPhase(After(actions), c, Leaving(Reply(f)))
    ensures exists j :: 0 <= j < |After(actions).log| && SentFor(After(actions), j, c, f)
  {
    RunKeepsInv(actions);
    OutcomeAnswered(After(actions), c, f);
  }

  // ----- a request is handled once -----------------------------------------------------------

  ghost function Logged(log: seq<(Frame, Frame)>, k: nat): nat {
    if log == [] then 0 else Logged(log[..|log| - 1], k) + RequestIs(log[|log| - 1].0, k)
  }

  /** A request not yet handled, or the record of its handling. */
  ghost function Handled(s: State, k: nat): nat {
    Requests(s.up, k) + Requests(s.inFlight, k) + Logged(s.log, k)
  }

  ghost predicate HandledOk(s: State) {
    forall k: nat ::
      Handled(s, k) <= 1 && (Handled(s, k) == 1 ==> 1 <= k <= |s.calls| && s.calls[k - 1].phase != Registered)
  }

  lemma HandledMove(s: State, a: Action, k: nat)
    requires IdsOk(s) && StreamsOk(s) && Enabled(s, a)
    ensures Handled(Apply(s, a), k) == Handled(s, k) + Created(s, a, k)
  {
    match a
    case WriteRequest(c) =>
      RequestsConcat(s.up, [Outgoing(OP_RPC_REQUEST, s.calls[c].seqId, s.calls[c].request)], k);
    case Emit(data) => RequestsConcat(s.up, [Outgoing(OP_EVENT_EMIT, 0, data)], k);
    case ServerReads =>
      StreamsServer(s);
      RequestsConcat(s.inFlight, [s.up[0]], k);
    case HandlerDone(i, failed, result) => HandledDone(s, i, failed, result, k);
    case _ =>
  }

  lemma HandledDone(s: State, i: nat, failed: bool, result: seq<Byte>, k: nat)
    requires Enabled(s, HandlerDone(i, failed, result))
    ensures Handled(Apply(s, HandlerDone(i, failed, result)), k) == Handled(s, k)
  {
    RequestsRemove(s.inFlight, i, k);
    var log := Apply(s, HandlerDone(i, failed, result)).log;
    assert log[..|log| - 1] == s.log;
  }

  lemma {:induction false} RunKeepsHandled(actions: seq<Action>)
    requires IsRun(actions) && |After(actions).calls| < U32
    ensures HandledOk(After(actions))
    decreases |actions|
  {
    if actions != [] {
      var before, a := actions[..|actions| - 1], actions[|actions| - 1];
      RunKeepsHandled(before);
      RunKeepsInv(before);
      HandledStep(After(before), a);
    }
  }

  lemma HandledStep(s: State, a: Action)
    requires Inv(s) && HandledOk(s) && Enabled(s, a)
    ensures HandledOk(Apply(s, a))
  {
    var t := Apply(s, a);
    forall k: nat
      ensures Handled(t, k) <= 1 && (Handled(t, k) == 1 ==> 1 <= k <= |t.calls| && t.calls[k - 1].phase != Registered)
    {
      HandledMove(s, a, k);
      assert Handled(s, k) <= 1;
    }
  }

  /** Whatever the interleaving, no call's request is answered twice. */
  lemma AnsweredAtMostOnce(actions: seq<Action>, c: nat)
    requires IsRun(actions) && |After(actions).calls| < U32 && c < |After(actions).calls|
    ensures Logged(After(actions).log, c + 1) <= 1
  {
    RunKeepsHandled(actions);
    assert Handled(After(actions), c + 1) <= 1;
  }

  // ----- what goes over the wire -------------------------------------------------------------------

  /** The bytes of one frame with this type, number and payload. */
  predicate Carries(b: seq<Byte>, msgType: nat, sequenceId: nat, payload: seq<Byte>) {
    && |b| == 16 + |payload| && b[16..] == payload && BigEndian(b[0..4]) == 0x414C_4B01 && b[4] == 1 && b[5] == 0
    && BigEndian(b[6..8]) == msgType && BigEndian(b[8..12]) == sequenceId && BigEndian(b[12..16]) == |payload|
  }

  predicate Sends(before: seq<Byte>, after: seq<Byte>, msgType: nat, sequenceId: nat, payload: seq<Byte>) {
    && |before| <= |after| && after[..|before|] == before
    && Carries(after[|before|..], msgType, sequenceId, payload)
  }

  lemma OutgoingCarries(stream: seq<Byte>, msgType: nat, sequenceId: nat, payload: seq<Byte>)
    requires msgType < U16 && sequenceId < U32 && |payload| < U32
    ensures Sends(stream, stream + Wire(Outgoing(msgType, sequenceId, payload)), msgType, sequenceId, payload)
  {
    var f := Outgoing(msgType, sequenceId, payload);
    WireLayout(f);
    assert (stream + Wire(f))[|stream|..] == Wire(f);
  }

  /** What each step writes: requests under the number of their call, replies under the number
      of the request they answer, events under none. */
  lemma BytesSent(s: State, a: Action)
    requires IdsOk(s) && StreamsOk(s) && Enabled(s, a)
    ensures var t := Apply(s, a);
      match a
      case WriteRequest(c) => t.toClient == s.toClient && Sends(s.toServer, t.toServer, 0x10, c + 1, s.calls[c].request)
      case Emit(data) => t.toClient == s.toClient && Sends(s.toServer, t.toServer, 0x20, 0, data)
      case HandlerDone(i, failed, result) =>
        && t.toServer == s.toServer
        && Sends(s.toClient, t.toClient, if failed then 0x12 else 0x11, s.inFlight[i].header.sequenceId, result)
      case Broadcast(data) => t.toServer == s.toServer && Sends(s.toClient, t.toClient, 0x20, 0, data)
      case ServerReads => t.toClient == s.toClient && |t.toServer| < |s.toServer|
      case ClientReads => t.toServer == s.toServer && |t.toClient| < |s.toClient|
      case _ => t.toServer == s.toServer && t.toClient == s.toClient
  {
    match a
    case WriteRequest(c) => OutgoingCarries(s.toServer, OP_RPC_REQUEST, c + 1, s.calls[c].request);
    case Emit(data) => OutgoingCarries(s.toServer, OP_EVENT_EMIT, 0, data);
    case Broadcast(data) => OutgoingCarries(s.toClient, OP_EVENT_EMIT, 0, data);
    case HandlerDone(i, failed, result) => ReplySent(s, i, failed, result);
    case _ =>
  }

  lemma ReplySent(s: State, i: nat, failed: bool, result: seq<Byte>)
    requires StreamsOk(s) && Enabled(s, HandlerDone(i, failed, result))
    ensures var t := Apply(s, HandlerDone(i, failed, result));
      && t.toServer == s.toServer
      && Sends(s.toClient, t.toClient, if failed then 0x12 else 0x11, s.inFlight[i].header.sequenceId, result)
  {
    assert s.inFlight[i] in s.inFlight;
    OutgoingCarries(s.toClient, if failed then OP_RPC_ERROR else OP_RPC_RESPONSE, s.inFlight[i].header.sequenceId,
                    result);
  }

  // ----- what a call comes to, in terms of the run -----------------------------------------------

  /** Step k of the run is a handler that finishes with reply f on a request of these bytes
      from call c. */
  ghost predicate HandlerGave(actions: seq<Action>, k: nat, request: seq<Byte>, c: nat, f: Frame)
    requires IsRun(actions)
  {
    && k < |actions| && actions[k].HandlerDone?
    && IsRun(actions[..k]) && GaveAt(After(actions[..k]), actions[k], request, c, f)
  }

  predicate GaveAt(s: State, a: Action, request: seq<Byte>, c: nat, f: Frame)
    requires a.HandlerDone?
  {
    && a.i < |s.inFlight| && s.inFlight[a.i].payload == request && s.inFlight[a.i].header.sequenceId == c + 1
    && f.payload == a.result && f.header.sequenceId == c + 1
    && f.header.msgType == if a.failed then 0x0012 else 0x0011
  }

  /** Every entry of the log is a handler that finished. */
  lemma {:induction false} LoggedByHandler(actions: seq<Action>, j: nat, c: nat) returns (k: nat)
    requires IsRun(actions) && j < |After(actions).log| && After(actions).log[j].0.header.sequenceId == c + 1
    ensures HandlerGave(actions, k, After(actions).log[j].0.payload, c, After(actions).log[j].1)
    decreases |actions|
  {
    var n := |actions| - 1;
    var before := actions[..n];
    if j < |After(before).log| {
      assert After(actions).log[j] == After(before).log[j];
      k := LoggedByHandler(before, j, c);
      assert before[..k] == actions[..k] && before[k] == actions[k];
    } else {
      k := n;
      LogGrows(After(before), actions[n], c);
    }
  }

  lemma LogGrows(s: State, a: Action, c: nat)
    requires Enabled(s, a) && |Apply(s, a).log| > |s.log|
    ensures a.HandlerDone? && |Apply(s, a).log| == |s.log| + 1
    ensures var (req, f) := Apply(s, a).log[|s.log|]; req.header.sequenceId == c + 1 ==> GaveAt(s, a, req.payload, c, f)
  {
  }

  /** A call that returns a reply returns what a handler made of this call's own request: the
      bytes the handler gave, marked as an error exactly if it failed. */
  lemma ReplyIsHandlersResult(actions: seq<Action>, c: nat, f: Frame)
    requires IsRun(actions) && |After(actions).calls| < U32
    requires InPhase(After(actions), c, Done(Reply(f))) || InPhase(After(actions), c, Leaving(Reply(f)))
    ensures c < |Started(actions)| && exists k :: HandlerGave(actions, k, Started(actions)[c], c, f)
  {
    CallsAreStarted(actions);
    ReplyIsForOwnRequest(actions, c, f);
    var j :| 0 <= j < |After(actions).log| && SentFor(After(actions), j, c, f);
    var k := LoggedByHandler(actions, j, c);
  }

  /** The requests of the calls started, in order. */
  function Started(actions: seq<Action>): seq<seq<Byte>>
    decreases |actions|
  {
    if actions == [] then []
    else
      var a := actions[|actions| - 1];
      Started(actions[..|actions| - 1]) + if a.StartCall? then [a.request] else []
  }

  /** The c-th call is the c-th started, with the bytes it was started with. */
  lemma {:induction false} CallsAreStarted(actions: seq<Action>)
    requires IsRun(actions)
    ensures |After(actions).calls| == |Started(actions)|
    ensures forall c :: 0 <= c < |Started(actions)| ==> After(actions).calls[c].request == Started(actions)[c]
    decreases |actions|
  {
    if actions != [] {
      CallsAreStarted(actions[..|actions| - 1]);
      RequestsStay(After(actions[..|actions| - 1]), actions[|actions| - 1]);
    }
  }

  lemma RequestsStay(s: State, a: Action)
    requires Enabled(s, a)
    ensures var calls := Apply(s, a).calls;
      && |calls| == |s.calls| + (if a.StartCall? then 1 else 0)
      && (forall c :: 0 <= c < |s.calls| ==> calls[c].request == s.calls[c].request)
      && (a.StartCall? ==> calls[|s.calls|].request == a.request)
  {
  }

  /** Where a call is, told by what has happened to it. */
  ghost predicate IsAt(actions: seq<Action>, c: nat, p: Phase) {
    match p
    case Registered => WriteRequest(c) !in actions && !Told(actions, c)
    case Waiting => WriteRequest(c) in actions && !Told(actions, c)
    case Leaving(out) => Unregister(c) !in actions && EndedAs(actions, c, out)
    case Done(out) => Unregister(c) in actions && EndedAs(actions, c, out)
  }

  /** The call has taken a reply, or its timer has fired. */
  ghost predicate Told(actions: seq<Action>, c: nat) {
    Timeout(c) in actions || Receive(c) in actions || Unregister(c) in actions
  }

  ghost predicate EndedAs(actions: seq<Action>, c: nat, out: Outcome) {
    WriteRequest(c) in actions && (if out.TimedOut? then Timeout(c) else Receive(c)) in actions
    && (if out.TimedOut? then Receive(c) else Timeout(c)) !in actions
  }

  predicate IsAbout(a: Action, c: nat) {
    a == WriteRequest(c) || a == Timeout(c) || a == Receive(c) || a == Unregister(c)
  }

  /** One action moves one call, by one phase. */
  lemma PhaseMoves(s: State, a: Action, c: nat)
    requires Enabled(s, a) && c < |s.calls|
    ensures c < |Apply(s, a).calls|
    ensures var p := s.calls[c].phase;
      Apply(s, a).calls[c].phase ==
      if a == WriteRequest(c) then Waiting
      else if a == Timeout(c) then Leaving(TimedOut)
      else if a == Receive(c) then Leaving(Reply(s.calls[c].inbox[0]))
      else if a == Unregister(c) then Done(p.out)
      else p
    ensures a == WriteRequest(c) ==> s.calls[c].phase == Registered
    ensures a == Timeout(c) || a == Receive(c) ==> s.calls[c].phase == Waiting
  {
  }

  lemma StaysTold(before: seq<Action>, a: Action, c: nat, p: Phase, q: Phase)
    requires IsAt(before, c, p) && if !IsAbout(a, c) then q == p
                                   else match a
                                     case WriteRequest(_) => p == Registered && q == Waiting
                                     case Timeout(_) => p == Waiting && q == Leaving(TimedOut)
                                     case Receive(_) => p == Waiting && q.Leaving? && q.out.Reply?
                                     case _ => p.Leaving? && q == Done(p.out)
    ensures IsAt(before + [a], c, q)
  {
    var actions := before + [a];
    assert forall x :: x in actions <==> x in before || x == a;
  }

  /** A call waits from the writing of its request on, and ends: with a reply exactly if it
      takes one, by timeout exactly if its timer fires. */
  lemma {:induction false} CallIsWhereTold(actions: seq<Action>, c: nat)
    requires IsRun(actions)
    ensures c < |After(actions).calls| ==> IsAt(actions, c, After(actions).calls[c].phase)
    ensures c >= |After(actions).calls| ==> forall a :: a in actions ==> !IsAbout(a, c)
    decreases |actions|
  {
    if actions != [] {
      var n := |actions| - 1;
      var before, a := actions[..n], actions[n];
      assert actions == before + [a];
      CallIsWhereTold(before, c);
      var s := After(before);
      if c < |s.calls| {
        PhaseMoves(s, a, c);
        StaysTold(before, a, c, s.calls[c].phase, After(actions).calls[c].phase);
      } else {
        assert !IsAbout(a, c);
      }
    }
  }
}
