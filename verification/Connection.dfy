/** The client's side of the connection (`Connection::round_trip`, `send_recv` and `connect` in
    bindings/rust-ipc/src/connection.rs) together with the daemon, one byte range at a time: partial
    writes and reads, crashes, timeouts, teardown and respawn in any order.  Every byte carries the
    number of the call it was sent for, so that a stale reply would show.
 */
module Connection {
  import opened Options
  import opened Utf8
  import opened Wire
  import opened Daemon
  import Remote

  datatype Tagged = Tagged(b: byte, call: nat)

  function Tag(s: seq<byte>, call: nat): (t: seq<Tagged>)
    ensures |t| == |s|
  {
    seq(|s|, i requires 0 <= i < |s| => Tagged(s[i], call))
  }

  function Bytes(t: seq<Tagged>): (s: seq<byte>)
    ensures |s| == |t|
  {
    seq(|t|, i requires 0 <= i < |t| => t[i].b)
  }

  /** The daemon reads a request, writes a reply, or is gone. */
  datatype Server = Reading(buf: seq<Tagged>) | Writing(out: seq<Tagged>, buf: seq<Tagged>) | Dead

  /** The two directions of the socket, with what the buffers on either side still hold. */
  datatype Link = Link(up: seq<Tagged>, down: seq<Tagged>, server: Server)

  const FRESH := Link([], [], Reading([]))

  /** Where the client is.  `attempt` is 1, or 2 for the retry. */
  datatype Phase =
    | Idle
    | Connecting(q: Request, attempt: nat)
    | Sending(q: Request, attempt: nat, left: seq<Tagged>)
    | Receiving(q: Request, attempt: nat, got: seq<Tagged>)

  /** How a call ends: with a reply, with a transport error, with a request that is too large, or
      without a connection. */
  datatype Ending = Replied(raw: seq<Tagged>, reply: Frame) | TransportFailed | Rejected | NotConnected

  datatype Call = Call(id: nat, q: Request, ending: Ending, connects: nat, sends: nat)

  /** `link` is the connection's `inner`; `id`, `connects` and `sends` are about the latest call;
      `done` are the calls that have returned. */
  datatype State = State(link: Option<Link>, phase: Phase, id: nat, connects: nat, sends: nat, done: seq<Call>)

  const START := State(Some(FRESH), Idle, 0, 0, 0, [])

  /** What can happen next; `n` is how many bytes move. */
  datatype Action =
    | Begin(request: Request)
    | ConnectOk
    | ConnectFailed
    | ClientWrites(n: nat)
    | ClientReads(n: nat)
    | ClientDone
    | ClientFails
    | ServerReads(n: nat)
    | ServerAnswers
    | ServerWrites(n: nat)
    | ServerDies

  /** The daemon's parameters. */
  datatype Env = Env(lib: Library, w: Wording, reserve: nat -> bool)

  // ----- the client -------------------------------------------------------------------------------

  function Return(s: State, q: Request, e: Ending): State {
    s.(phase := Idle, done := s.done + [Call(s.id, q, e, s.connects, s.sends)])
  }

  /** `send_recv` begins: a request that is too large returns before any byte is written. */
  function Attempt(s: State, q: Request, attempt: nat): State {
    var w := PutRequest(q);
    if w.TooBig? then Return(s, q, Rejected)
    else s.(phase := Sending(q, attempt, Tag(w.bytes, s.id)), sends := s.sends + 1)
  }

  /** `round_trip` begins, reconnecting if an earlier failure tore the connection down. */
  function BeginCall(s: State, q: Request): State {
    var t := s.(id := s.id + 1, connects := 0, sends := 0);
    if s.link.None? then t.(phase := Connecting(q, 1)) else Attempt(t, q, 1)
  }

  function Connected(s: State, q: Request, attempt: nat): State {
    Attempt(s.(link := Some(FRESH), connects := s.connects + 1), q, attempt)
  }

  /** A transport error: the connection is torn down, and the first time the request is retried. */
  function Failed(s: State, q: Request, attempt: nat): State {
    var t := s.(link := None);
    if attempt == 1 then t.(phase := Connecting(q, 2)) else Return(t, q, TransportFailed)
  }

  function Sent(s: State, l: Link, q: Request, attempt: nat, left: seq<Tagged>, n: nat): State
    requires n <= |left|
  {
    var t := s.(link := Some(l.(up := l.up + left[..n])));
    if n == |left| then t.(phase := Receiving(q, attempt, [])) else t.(phase := Sending(q, attempt, left[n..]))
  }

  /** The reply is complete; what was read beyond it stays in the stream. */
  function Finished(s: State, l: Link, q: Request, got: seq<Tagged>): State
    requires GetFrame(Bytes(got)).Got?
  {
    var g := GetFrame(Bytes(got));
    var raw := got[..|got| - |g.rest|];
    Return(s.(link := Some(l.(down := got[|got| - |g.rest|..] + l.down))), q, Replied(raw, g.value))
  }

  // ----- the daemon -------------------------------------------------------------------------------

  /** A complete frame is answered; the reply carries the number of the request's last byte. */
  function Answered(e: Env, buf: seq<Tagged>): Server
    requires Short(e.w)
  {
    match GetFrame(Bytes(buf))
    case Fail(error) => if error.UnexpectedEof? then Reading(buf) else Dead
    case Got(f, rest) =>
      if Aborts(e.reserve, f) then Dead
      else
        AnswersFit(e.lib, e.w, f);
        Writing(Tag(PutFrame(Answer(e.lib, e.w, f)).bytes, buf[|buf| - |rest| - 1].call), buf[|buf| - |rest|..])
  }

  /** A transport error can happen while a request is written, and while a reply is awaited; once the
      reply is complete `send_recv` returns it. */
  predicate CanFail(s: State) {
    s.phase.Sending? || (s.phase.Receiving? && GetFrame(Bytes(s.phase.got)).Fail?)
  }

  // ----- one step --------------------------------------------------------------------------------------

  /** An action that cannot happen in a state changes nothing. */
  function Next(e: Env, s: State, a: Action): State
    requires Short(e.w)
  {
    match a
    case Begin(q) => if s.phase.Idle? then BeginCall(s, q) else s
    case ConnectOk => if s.phase.Connecting? then Connected(s, s.phase.q, s.phase.attempt) else s
    case ConnectFailed =>
      if s.phase.Connecting? then Return(s.(connects := s.connects + 1), s.phase.q, NotConnected) else s
    case ClientWrites(n) =>
      if s.phase.Sending? && s.link.Some? && n <= |s.phase.left| then
        Sent(s, s.link.value, s.phase.q, s.phase.attempt, s.phase.left, n)
      else s
    case ClientReads(n) =>
      if s.phase.Receiving? && s.link.Some? && n <= |s.link.value.down| && GetFrame(Bytes(s.phase.got)).Fail? then
        s.(link := Some(s.link.value.(down := s.link.value.down[n..])),
           phase := s.phase.(got := s.phase.got + s.link.value.down[..n]))
      else s
    case ClientDone =>
      if s.phase.Receiving? && s.link.Some? && GetFrame(Bytes(s.phase.got)).Got? then
        Finished(s, s.link.value, s.phase.q, s.phase.got)
      else s
    case ClientFails => if CanFail(s) then Failed(s, s.phase.q, s.phase.attempt) else s
    case _ => if s.link.Some? then s.(link := Some(ServerNext(e, s.link.value, a))) else s
  }

  function ServerNext(e: Env, l: Link, a: Action): Link
    requires Short(e.w)
  {
    match a
    case ServerReads(n) =>
      if l.server.Reading? && n <= |l.up| then l.(up := l.up[n..], server := Reading(l.server.buf + l.up[..n])) else l
    case ServerAnswers => if l.server.Reading? then l.(server := Answered(e, l.server.buf)) else l
    case ServerWrites(n) =>
      if l.server.Writing? && n <= |l.server.out| then
        l.(down := l.down + l.server.out[..n],
           server := if n == |l.server.out| then Reading(l.server.buf) else Writing(l.server.out[n..], l.server.buf))
      else l
    case ServerDies => l.(server := Dead)
    case _ => l
  }

  /** A run: any actions in any order. */
  function Run(e: Env, s: State, actions: seq<Action>): State
    requires Short(e.w)
    decreases |actions|
  {
    if actions == [] then s else Run(e, Next(e, s, actions[0]), actions[1..])
  }

  // ----- what holds in every state -----------------------------------------------------------------------

  /** The frame that carries a request. */
  function FrameOf(q: Request): Frame
    requires PutRequest(q).Written?
  {
    Frame(Opcode(q), 0, RequestBody(q).bytes)
  }

  /** The bytes of the daemon's reply to the request. */
  function ReplyBytes(e: Env, q: Request): (s: seq<byte>)
    requires Short(e.w) && PutRequest(q).Written?
    ensures |s| > 0
  {
    AnswersFit(e.lib, e.w, FrameOf(q));
    PutFrame(Answer(e.lib, e.w, FrameOf(q))).bytes
  }

  /** Between calls: nothing under way in either direction, and the daemon at a frame boundary or
      dead. */
  predicate Quiet(l: Link) {
    l.up == [] && l.down == [] && (l.server == Reading([]) || l.server.Dead?)
  }

  /** While a request is being sent the daemon has not seen all of it and has not replied. */
  predicate SendingOk(l: Link, id: nat, q: Request, left: seq<Tagged>) {
    && PutRequest(q).Written? && left != [] && l.down == []
    && match l.server
       case Reading(buf) => buf + l.up + left == Tag(PutRequest(q).bytes, id)
       case Writing(_, _) => false
       case Dead => true
  }

  /** While a reply is awaited, either the request or its reply is under way, and nothing else. */
  predicate ReceivingOk(e: Env, l: Link, id: nat, q: Request, got: seq<Tagged>)
    requires Short(e.w)
  {
    && PutRequest(q).Written?
    && var reply := Tag(ReplyBytes(e, q), id);
       match l.server
       case Reading(buf) =>
         || (got == [] && l.down == [] && buf + l.up == Tag(PutRequest(q).bytes, id))
         || (buf == [] && l.up == [] && got + l.down == reply)
       case Writing(out, buf) => out != [] && buf == [] && l.up == [] && got + l.down + out == reply
       case Dead => got + l.down <= reply && (got + l.down == [] || l.up == [])
  }

  /** Connections opened and requests sent so far, by phase. */
  predicate CountsOk(s: State) {
    match s.phase
    case Idle => true
    case Connecting(_, a) => (a == 1 && s.connects == 0 == s.sends) || (a == 2 && s.connects <= 1 == s.sends)
    case Sending(_, a, _) => (a == 1 && s.connects <= 1 == s.sends) || (a == 2 && s.connects <= 2 == s.sends)
    case Receiving(_, a, _) => (a == 1 && s.connects <= 1 == s.sends) || (a == 2 && s.connects <= 2 == s.sends)
  }

  /** A call that has returned: if with a reply, then with the daemon's reply to that very request,
      every byte of it sent for this call.  A request that is too large was not sent at all, and a
      transport error is only reported after the retry. */
  predicate CallOk(e: Env, c: Call)
    requires Short(e.w)
  {
    && c.connects <= 2 && c.sends <= 2
    && match c.ending
       case Replied(raw, reply) =>
         && PutRequest(c.q).Written? && c.sends >= 1
         && raw == Tag(ReplyBytes(e, c.q), c.id) && reply == Answer(e.lib, e.w, FrameOf(c.q))
       case Rejected => PutRequest(c.q).TooBig? && c.sends == 0
       case TransportFailed => c.sends == 2
       case NotConnected => c.sends <= 1
  }

  predicate LinkOk(e: Env, s: State)
    requires Short(e.w)
  {
    match s.phase
    case Idle => s.link.Some? ==> Quiet(s.link.value)
    case Connecting(q, a) => s.link.None? && (a == 2 ==> PutRequest(q).Written?)
    case Sending(q, _, left) => s.link.Some? && SendingOk(s.link.value, s.id, q, left)
    case Receiving(q, _, got) => s.link.Some? && ReceivingOk(e, s.link.value, s.id, q, got)
  }

  /** The calls that have returned, their numbers going up and all below `limit`. */
  predicate CallsOk(e: Env, done: seq<Call>, limit: nat)
    requires Short(e.w)
  {
    && (forall i :: 0 <= i < |done| ==> CallOk(e, done[i]) && done[i].id < limit)
    && (forall i, j :: 0 <= i < j < |done| ==> done[i].id < done[j].id)
  }

  /** Every call returns once: the call under way has not returned yet. */
  predicate DoneOk(e: Env, s: State)
    requires Short(e.w)
  {
    CallsOk(e, s.done, if s.phase.Idle? then s.id + 1 else s.id)
  }

  predicate Inv(e: Env, s: State)
    requires Short(e.w)
  {
    LinkOk(e, s) && CountsOk(s) && DoneOk(e, s)
  }

  // ----- streams -------------------------------------------------------------------------------------------

  lemma TagPrefix(s: seq<byte>, id: nat, t: seq<Tagged>)
    requires t <= Tag(s, id)
    ensures Bytes(t) == s[..|t|]
  {
    assert t == Tag(s, id)[..|t|];
  }

  /** A part of a frame is not a frame, and a whole frame is. */
  lemma FramePart(f: Frame, id: nat, t: seq<Tagged>)
    requires PutFrame(f).Written? && t <= Tag(PutFrame(f).bytes, id)
    ensures GetFrame(Bytes(t)) == if |t| < |PutFrame(f).bytes| then Fail(UnexpectedEof) else Got(f, [])
  {
    hide PutFrame, GetFrame;
    var s := PutFrame(f).bytes;
    TagPrefix(s, id, t);
    if |t| < |s| {
      PartialFrameIsEof(f, |t|);
    } else {
      assert s[..|t|] == s && s + [] == s;
      FrameRoundTrip(f, []);
    }
  }

  lemma RequestIsFrame(q: Request)
    requires PutRequest(q).Written?
    ensures PutRequest(q) == PutFrame(FrameOf(q)) && |PutRequest(q).bytes| >= 8
  {
    hide RequestBody, PutU32;
  }

  // ----- every step keeps the invariant ------------------------------------------------------------------------

  /** The end of a call. */
  lemma ReturnKeeps(e: Env, s: State, q: Request, ending: Ending)
    requires Short(e.w) && CallsOk(e, s.done, s.id) && CallOk(e, Call(s.id, q, ending, s.connects, s.sends))
    ensures DoneOk(e, Return(s, q, ending))
  {
    hide CallOk, Short;
  }

  lemma AttemptKeeps(e: Env, s: State, q: Request, attempt: nat)
    requires Short(e.w) && CallsOk(e, s.done, s.id) && s.link.Some? && Quiet(s.link.value)
    requires (attempt == 1 && s.connects <= 1 && s.sends == 0) || (attempt == 2 && s.connects <= 2 && s.sends == 1)
    requires attempt == 2 ==> PutRequest(q).Written?
    ensures Inv(e, Attempt(s, q, attempt))
  {
    hide PutRequest, Short, CallsOk, Answer;
    if PutRequest(q).TooBig? {
      ReturnKeeps(e, s, q, Rejected);
    } else {
      RequestNotEmpty(q);
      var left := Tag(PutRequest(q).bytes, s.id);
      assert [] + [] + left == left;
    }
  }

  lemma RequestNotEmpty(q: Request)
    requires PutRequest(q).Written?
    ensures PutRequest(q).bytes != []
  {
    hide RequestBody;
    RequestIsFrame(q);
  }

  lemma BeginKeeps(e: Env, s: State, q: Request)
    requires Short(e.w) && Inv(e, s) && s.phase.Idle?
    ensures Inv(e, BeginCall(s, q))
  {
    hide PutRequest, Short, CallsOk, Attempt, Answer;
    var t := s.(id := s.id + 1, connects := 0, sends := 0);
    if s.link.Some? {
      AttemptKeeps(e, t, q, 1);
    }
  }

  lemma ConnectKeeps(e: Env, s: State)
    requires Short(e.w) && Inv(e, s) && s.phase.Connecting?
    ensures Inv(e, Connected(s, s.phase.q, s.phase.attempt))
    ensures Inv(e, Return(s.(connects := s.connects + 1), s.phase.q, NotConnected))
  {
    hide PutRequest, Short, CallsOk, Attempt, Answer;
    AttemptKeeps(e, s.(link := Some(FRESH), connects := s.connects + 1), s.phase.q, s.phase.attempt);
    ReturnKeeps(e, s.(connects := s.connects + 1), s.phase.q, NotConnected);
  }

  lemma Regroup(a: seq<Tagged>, b: seq<Tagged>, c: seq<Tagged>, n: nat)
    requires n <= |c|
    ensures a + (b + c[..n]) + c[n..] == a + b + c
  {
  }

  lemma WriteKeeps(e: Env, s: State, n: nat)
    requires Short(e.w) && Inv(e, s) && s.phase.Sending? && n <= |s.phase.left|
    ensures Inv(e, Sent(s, s.link.value, s.phase.q, s.phase.attempt, s.phase.left, n))
  {
    hide PutRequest, Short, CallsOk, Answer;
    var l, left := s.link.value, s.phase.left;
    if l.server.Reading? {
      Regroup(l.server.buf, l.up, left, n);
      if n == |left| {
        assert left[n..] == [];
        assert l.server.buf + (l.up + left[..n]) + [] == l.server.buf + (l.up + left[..n]);
      }
    }
  }

  lemma ReadKeeps(e: Env, s: State, n: nat)
    requires Short(e.w) && Inv(e, s) && s.phase.Receiving? && n <= |s.link.value.down|
    ensures Inv(e, s.(link := Some(s.link.value.(down := s.link.value.down[n..])),
                      phase := s.phase.(got := s.phase.got + s.link.value.down[..n])))
  {
    hide PutRequest, Short, CallsOk, Answer;
    var got, down := s.phase.got, s.link.value.down;
    assert got + down[..n] + down[n..] == got + down;
    if n == 0 {
      assert down[n..] == down && got + down[..n] == got;
    }
  }

  /** Only a complete reply ends the wait, and then nothing is left in the streams. */
  lemma CompleteIsReply(e: Env, s: State)
    requires Short(e.w) && Inv(e, s) && s.phase.Receiving? && GetFrame(Bytes(s.phase.got)).Got?
    ensures s.phase.got == Tag(ReplyBytes(e, s.phase.q), s.id)
    ensures GetFrame(Bytes(s.phase.got)) == Got(Answer(e.lib, e.w, FrameOf(s.phase.q)), [])
    ensures Quiet(s.link.value)
  {
    hide PutRequest, Short, CallsOk, Answer, GetFrame, PutFrame, RequestBody;
    var q, got, l := s.phase.q, s.phase.got, s.link.value;
    var reply := Tag(ReplyBytes(e, q), s.id);
    AnswersFit(e.lib, e.w, FrameOf(q));
    NoBytesNoFrame();
    assert got != [];
    assert got <= reply by {
      if l.server.Writing? {
        assert got + (l.down + l.server.out) == got + l.down + l.server.out;
      } else {
        assert got <= got + l.down;
      }
    }
    FramePart(Answer(e.lib, e.w, FrameOf(q)), s.id, got);
    assert |got| == |reply|;
    assert |got + l.down| <= |reply|;
  }

  lemma NoBytesNoFrame()
    ensures GetFrame(Bytes([])) == Fail(UnexpectedEof)
  {
  }

  lemma DoneKeeps(e: Env, s: State)
    requires Short(e.w) && Inv(e, s) && s.phase.Receiving? && GetFrame(Bytes(s.phase.got)).Got?
    ensures Inv(e, Finished(s, s.link.value, s.phase.q, s.phase.got))
  {
    hide PutRequest, Short, CallsOk, Answer, GetFrame, RequestBody, ReplyBytes, FrameOf;
    CompleteIsReply(e, s);
    var got, l := s.phase.got, s.link.value;
    assert got[..|got|] == got && got[|got|..] == [] && [] + l.down == l.down;
    assert l.(down := []) == l;
    ReturnKeeps(e, s, s.phase.q, Replied(got, Answer(e.lib, e.w, FrameOf(s.phase.q))));
  }

  lemma FailKeeps(e: Env, s: State)
    requires Short(e.w) && Inv(e, s) && (s.phase.Sending? || s.phase.Receiving?)
    ensures Inv(e, Failed(s, s.phase.q, s.phase.attempt))
  {
    hide PutRequest, Short, CallsOk, Answer;
    if s.phase.attempt != 1 {
      ReturnKeeps(e, s, s.phase.q, TransportFailed);
    }
  }

  /** The daemon answers a request only once it has all of it, and answers that request. */
  lemma AnsweredIs(e: Env, q: Request, id: nat, buf: seq<Tagged>)
    requires Short(e.w) && PutRequest(q).Written? && buf <= Tag(PutRequest(q).bytes, id)
    ensures |buf| < |PutRequest(q).bytes| ==> Answered(e, buf) == Reading(buf)
    ensures |buf| == |PutRequest(q).bytes| ==>
              Answered(e, buf) == Dead || Answered(e, buf) == Writing(Tag(ReplyBytes(e, q), id), [])
  {
    hide PutRequest, Short, Answer, GetFrame, PutFrame, RequestBody, Aborts;
    RequestIsFrame(q);
    FramePart(FrameOf(q), id, buf);
    if |buf| == |PutRequest(q).bytes| {
      assert buf[|buf| - 1] == Tag(PutRequest(q).bytes, id)[|buf| - 1];
      assert buf[|buf|..] == [];
    }
  }

  lemma ServerKeeps(e: Env, s: State, a: Action)
    requires Short(e.w) && Inv(e, s) && s.link.Some?
    requires a.ServerReads? || a.ServerAnswers? || a.ServerWrites? || a.ServerDies?
    ensures Inv(e, s.(link := Some(ServerNext(e, s.link.value, a))))
  {
    hide PutRequest, Short, CallsOk, Answer, GetFrame, PutFrame, RequestBody, Aborts, Answered, ReplyBytes, FrameOf;
    var l := s.link.value;
    match s.phase {
      case Idle => IdleServer(e, l, a);
      case Connecting(_, _) =>
      case Sending(q, _, left) => SendingServer(e, l, s.id, q, left, a);
      case Receiving(q, _, got) => ReceivingServer(e, l, s.id, q, got, a);
    }
  }

  lemma IdleServer(e: Env, l: Link, a: Action)
    requires Short(e.w) && Quiet(l)
    requires a.ServerReads? || a.ServerAnswers? || a.ServerWrites? || a.ServerDies?
    ensures Quiet(ServerNext(e, l, a))
  {
    hide GetFrame, Answer, Aborts, Short, PutFrame;
    NoBytesNoFrame();
  }

  lemma SendingServer(e: Env, l: Link, id: nat, q: Request, left: seq<Tagged>, a: Action)
    requires Short(e.w) && SendingOk(l, id, q, left)
    requires a.ServerReads? || a.ServerAnswers? || a.ServerWrites? || a.ServerDies?
    ensures SendingOk(ServerNext(e, l, a), id, q, left)
  {
    hide GetFrame, Answer, Aborts, Short, PutFrame, PutRequest, Answered;
    if l.server.Reading? {
      var buf := l.server.buf;
      if a.ServerReads? && a.n <= |l.up| {
        assert buf + l.up[..a.n] + l.up[a.n..] + left == buf + l.up + left;
      }
      assert buf <= buf + l.up + left;
      AnsweredIs(e, q, id, buf);
    }
  }

  lemma ReceivingServer(e: Env, l: Link, id: nat, q: Request, got: seq<Tagged>, a: Action)
    requires Short(e.w) && ReceivingOk(e, l, id, q, got)
    requires a.ServerReads? || a.ServerAnswers? || a.ServerWrites? || a.ServerDies?
    ensures ReceivingOk(e, ServerNext(e, l, a), id, q, got)
  {
    hide GetFrame, Answer, Aborts, Short, PutFrame, PutRequest, Answered, ReplyBytes;
    var reply := Tag(ReplyBytes(e, q), id);
    match l.server {
      case Reading(buf) =>
        if a.ServerReads? && a.n <= |l.up| {
          assert buf + l.up[..a.n] + l.up[a.n..] == buf + l.up;
        }
        if a.ServerAnswers? {
          if buf + l.up == Tag(PutRequest(q).bytes, id) {
            assert buf <= buf + l.up;
            AnsweredIs(e, q, id, buf);
            if |buf| == |PutRequest(q).bytes| {
              assert l.up == [];
              assert got + l.down + reply == reply || !(got == [] && l.down == []);
            }
          }
          NothingAnswered(e);
        }
      case Writing(out, buf) =>
        if a.ServerWrites? && a.n <= |out| {
          assert got + (l.down + out[..a.n]) + out[a.n..] == got + l.down + out;
          if a.n == |out| {
            assert out[..a.n] == out && got + (l.down + out) == got + l.down + out;
          }
        }
        assert got + l.down <= got + l.down + out;
      case Dead =>
    }
  }

  lemma NothingAnswered(e: Env)
    requires Short(e.w)
    ensures Answered(e, []) == Reading([])
  {
    hide GetFrame, Answer, Aborts, Short, PutFrame;
    NoBytesNoFrame();
  }

  lemma NextKeeps(e: Env, s: State, a: Action)
    requires Short(e.w) && Inv(e, s)
    ensures Inv(e, Next(e, s, a))
  {
    hide Short, Inv, BeginCall, Connected, Return, Sent, Finished, Failed, ServerNext, GetFrame;
    match a {
      case Begin(q) => if s.phase.Idle? { BeginKeeps(e, s, q); }
      case ConnectOk => if s.phase.Connecting? { ConnectKeeps(e, s); }
      case ConnectFailed => if s.phase.Connecting? { ConnectKeeps(e, s); }
      case ClientWrites(n) =>
        if s.phase.Sending? && s.link.Some? && n <= |s.phase.left| { WriteKeeps(e, s, n); }
      case ClientReads(n) =>
        if s.phase.Receiving? && s.link.Some? && n <= |s.link.value.down| { ReadKeeps(e, s, n); }
      case ClientDone =>
        if s.phase.Receiving? && s.link.Some? && GetFrame(Bytes(s.phase.got)).Got? { DoneKeeps(e, s); }
      case ClientFails => if CanFail(s) { FailKeeps(e, s); }
      case _ => if s.link.Some? { ServerKeeps(e, s, a); }
    }
  }

  // ----- every run ---------------------------------------------------------------------------------------------

  lemma {:induction false} RunKeeps(e: Env, s: State, actions: seq<Action>)
    requires Short(e.w) && Inv(e, s)
    ensures Inv(e, Run(e, s, actions))
    decreases |actions|
  {
    hide Inv, Short, Next;
    if actions != [] {
      NextKeeps(e, s, actions[0]);
      RunKeeps(e, Next(e, s, actions[0]), actions[1..]);
    }
  }

  lemma StartOk(e: Env)
    requires Short(e.w)
    ensures Inv(e, START)
  {
    hide Short;
  }

  /** No stale reply, in any run: a call that returns a reply returns the daemon's reply to its own
      request, all of whose bytes were sent for this call; and no call opens more than two
      connections or sends its request more than twice. */
  lemma NoStaleReply(e: Env, actions: seq<Action>, i: nat)
    requires Short(e.w) && i < |Run(e, START, actions).done|
    ensures CallOk(e, Run(e, START, actions).done[i])
  {
    hide Short, CallOk, Run, Next, LinkOk, CountsOk;
    StartOk(e);
    RunKeeps(e, START, actions);
  }

  /** A kept connection is in step, in any run: whenever no call is under way, both directions are
      empty and the daemon waits at a frame boundary, unless it has died. */
  lemma KeptConnectionIsQuiet(e: Env, actions: seq<Action>)
    requires Short(e.w)
    ensures
      var s := Run(e, START, actions);
      s.phase.Idle? && s.link.Some? ==> Quiet(s.link.value)
  {
    hide Short, Quiet, Run, Next, DoneOk, CountsOk;
    StartOk(e);
    RunKeeps(e, START, actions);
  }

  /** `t` is on the way of the call whose complete reply `s` holds: it still holds it, nothing having
      been sent or opened since, or the call has returned with it. */
  predicate Committed(e: Env, s: State, t: State)
    requires Short(e.w) && s.phase.Receiving? && PutRequest(s.phase.q).Written?
  {
    var reply := Replied(s.phase.got, Answer(e.lib, e.w, FrameOf(s.phase.q)));
    || (t.phase == s.phase && t.link.Some? && (t.id, t.connects, t.sends, t.done) ==
      (s.id, s.connects, s.sends, s.done))
    || (s.done + [Call(s.id, s.phase.q, reply, s.connects, s.sends)] <= t.done)
  }

  lemma DoneOnlyGrows(e: Env, s: State, a: Action)
    requires Short(e.w)
    ensures s.done <= Next(e, s, a).done
  {
    hide Short, PutRequest, GetFrame, ServerNext;
  }

  lemma CommittedStays(e: Env, s: State, t: State, a: Action)
    requires Short(e.w) && Inv(e, s) && s.phase.Receiving? && GetFrame(Bytes(s.phase.got)).Got?
    requires PutRequest(s.phase.q).Written? && Committed(e, s, t)
    ensures Committed(e, s, Next(e, t, a))
  {
    hide Short, PutRequest, Answer, Inv, ServerNext, GetFrame, Attempt, FrameOf;
    DoneOnlyGrows(e, t, a);
    if t.phase == s.phase && t.done == s.done && a.ClientDone? {
      CompleteIsReply(e, s);
      var got := s.phase.got;
      assert got[..|got|] == got;
    }
  }

  lemma {:induction false} CommittedRuns(e: Env, s: State, t: State, actions: seq<Action>)
    requires Short(e.w) && Inv(e, s) && s.phase.Receiving? && GetFrame(Bytes(s.phase.got)).Got?
    requires PutRequest(s.phase.q).Written? && Committed(e, s, t)
    ensures Committed(e, s, Run(e, t, actions))
    decreases |actions|
  {
    hide Short, PutRequest, Committed, Inv, Next, GetFrame;
    if actions != [] {
      CommittedStays(e, s, t, actions[0]);
      CommittedRuns(e, s, Next(e, t, actions[0]), actions[1..]);
    }
  }

  /** No retry after a reply: once the reply of an attempt is complete, then whatever happens next,
      crashes and timeouts included, the call returns that reply, without another connection or
      another send. */
  lemma NeverRetriesAfterReply(e: Env, before: seq<Action>, after: seq<Action>)
    requires Short(e.w)
    requires Run(e, START, before).phase.Receiving? && GetFrame(Bytes(Run(e, START, before).phase.got)).Got?
    ensures PutRequest(Run(e, START, before).phase.q).Written?
    ensures Committed(e, Run(e, START, before), Run(e, Run(e, START, before), after))
  {
    hide Short, Run, Next, Answer, GetFrame, PutRequest, CallsOk;
    StartOk(e);
    RunKeeps(e, START, before);
    CommittedRuns(e, Run(e, START, before), Run(e, START, before), after);
  }

  /** And the client can always take the last step. */
  lemma ReplyReturns(e: Env, s: State)
    requires Short(e.w) && Inv(e, s) && s.phase.Receiving? && GetFrame(Bytes(s.phase.got)).Got?
    ensures PutRequest(s.phase.q).Written?
    ensures
      var reply := Replied(s.phase.got, Answer(e.lib, e.w, FrameOf(s.phase.q)));
      Next(e, s, ClientDone).done == s.done + [Call(s.id, s.phase.q, reply, s.connects, s.sends)]
  {
    hide Short, PutRequest, Answer, CallsOk, GetFrame, FrameOf;
    CompleteIsReply(e, s);
    var got := s.phase.got;
    assert got[..|got|] == got;
  }

  /** A call returns at most once. */
  lemma CallsReturnOnce(e: Env, actions: seq<Action>, i: nat, j: nat)
    requires Short(e.w) && i < j < |Run(e, START, actions).done|
    ensures Run(e, START, actions).done[i].id < Run(e, START, actions).done[j].id
  {
    hide Short, CallOk, Run, Next, LinkOk, CountsOk;
    StartOk(e);
    RunKeeps(e, START, actions);
  }

  /** The connection hands the call through: the reply a call returns, decoded, is the outcome of the
      call over an undisturbed wire; within the limits of the wire that is the in-process outcome. */
  lemma ReplyIsRemoteCall(e: Env, actions: seq<Action>, i: nat, c: Daemon.Call)
    requires Short(e.w) && WellTyped(e.lib) && Remote.CountFits(c)
    requires i < |Run(e, START, actions).done|
    requires Run(e, START, actions).done[i].ending.Replied? && Run(e, START, actions).done[i].q == Remote.ToWire(c)
    ensures
      var reply := Run(e, START, actions).done[i].ending.reply;
      && Remote.DecodeReply(e.w, c, reply) == Remote.Remotely(e.lib, e.w, c)
      && (Remote.ResponseFits(e.lib(c)) ==>
            Remote.DecodeReply(e.w, c, reply) ==
            match e.lib(c)
            case Success(v) => Success(v)
            case Failure(x) => Failure(Remote.Rewrapped(x)))
  {
    hide Short, WellTyped, Run, Next, Answer, RequestBody, Remote.DecodeReply, Remote.Remotely, Remote.ResponseFits;
    NoStaleReply(e, actions, i);
    Remote.RemotelyIs(e.lib, e.w, c);
    if Remote.ResponseFits(e.lib(c)) {
      Remote.RemoteIsLocal(e.lib, e.w, c);
    }
  }

  /** The bytes that move in a call nothing disturbs. */
  function Undisturbed(e: Env, q: Request): seq<Action>
    requires Short(e.w) && PutRequest(q).Written?
  {
    var up, down := |PutRequest(q).bytes|, |ReplyBytes(e, q)|;
    [Begin(q), ClientWrites(up), ServerReads(up), ServerAnswers, ServerWrites(down), ClientReads(down), ClientDone]
  }

  /** Calls do get through: on a live connection, a call nothing disturbs returns its reply and
      leaves the connection as it was. */
  lemma UndisturbedCallReturns(e: Env, s: State, q: Request)
    requires Short(e.w) && Inv(e, s) && s.phase.Idle? && s.link == Some(FRESH)
    requires PutRequest(q).Written? && !Aborts(e.reserve, FrameOf(q))
    ensures
      var t := Run(e, s, Undisturbed(e, q));
      && t.phase.Idle? && t.link == Some(FRESH) && |t.done| == |s.done| + 1
      && t.done[|s.done|].ending.Replied? && t.done[|s.done|].q == q && t.done[|s.done|].sends == 1
  {
    hide Short, PutRequest, Answer, GetFrame, PutFrame, RequestBody, Aborts, Answered, Inv, Run, FrameOf, Next,
      ReplyBytes;
    var id := s.id + 1;
    var f, r := Tag(PutRequest(q).bytes, id), Tag(ReplyBytes(e, q), id);
    SendsWhole(e, s, q);
    RepliesWhole(e, State(Some(Link([], [], Reading(f))), Receiving(q, 1, []), id, 0, 1, s.done), q, 1, f);
    SevenSteps(e, s, Begin(q), ClientWrites(|f|), ServerReads(|f|), ServerAnswers, ServerWrites(|r|),
      ClientReads(|r|), ClientDone);
  }

  /** The way out: the request reaches the daemon. */
  lemma SendsWhole(e: Env, s: State, q: Request)
    requires Short(e.w) && s.phase.Idle? && s.link == Some(FRESH) && PutRequest(q).Written?
    ensures
      var f := Tag(PutRequest(q).bytes, s.id + 1);
      Next(e, Next(e, Next(e, s, Begin(q)), ClientWrites(|f|)), ServerReads(|f|)) ==
      State(Some(Link([], [], Reading(f))), Receiving(q, 1, []), s.id + 1, 0, 1, s.done)
  {
    hide PutRequest, Short, Answered, GetFrame;
    RequestNotEmpty(q);
    var f := Tag(PutRequest(q).bytes, s.id + 1);
    assert f[..|f|] == f && f[|f|..] == [] && [] + f == f;
  }

  /** The way back: the reply reaches the client. */
  lemma RepliesWhole(e: Env, c: State, q: Request, attempt: nat, f: seq<Tagged>)
    requires Short(e.w) && PutRequest(q).Written? && !Aborts(e.reserve, FrameOf(q))
    requires f == Tag(PutRequest(q).bytes, c.id)
    requires c.link == Some(Link([], [], Reading(f))) && c.phase == Receiving(q, attempt, [])
    ensures
      var r := Tag(ReplyBytes(e, q), c.id);
      Next(e, Next(e, Next(e, Next(e, c, ServerAnswers), ServerWrites(|r|)), ClientReads(|r|)), ClientDone) ==
      Return(c.(link := Some(FRESH)), q, Replied(r, Answer(e.lib, e.w, FrameOf(q))))
  {
    hide Short, PutRequest, Answer, GetFrame, PutFrame, RequestBody, Aborts, Answered, FrameOf;
    var r := Tag(ReplyBytes(e, q), c.id);
    AnsweredWhole(e, q, c.id);
    NoBytesNoFrame();
    AnswersFit(e.lib, e.w, FrameOf(q));
    FramePart(Answer(e.lib, e.w, FrameOf(q)), c.id, r);
    assert r[..|r|] == r && r[|r|..] == [] && [] + r == r && r + [] == r;
    var d := c.(link := Some(Link([], [], Writing(r, []))));
    assert Next(e, c, ServerAnswers) == d;
    var g := c.(link := Some(Link([], r, Reading([]))));
    assert Next(e, d, ServerWrites(|r|)) == g;
    var h := c.(link := Some(FRESH), phase := Receiving(q, attempt, r));
    assert Next(e, g, ClientReads(|r|)) == h;
    FinishedWhole(h, q, r, Answer(e.lib, e.w, FrameOf(q)));
  }

  /** The bytes that move once a connection is to be opened, nothing disturbing the attempt. */
  function Reconnected(e: Env, q: Request): seq<Action>
    requires Short(e.w) && PutRequest(q).Written?
  {
    var up, down := |PutRequest(q).bytes|, |ReplyBytes(e, q)|;
    [ConnectOk, ClientWrites(up), ServerReads(up), ServerAnswers, ServerWrites(down), ClientReads(down), ClientDone]
  }

  lemma ReconnectSends(e: Env, s: State, q: Request, attempt: nat)
    requires Short(e.w) && s.phase == Connecting(q, attempt) && PutRequest(q).Written?
    ensures
      var f := Tag(PutRequest(q).bytes, s.id);
      Next(e, Next(e, Next(e, s, ConnectOk), ClientWrites(|f|)), ServerReads(|f|)) ==
      State(Some(Link([], [], Reading(f))), Receiving(q, attempt, []), s.id, s.connects + 1, s.sends + 1, s.done)
  {
    hide PutRequest, Short, Answered, GetFrame;
    RequestNotEmpty(q);
    var f := Tag(PutRequest(q).bytes, s.id);
    assert f[..|f|] == f && f[|f|..] == [] && [] + f == f;
  }

  /** A connection that was torn down is opened again, for the next call or for the retry, and the call
      gets through on it. */
  lemma ReconnectedCallReturns(e: Env, s: State, q: Request, attempt: nat)
    requires Short(e.w) && s.phase == Connecting(q, attempt)
    requires PutRequest(q).Written? && !Aborts(e.reserve, FrameOf(q))
    ensures
      var t := Run(e, s, Reconnected(e, q));
      && t.phase.Idle? && t.link == Some(FRESH)
      && t.done == s.done + [Call(s.id, q, Replied(Tag(ReplyBytes(e, q), s.id), Answer(e.lib, e.w, FrameOf(q))),
           s.connects + 1, s.sends + 1)]
  {
    hide Short, PutRequest, Answer, GetFrame, PutFrame, RequestBody, Aborts, Answered, Run, FrameOf, Next, ReplyBytes;
    var f, r := Tag(PutRequest(q).bytes, s.id), Tag(ReplyBytes(e, q), s.id);
    var link := Some(Link([], [], Reading(f)));
    var c := State(link, Receiving(q, attempt, []), s.id, s.connects + 1, s.sends + 1, s.done);
    ReconnectSends(e, s, q, attempt);
    RepliesWhole(e, c, q, attempt, f);
    SevenSteps(e, s, ConnectOk, ClientWrites(|f|), ServerReads(|f|), ServerAnswers, ServerWrites(|r|),
      ClientReads(|r|), ClientDone);
  }

  /** One failure is survived: when the first attempt fails, with the daemon dead, hung or out of step,
      the request goes out once more on a new connection and the call returns the daemon's reply to it. */
  lemma OneFailureIsSurvived(e: Env, s: State)
    requires Short(e.w) && Inv(e, s) && CanFail(s) && s.phase.attempt == 1
    requires PutRequest(s.phase.q).Written? && !Aborts(e.reserve, FrameOf(s.phase.q))
    ensures
      var q := s.phase.q;
      var t := Run(e, s, [ClientFails] + Reconnected(e, q));
      && t.phase.Idle? && t.link == Some(FRESH) && |t.done| == |s.done| + 1
      && t.done[|s.done|].id == s.id && t.done[|s.done|].q == q && t.done[|s.done|].sends == 2
      && t.done[|s.done|].ending == Replied(Tag(ReplyBytes(e, q), s.id), Answer(e.lib, e.w, FrameOf(q)))
  {
    hide Short, PutRequest, Answer, GetFrame, PutFrame, RequestBody, Aborts, Run, FrameOf, ReplyBytes, Reconnected,
      LinkOk, DoneOk;
    var q := s.phase.q;
    var t := Next(e, s, ClientFails);
    RunStep(e, s, ClientFails, Reconnected(e, q));
    ReconnectedCallReturns(e, t, q, 2);
  }

  /** A second failure is reported, and leaves no connection behind. */
  lemma TwoFailuresAreReported(e: Env, s: State)
    requires Short(e.w) && Inv(e, s) && CanFail(s) && s.phase.attempt == 2
    ensures
      var t := Next(e, s, ClientFails);
      && t.phase.Idle? && t.link.None? && |t.done| == |s.done| + 1
      && t.done[|s.done|].id == s.id && t.done[|s.done|].q == s.phase.q
      && t.done[|s.done|].ending == TransportFailed && t.done[|s.done|].sends == 2
  {
    hide Short, LinkOk, DoneOk, GetFrame;
  }

  lemma FinishedWhole(s: State, q: Request, r: seq<Tagged>, reply: Frame)
    requires GetFrame(Bytes(r)) == Got(reply, []) && s.link == Some(FRESH)
    ensures Finished(s, FRESH, q, r) == Return(s, q, Replied(r, reply))
  {
    hide GetFrame;
    assert r[..|r|] == r && r[|r|..] + [] == [];
    assert s.(link := Some(FRESH)) == s;
  }

  lemma AnsweredWhole(e: Env, q: Request, id: nat)
    requires Short(e.w) && PutRequest(q).Written? && !Aborts(e.reserve, FrameOf(q))
    ensures Answered(e, Tag(PutRequest(q).bytes, id)) == Writing(Tag(ReplyBytes(e, q), id), [])
  {
    hide PutRequest, Short, Answer, GetFrame, PutFrame, RequestBody, Aborts;
    RequestIsFrame(q);
    var buf := Tag(PutRequest(q).bytes, id);
    FramePart(FrameOf(q), id, buf);
    assert buf[|buf|..] == [];
  }

  lemma RunStep(e: Env, s: State, a: Action, rest: seq<Action>)
    requires Short(e.w)
    ensures Run(e, s, [a] + rest) == Run(e, Next(e, s, a), rest)
  {
    hide Short, Next;
    assert ([a] + rest)[1..] == rest;
  }

  lemma SevenSteps(e: Env, s: State, a: Action, b: Action, c: Action, d: Action, f: Action, g: Action, h: Action)
    requires Short(e.w)
    ensures Run(e, s, [a, b, c, d, f, g, h]) ==
            Next(e, Next(e, Next(e, Next(e, Next(e, Next(e, Next(e, s, a), b), c), d), f), g), h)
  {
    hide Short, Next, Run;
    var s1 := Next(e, s, a);
    var s2 := Next(e, s1, b);
    var s3 := Next(e, s2, c);
    var s4 := Next(e, s3, d);
    var s5 := Next(e, s4, f);
    var s6 := Next(e, s5, g);
    RunStep(e, s, a, [b, c, d, f, g, h]);
    RunStep(e, s1, b, [c, d, f, g, h]);
    RunStep(e, s2, c, [d, f, g, h]);
    RunStep(e, s3, d, [f, g, h]);
    RunStep(e, s4, f, [g, h]);
    RunStep(e, s5, g, [h]);
    RunStep(e, s6, h, []);
    RunNothing(e, Next(e, s6, h));
    assert [a, b, c, d, f, g, h] == [a] + [b, c, d, f, g, h] && [b, c, d, f, g, h] == [b] + [c, d, f, g, h];
    assert [c, d, f, g, h] == [c] + [d, f, g, h] && [d, f, g, h] == [d] + [f, g, h];
    assert [f, g, h] == [f] + [g, h] && [g, h] == [g] + [h] && [h] == [h] + [];
  }

  lemma RunNothing(e: Env, s: State)
    requires Short(e.w)
    ensures Run(e, s, []) == s
  {
    hide Short;
  }
}
