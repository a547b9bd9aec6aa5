/** A call over the wire (bindings/rust-ipc/src/connection.rs) is the in-process call: the client's
    encoding, the daemon and the client's decoding, without transport errors, give back the value or
    the error of the library, and never another value.
 */
module Remote {
  import opened Utf8
  import opened Wire
  import opened Daemon

  /** `format!("protocol: {msg}")` */
  const PROTOCOL: seq<byte> := [112, 114, 111, 116, 111, 99, 111, 108, 58, 32]

  lemma PrefixIsAscii()
    ensures forall i :: 0 <= i < |PROTOCOL| ==> PROTOCOL[i] < 0x80
  {
    hide Valid, CharLength;
  }

  lemma ProtocolTextIsValid(m: seq<byte>)
    requires Valid(m)
    ensures Valid(PROTOCOL + m)
  {
    hide Valid, CharLength;
    PrefixIsAscii();
    AsciiIsValid(PROTOCOL);
    ValidConcat(PROTOCOL, m);
  }

  function ProtocolText(m: Str): Str {
    hide Valid, CharLength;
    ProtocolTextIsValid(m);
    PROTOCOL + m
  }

  /** `decode_err` */
  function DecodeErr(status: byte, body: seq<byte>): ApiError {
    var raw := if |body| >= 4 then body[4..] else [];
    LossyIsValid(raw);
    var msg: Str := Lossy(raw);
    if status == ERR_INIT then Init(msg)
    else if status == ERR_NULL_ARG then NullArg
    else if status == ERR_ASSEMBLE then AssembleFailed(msg)
    else if status == ERR_SECTION then SectionViolation(msg)
    else if status == ERR_DISASM then DisassembleFailed(msg)
    else if status == ERR_ALLOC then Alloc
    else if status == ERR_PROTOCOL then Init(ProtocolText(msg))
    else UnknownStatus(status, msg)
  }

  function Ipc(w: Wording, e: IoError): Outcome {
    Failure(Init(w(Transport(e))))
  }

  function DecodeListing(w: Wording, body: seq<byte>, relocs: bool): Outcome {
    match GetInstructions(body)
    case Fail(e) => Ipc(w, e)
    case Got(list, rest) =>
      if !relocs then Success(Listing(list))
      else
        match GetRelocations(rest)
        case Fail(e) => Ipc(w, e)
        case Got(rs, _) => Success(LinkedListing(list, rs))
  }

  function DecodeCode(w: Wording, body: seq<byte>, relocs: bool): Outcome {
    match GetBytes(body)
    case Fail(e) => Ipc(w, e)
    case Got(bytes, rest) =>
      if !relocs then Success(Code(bytes))
      else
        match GetRelocations(rest)
        case Fail(e) => Ipc(w, e)
        case Got(rs, _) => Success(LinkedCode(bytes, rs))
  }

  function DecodeText(w: Wording, body: seq<byte>): Outcome {
    match GetBytes(body)
    case Fail(e) => Ipc(w, e)
    case Got(bytes, _) => if Valid(bytes) then Success(Text(bytes)) else Failure(DisassembleFailed(w(NotUtf8)))
  }

  /** What the method for the operation makes of a successful body. */
  function DecodeValue(w: Wording, c: Call, body: seq<byte>): Outcome {
    match c
    case CallAssemble(_, _, _, relocs, insns) => if insns then DecodeListing(w, body, relocs)
      else DecodeCode(w, body, relocs)
    case CallDisassemble(_, _, _, insns) => if insns then DecodeListing(w, body, false) else DecodeText(w, body)
  }

  function DecodeReply(w: Wording, c: Call, f: Frame): Outcome {
    if f.kind != OK then Failure(DecodeErr(f.kind, f.body)) else DecodeValue(w, c, f.body)
  }

  /** `wire_count`: a count that does not fit is an error, not a truncation. */
  predicate CountFits(c: Call) {
    c.CallDisassemble? ==> c.count < 0x1_0000_0000
  }

  function ToWire(c: Call): (q: Request)
    requires CountFits(c)
    ensures FromWire(q) == c
  {
    match c
    case CallAssemble(src, address, labels, relocs, insns) => Assemble(src, address, labels, relocs, insns)
    case CallDisassemble(bytes, address, count, insns) => Disassemble(bytes, address, count, insns)
  }

  /** The call over the wire, no transport error happening. */
  function Remotely(lib: Library, w: Wording, c: Call): Outcome
    requires Short(w)
  {
    if !CountFits(c) then Failure(DisassembleFailed(w(CountTooLarge(c.count))))
    else if PutRequest(ToWire(c)).TooBig? then Ipc(w, InvalidInput)
    else
      match GetFrame(PutRequest(ToWire(c)).bytes)
      case Fail(e) => Ipc(w, e)
      case Got(f, _) =>
        AnswersFit(lib, w, f);
        match GetFrame(PutFrame(Answer(lib, w, f)).bytes)
        case Fail(e) => Ipc(w, e)
        case Got(reply, _) => DecodeReply(w, c, reply)
  }

  /** The stream operations cancel out: the client decodes the answer to its own request. */
  lemma RemotelyIs(lib: Library, w: Wording, c: Call)
    requires Short(w) && CountFits(c) && PutRequest(ToWire(c)).Written?
    ensures |RequestBody(ToWire(c)).bytes| <= MAX_FRAME
    ensures Remotely(lib, w, c) ==
            DecodeReply(w, c, Answer(lib, w, Frame(Opcode(ToWire(c)), 0, RequestBody(ToWire(c)).bytes)))
  {
    hide RequestBody, Answer, DecodeReply, GetFrame, PutFrame, Short;
    var f := Frame(Opcode(ToWire(c)), 0, RequestBody(ToWire(c)).bytes);
    assert PutRequest(ToWire(c)) == PutFrame(f);
    FrameRoundTrip(f, []);
    assert PutFrame(f).bytes + [] == PutFrame(f).bytes;
    AnswersFit(lib, w, f);
    var reply := PutFrame(Answer(lib, w, f)).bytes;
    FrameRoundTrip(Answer(lib, w, f), []);
    assert reply + [] == reply;
  }

  lemma AnswerIs(lib: Library, w: Wording, q: Request)
    requires RequestBody(q).Written? && |RequestBody(q).bytes| <= MAX_FRAME
    ensures
      var r := Dispatched(lib, w, q);
      Answer(lib, w, Frame(Opcode(q), 0, RequestBody(q).bytes)) ==
      if |r.body| > MAX_FRAME then ProtocolErr(w(ResponseTooLarge(|r.body|))) else r
  {
    hide RequestBody, ParseRequest, Dispatched;
    BodyRoundTrip(q);
  }

  lemma PartsFit(a: Written, b: Written)
    requires a.Then(b).Written?
    ensures a.Written? && b.Written? && a.Then(b).bytes == a.bytes + b.bytes
  {
  }

  /** What the daemon encodes the client decodes, for each operation. */
  lemma ValueRoundTrip(w: Wording, c: Call, v: Value)
    requires Shape(c, v) && EncodeValue(v).Written? && |EncodeValue(v).bytes| <= MAX_FRAME
    ensures DecodeValue(w, c, EncodeValue(v).bytes) == Success(v)
  {
    hide PutBytes, GetBytes, PutInstructions, GetInstructions, PutRelocations, GetRelocations;
    var body := EncodeValue(v).bytes;
    assert body + [] == body;
    match v {
      case Code(bytes) => BytesRoundTrip(bytes, []);
      case Listing(list) => InstructionsRoundTrip(list, []);
      case LinkedCode(bytes, rs) =>
        var tail := PutRelocations(rs).bytes;
        PartsFit(PutBytes(bytes), PutRelocations(rs));
        BytesRoundTrip(bytes, tail);
        assert tail + [] == tail;
        RelocationsRoundTrip(rs, []);
      case LinkedListing(list, rs) =>
        var tail := PutRelocations(rs).bytes;
        PartsFit(PutInstructions(list), PutRelocations(rs));
        InstructionsRoundTrip(list, tail);
        assert tail + [] == tail;
        RelocationsRoundTrip(rs, []);
      case Text(text) => BytesRoundTrip(text, []);
    }
  }

  /** The error as the client reports it: an unknown status loses its code to the wire's own. */
  function Rewrapped(e: ApiError): ApiError {
    match e
    case UnknownStatus(c, m) => UnknownStatus(0xff, UnknownText(c, m))
    case _ => e
  }

  lemma ErrorRoundTrip(w: Wording, c: Call, e: ApiError)
    requires 4 + |Message(e)| <= MAX_FRAME
    ensures DecodeReply(w, c, ErrResponse(e)) == Failure(Rewrapped(e))
  {
    hide Lossy, Valid, PutU32;
    var m := Message(e);
    var body := ErrBody(m);
    assert body[4..] == m;
    LossyKeepsValid(m);
  }

  /** A message of the daemon's own. */
  lemma ProtocolRoundTrip(w: Wording, c: Call, m: Str)
    requires 4 + |m| <= MAX_FRAME
    ensures DecodeReply(w, c, ProtocolErr(m)) == Failure(Init(ProtocolText(m)))
  {
    hide Lossy, Valid, PutU32;
    var body := ErrBody(m);
    assert body[4..] == m;
    LossyKeepsValid(m);
  }

  /** The outcome fits a response frame. */
  predicate ResponseFits(r: Outcome) {
    match r
    case Success(v) => EncodeValue(v).Written? && |EncodeValue(v).bytes| <= MAX_FRAME
    case Failure(e) => 4 + |Message(e)| <= MAX_FRAME
  }

  predicate WithinLimits(lib: Library, c: Call) {
    CountFits(c) && PutRequest(ToWire(c)).Written? && ResponseFits(lib(c))
  }

  /** Remote equals local: within the limits of the wire, all six operations return the value or the
      error the in-process call returns. */
  lemma RemoteIsLocal(lib: Library, w: Wording, c: Call)
    requires Short(w) && WellTyped(lib) && WithinLimits(lib, c)
    ensures
      Remotely(lib, w, c) ==
      match lib(c)
      case Success(v) => Success(v)
      case Failure(e) => Failure(Rewrapped(e))
  {
    hide RequestBody, Answer, DecodeReply, EncodeValue, Remotely, Message, Short;
    RemotelyIs(lib, w, c);
    RequestParts(ToWire(c));
    AnswerIs(lib, w, ToWire(c));
    match lib(c) {
      case Success(v) =>
        ValueRoundTrip(w, c, v);
        SuccessReply(w, c, v, if ToWire(c).Assemble? && ToWire(c).withRelocs then 1 else 0);
      case Failure(e) =>
        ErrorFrame(e);
        ErrorRoundTrip(w, c, e);
    }
  }

  lemma RequestParts(q: Request)
    requires PutRequest(q).Written?
    ensures RequestBody(q).Written? && |RequestBody(q).bytes| <= MAX_FRAME
  {
    hide RequestBody;
  }

  lemma SuccessReply(w: Wording, c: Call, v: Value, flags: byte)
    requires EncodeValue(v).Written?
    ensures DecodeReply(w, c, Frame(OK, flags, EncodeValue(v).bytes)) == DecodeValue(w, c, EncodeValue(v).bytes)
  {
  }

  lemma ErrorFrame(e: ApiError)
    ensures 4 + |Message(e)| <= MAX_FRAME ==> |ErrResponse(e).body| <= MAX_FRAME
    ensures |Message(e)| <= MAX_FRAME < 4 + |Message(e)| ==> |ErrResponse(e).body| > MAX_FRAME
    ensures ErrResponse(e).kind != OK
  {
    hide Message, Valid;
  }

  /** Whatever the sizes, a value that comes back is the value of the in-process call. */
  lemma RemoteNeverMisleads(lib: Library, w: Wording, c: Call)
    requires Short(w) && WellTyped(lib) && Remotely(lib, w, c).Success?
    ensures Remotely(lib, w, c) == lib(c)
  {
    hide RequestBody, Answer, EncodeValue, DecodeValue, Message, Lossy;
    if CountFits(c) && PutRequest(ToWire(c)).Written? {
      RemotelyIs(lib, w, c);
      RequestParts(ToWire(c));
      AnswerIs(lib, w, ToWire(c));
      match lib(c) {
        case Success(v) =>
          if ResponseFits(lib(c)) {
            RemoteIsLocal(lib, w, c);
          }
        case Failure(e) => ErrorFrame(e);
      }
    }
  }

  /** Why the daemon cannot send a value. */
  function Unsendable(v: Value): Complaint {
    if EncodeValue(v).TooBig? then CannotEncode else ResponseTooLarge(|EncodeValue(v).bytes|)
  }

  lemma ValueTooLarge(lib: Library, w: Wording, c: Call, v: Value)
    requires Short(w) && CountFits(c) && PutRequest(ToWire(c)).Written?
    requires lib(c) == Success(v) && !ResponseFits(lib(c))
    ensures Remotely(lib, w, c) == Failure(Init(ProtocolText(w(Unsendable(v)))))
  {
    hide RequestBody, Answer, EncodeValue, DecodeValue, Message, Lossy, Remotely, DecodeReply, ProtocolText, PutRequest;
    RemotelyIs(lib, w, c);
    RequestParts(ToWire(c));
    AnswerIs(lib, w, ToWire(c));
    assert |w(Unsendable(v))| + 4 <= MAX_FRAME;
    ProtocolRoundTrip(w, c, w(Unsendable(v)));
  }

  /** A message that no field can take is left out; one that a field can take is in the body. */
  lemma EmptiedReply(w: Wording, c: Call, e: ApiError)
    ensures |Message(e)| > MAX_FRAME ==>
      |ErrResponse(e).body| <= MAX_FRAME && DecodeReply(w, c, ErrResponse(e)) == Failure(DecodeErr(Status(e), []))
    ensures |Message(e)| <= MAX_FRAME ==> |ErrResponse(e).body| == 4 + |Message(e)|
  {
    hide Message, Valid, DecodeErr, DecodeValue, Status;
    ErrorFrame(e);
  }

  lemma DispatchedError(lib: Library, w: Wording, c: Call, e: ApiError)
    requires CountFits(c) && lib(c) == Failure(e)
    ensures Dispatched(lib, w, ToWire(c)) == ErrResponse(e)
  {
    hide ToWire, FromWire, ErrResponse, EncodeValue;
  }

  /** What the client decodes if the call fails on the other side. */
  lemma ErrorReply(lib: Library, w: Wording, c: Call, e: ApiError)
    requires Short(w) && CountFits(c) && PutRequest(ToWire(c)).Written? && lib(c) == Failure(e)
    ensures
      var r := ErrResponse(e);
      Remotely(lib, w, c) ==
      DecodeReply(w, c, if |r.body| > MAX_FRAME then ProtocolErr(w(ResponseTooLarge(|r.body|))) else r)
  {
    hide RequestBody, Answer, Remotely, PutRequest, DecodeReply, ErrResponse, ToWire, FromWire, Dispatched, Opcode,
      ProtocolErr, Short;
    RemotelyIs(lib, w, c);
    RequestParts(ToWire(c));
    AnswerIs(lib, w, ToWire(c));
    DispatchedError(lib, w, c, e);
  }

  lemma MessageTooLarge(lib: Library, w: Wording, c: Call, e: ApiError)
    requires Short(w) && CountFits(c) && PutRequest(ToWire(c)).Written?
    requires lib(c) == Failure(e) && !ResponseFits(lib(c))
    ensures |Message(e)| > MAX_FRAME ==> Remotely(lib, w, c) == Failure(DecodeErr(Status(e), []))
    ensures |Message(e)| <= MAX_FRAME ==>
      Remotely(lib, w, c) == Failure(Init(ProtocolText(w(ResponseTooLarge(4 + |Message(e)|)))))
  {
    hide Message, Remotely, ProtocolText, PutRequest, DecodeReply, DecodeErr, ErrResponse, Status, ToWire, ProtocolErr,
      Valid, CharLength, EncodeValue;
    ErrorReply(lib, w, c, e);
    EmptiedReply(w, c, e);
    if |Message(e)| <= MAX_FRAME {
      var complaint := ResponseTooLarge(|ErrResponse(e).body|);
      assert |w(complaint)| + 4 <= MAX_FRAME;
      ProtocolRoundTrip(w, c, w(complaint));
    }
  }

  /** Outside the limits the call fails, and how it fails says which limit it was: the count, the
      request, the value, a message too large for its frame, or a message too large for any field,
      which arrives empty. */
  lemma OutsideLimits(lib: Library, w: Wording, c: Call)
    requires Short(w) && !WithinLimits(lib, c)
    ensures !CountFits(c) ==> Remotely(lib, w, c) == Failure(DisassembleFailed(w(CountTooLarge(c.count))))
    ensures CountFits(c) && PutRequest(ToWire(c)).TooBig? ==> Remotely(lib, w, c) == Ipc(w, InvalidInput)
    ensures CountFits(c) && PutRequest(ToWire(c)).Written? ==>
      match lib(c)
      case Success(v) => Remotely(lib, w, c) == Failure(Init(ProtocolText(w(Unsendable(v)))))
      case Failure(e) =>
        if |Message(e)| > MAX_FRAME then Remotely(lib, w, c) == Failure(DecodeErr(Status(e), []))
        else Remotely(lib, w, c) == Failure(Init(ProtocolText(w(ResponseTooLarge(4 + |Message(e)|)))))
  {
    hide PutRequest, ResponseFits, Message, DecodeErr, ProtocolText, Unsendable, Answer, GetFrame;
    if CountFits(c) && PutRequest(ToWire(c)).Written? {
      match lib(c) {
        case Success(v) => ValueTooLarge(lib, w, c, v);
        case Failure(e) => MessageTooLarge(lib, w, c, e);
      }
    }
  }

  /** What an empty message leaves of an error: its variant. */
  lemma EmptiedError(e: ApiError)
    ensures
      DecodeErr(Status(e), []) ==
      match e
      case Init(_) => Init([])
      case AssembleFailed(_) => AssembleFailed([])
      case SectionViolation(_) => SectionViolation([])
      case DisassembleFailed(_) => DisassembleFailed([])
      case UnknownStatus(_, _) => UnknownStatus(0xff, [])
      case _ => e
  {
    hide Valid;
  }
}
