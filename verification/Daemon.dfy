/** The daemon (bindings/rust/src/bin/nyxstone-tcd.rs): it reads a frame, runs the request on the
    in-process library, and answers with one frame, until the client hangs up.
 */
module Daemon {
  import opened Utf8
  import opened Wire
  import opened WireIO

  /** The `Error` of the Rust API. */
  datatype ApiError =
    | Init(msg: Str)
    | AssembleFailed(msg: Str)
    | SectionViolation(msg: Str)
    | DisassembleFailed(msg: Str)
    | Alloc
    | NullArg
    | UnknownStatus(code: int, msg: Str)

  /** A call of the Rust API; `count` is a `usize`. */
  datatype Call =
    | CallAssemble(src: Str, address: U64, labels: seq<LabelDef>, withRelocs: bool, wantInstructions: bool)
    | CallDisassemble(bytes: seq<byte>, address: U64, count: U64, wantInstructions: bool)

  /** What the six operations return. */
  datatype Value =
    | Code(bytes: seq<byte>)
    | Listing(instructions: seq<WireInstruction>)
    | LinkedCode(bytes: seq<byte>, relocations: seq<WireRelocation>)
    | LinkedListing(instructions: seq<WireInstruction>, relocations: seq<WireRelocation>)
    | Text(text: Str)

  datatype Outcome = Success(value: Value) | Failure(error: ApiError)

  /** The in-process library: its results depend on the arguments only. */
  type Library = Call -> Outcome

  /** Each operation returns its own kind of value. */
  predicate Shape(c: Call, v: Value) {
    match c
    case CallAssemble(_, _, _, relocs, insns) =>
      if relocs then (if insns then v.LinkedListing? else v.LinkedCode?) else if insns then v.Listing? else v.Code?
    case CallDisassemble(_, _, _, insns) => if insns then v.Listing? else v.Text?
  }

  ghost predicate WellTyped(lib: Library) {
    forall c: Call :: lib(c).Success? ==> Shape(c, lib(c).value)
  }

  /** The occasions on which client or daemon word a message of their own. */
  datatype Complaint =
    | BadRequest(e: IoError)
    | CannotEncode
    | ResponseTooLarge(n: nat)
    | Transport(e: IoError)
    | CountTooLarge(n: nat)
    | NotUtf8

  type Wording = Complaint -> Str

  /** The daemon's own messages are short. */
  ghost predicate Short(w: Wording) {
    forall c: Complaint :: |w(c)| + 4 <= MAX_FRAME
  }

  // ----- status codes --------------------------------------------------------------------------------

  const OK: byte := 0
  const ERR_INIT: byte := 1
  const ERR_NULL_ARG: byte := 2
  const ERR_ASSEMBLE: byte := 3
  const ERR_SECTION: byte := 4
  const ERR_DISASM: byte := 5
  const ERR_ALLOC: byte := 6
  const ERR_PROTOCOL: byte := 7
  const ERR_UNKNOWN: byte := 0xff

  function DigitsOf(n: nat): (s: seq<byte>)
    ensures forall i :: 0 <= i < |s| ==> s[i] < 0x80
  {
    if n < 10 then [48 + n] else DigitsOf(n / 10) + [48 + n % 10]
  }

  /** `format!("({c}) ")` */
  function CodePrefix(c: int): (s: seq<byte>)
    ensures Valid(s)
  {
    hide Valid, CharLength;
    var s: seq<byte> := [40] + (if c < 0 then [45] + DigitsOf(-c) else DigitsOf(c)) + [41, 32];
    AsciiIsValid(s);
    s
  }

  /** The message of an unknown status as it travels. */
  function UnknownText(c: int, m: Str): Str {
    hide Valid, CharLength, CodePrefix;
    ValidConcat(CodePrefix(c), m);
    CodePrefix(c) + m
  }

  // ----- responses ------------------------------------------------------------------------------------

  /** `write_err_body`: a message that is too large is dropped. */
  function ErrBody(msg: Str): seq<byte> {
    if PutBytes(msg).TooBig? then [] else PutBytes(msg).bytes
  }

  function Status(e: ApiError): byte {
    match e
    case Init(_) => ERR_INIT
    case AssembleFailed(_) => ERR_ASSEMBLE
    case SectionViolation(_) => ERR_SECTION
    case DisassembleFailed(_) => ERR_DISASM
    case Alloc => ERR_ALLOC
    case NullArg => ERR_NULL_ARG
    case UnknownStatus(_, _) => ERR_UNKNOWN
  }

  function Message(e: ApiError): Str {
    match e
    case Alloc => []
    case NullArg => []
    case UnknownStatus(c, m) => UnknownText(c, m)
    case _ => e.msg
  }

  function ErrResponse(e: ApiError): Frame {
    Frame(Status(e), 0, ErrBody(Message(e)))
  }

  function ProtocolErr(msg: Str): Frame {
    Frame(ERR_PROTOCOL, 0, ErrBody(msg))
  }

  function EncodeValue(v: Value): Written {
    match v
    case Code(bytes) => PutBytes(bytes)
    case Listing(instructions) => PutInstructions(instructions)
    case LinkedCode(bytes, relocations) => PutBytes(bytes).Then(PutRelocations(relocations))
    case LinkedListing(instructions, relocations) => PutInstructions(instructions).Then(PutRelocations(relocations))
    case Text(text) => PutBytes(text)
  }

  function FromWire(q: Request): Call {
    match q
    case Assemble(src, address, labels, relocs, insns) => CallAssemble(src, address, labels, relocs, insns)
    case Disassemble(bytes, address, count, insns) => CallDisassemble(bytes, address, count, insns)
  }

  /** `dispatch` */
  function Dispatched(lib: Library, w: Wording, q: Request): Frame {
    match lib(FromWire(q))
    case Failure(e) => ErrResponse(e)
    case Success(v) =>
      if EncodeValue(v).TooBig? then ProtocolErr(w(CannotEncode))
      else Frame(OK, if q.Assemble? && q.withRelocs then 1 else 0, EncodeValue(v).bytes)
  }

  /** What the daemon would answer if replies had no limit: malformed requests are protocol errors. */
  function Reply(lib: Library, w: Wording, f: Frame): Frame {
    match ParseRequest(f.kind, f.body)
    case Fail(e) => ProtocolErr(w(BadRequest(e)))
    case Got(q, _) => Dispatched(lib, w, q)
  }

  /** The answer to a frame: an oversized reply becomes a protocol error, too. */
  function Answer(lib: Library, w: Wording, f: Frame): Frame {
    var r := Reply(lib, w, f);
    if |r.body| > MAX_FRAME then ProtocolErr(w(ResponseTooLarge(|r.body|))) else r
  }

  /** Whatever the frame, the answer is one the client accepts. */
  lemma AnswersFit(lib: Library, w: Wording, f: Frame)
    requires Short(w)
    ensures PutFrame(Answer(lib, w, f)).Written?
  {
    hide Reply;
    assert |w(ResponseTooLarge(|Reply(lib, w, f).body|))| + 4 <= MAX_FRAME;
  }

  // ----- the serve loop -----------------------------------------------------------------------------------

  /** How the loop ends: the client is gone, the stream is out of step, or the process died. */
  datatype Ending = Closed | Broken | Aborted

  predicate Assembling(kind: byte) {
    kind == 1 || kind == 2 || kind == 5 || kind == 6
  }

  /** `Vec::with_capacity (n)` for the labels a request announces; `reserve` says which capacities
      the allocator grants.  A refusal kills the process. */
  predicate Aborts(reserve: nat -> bool, f: Frame) {
    Assembling(f.kind) && |f.body| >= 12 && !reserve(UnLe(f.body[8..12]))
  }

  /** What the daemon writes for the frames of a stream. */
  function Served(lib: Library, w: Wording, reserve: nat -> bool, s: seq<byte>): (seq<byte>, Ending)
    requires Short(w)
    decreases |s|
  {
    match GetFrame(s)
    case Fail(e) => ([], if e.UnexpectedEof? then Closed else Broken)
    case Got(f, rest) =>
      if Aborts(reserve, f) then ([], Aborted)
      else
        AnswersFit(lib, w, f);
        var (out, ending) := Served(lib, w, reserve, rest);
        (PutFrame(Answer(lib, w, f)).bytes + out, ending)
  }

  /** `NYXT` and the protocol version. */
  const HANDSHAKE: seq<byte> := [0x4e, 0x59, 0x58, 0x54, 1, 0, 0, 0]

  /** `serve` on everything the client ever sends. */
  method Serve(lib: Library, w: Wording, reserve: nat -> bool, input: Stream, output: Stream) returns (ending: Ending)
    requires Short(w) && input != output
    modifies input, output
    ensures (output.data, ending) ==
            (old(output.data) + HANDSHAKE + Served(lib, w, reserve, old(input.data)).0,
              Served(lib, w, reserve, old(input.data)).1)
  {
    hide Answer, GetFrame, PutFrame, Served, Aborts, Short;
    output.WriteAll(HANDSHAKE);
    ghost var start, all := output.data, input.data;
    while true
      invariant start == old(output.data) + HANDSHAKE
      invariant output.data + Served(lib, w, reserve, input.data).0 == start + Served(lib, w, reserve, all).0
      invariant Served(lib, w, reserve, input.data).1 == Served(lib, w, reserve, all).1
      decreases |input.data|
    {
      ServedStep(lib, w, reserve, input.data);
      assert output.data + [] == output.data;
      match GetFrame(input.data) {
        case Fail(e) =>
          return if e.UnexpectedEof? then Closed else Broken;
        case Got(f, rest) =>
          if Aborts(reserve, f) {
            return Aborted;
          }
          var ok := output.WriteFrame(Answer(lib, w, f));
          input.data := rest;
      }
    }
  }

  lemma ServedStep(lib: Library, w: Wording, reserve: nat -> bool, s: seq<byte>)
    requires Short(w)
    ensures
      match GetFrame(s)
      case Fail(e) => Served(lib, w, reserve, s) == ([], if e.UnexpectedEof? then Closed else Broken)
      case Got(f, rest) =>
        if Aborts(reserve, f) then Served(lib, w, reserve, s) == ([], Aborted)
        else
          && PutFrame(Answer(lib, w, f)).Written?
          && |rest| < |s|
          && Served(lib, w, reserve, s) ==
             (PutFrame(Answer(lib, w, f)).bytes + Served(lib, w, reserve, rest).0, Served(lib, w, reserve, rest).1)
  {
    if GetFrame(s).Got? {
      AnswersFit(lib, w, GetFrame(s).value);
    }
  }

  function PutFrames(fs: seq<Frame>): Written {
    if fs == [] then Written([]) else PutFrame(fs[0]).Then(PutFrames(fs[1..]))
  }

  function Answers(lib: Library, w: Wording, fs: seq<Frame>): (r: seq<Frame>)
    ensures |r| == |fs|
  {
    seq(|fs|, i requires 0 <= i < |fs| => Answer(lib, w, fs[i]))
  }

  lemma PutFramesStep(fs: seq<Frame>)
    requires fs != []
    ensures PutFrames(fs) == PutFrame(fs[0]).Then(PutFrames(fs[1..]))
  {
  }

  lemma AnswersStep(lib: Library, w: Wording, fs: seq<Frame>)
    requires fs != []
    ensures Answers(lib, w, fs)[0] == Answer(lib, w, fs[0]) && Answers(lib, w, fs)[1..] == Answers(lib, w, fs[1..])
  {
    hide Answer;
  }

  lemma {:induction false} AllAnswersFit(lib: Library, w: Wording, fs: seq<Frame>)
    requires Short(w)
    ensures PutFrames(Answers(lib, w, fs)).Written?
    decreases |fs|
  {
    hide Answer, PutFrame, Short, Answers;
    if fs != [] {
      AnswersFit(lib, w, fs[0]);
      AllAnswersFit(lib, w, fs[1..]);
      AnswersStep(lib, w, fs);
    }
  }

  lemma ConcatAssoc(a: seq<byte>, b: seq<byte>, c: seq<byte>)
    ensures a + b + c == a + (b + c)
  {
  }

  /** Liveness, frame by frame: whatever the frames hold, the daemon writes exactly one reply for
      each, in order, and is back at the frame boundary behind them, as long as every announced
      label count can be reserved. */
  lemma {:induction false} OneReplyPerFrame(lib: Library, w: Wording, reserve: nat -> bool, fs: seq<Frame>,
    tail: seq<byte>)
    requires Short(w) && PutFrames(fs).Written?
    requires forall i :: 0 <= i < |fs| ==> !Aborts(reserve, fs[i])
    ensures PutFrames(Answers(lib, w, fs)).Written?
    ensures Served(lib, w, reserve, PutFrames(fs).bytes + tail) ==
            (PutFrames(Answers(lib, w, fs)).bytes + Served(lib, w, reserve, tail).0, Served(lib, w, reserve, tail).1)
    decreases |fs|
  {
    hide Answer, PutFrame, GetFrame, Served, Aborts, Short, Answers, PutFrames;
    AllAnswersFit(lib, w, fs);
    if fs == [] {
      NoFrames(lib, w, tail);
      assert [] + Served(lib, w, reserve, tail).0 == Served(lib, w, reserve, tail).0;
    } else {
      PutFramesStep(fs);
      PutFramesStep(Answers(lib, w, fs));
      AnswersStep(lib, w, fs);
      var rest := PutFrames(fs[1..]).bytes + tail;
      ConcatAssoc(PutFrame(fs[0]).bytes, PutFrames(fs[1..]).bytes, tail);
      FrameRoundTrip(fs[0], rest);
      ServedStep(lib, w, reserve, PutFrames(fs).bytes + tail);
      OneReplyPerFrame(lib, w, reserve, fs[1..], tail);
      ConcatAssoc(PutFrame(Answer(lib, w, fs[0])).bytes, PutFrames(Answers(lib, w, fs[1..])).bytes,
        Served(lib, w, reserve, tail).0);
    }
  }

  lemma NoFrames(lib: Library, w: Wording, tail: seq<byte>)
    ensures PutFrames([]) == Written([]) && Answers(lib, w, []) == [] && [] + tail == tail
  {
  }

  /** And it is only as long: the daemon dies on a frame whose label count cannot be reserved, with
      the frames before it answered and none from there on. */
  lemma AbortsAtFirst(lib: Library, w: Wording, reserve: nat -> bool, fs: seq<Frame>, bad: Frame, tail: seq<byte>)
    requires Short(w) && PutFrames(fs).Written? && PutFrame(bad).Written? && Aborts(reserve, bad)
    requires forall i :: 0 <= i < |fs| ==> !Aborts(reserve, fs[i])
    ensures PutFrames(Answers(lib, w, fs)).Written?
    ensures Served(lib, w, reserve, PutFrames(fs).bytes + (PutFrame(bad).bytes + tail)) ==
            (PutFrames(Answers(lib, w, fs)).bytes, Aborted)
  {
    hide Answer, PutFrame, GetFrame, Served, Aborts, Short, PutFrames, Answers;
    OneReplyPerFrame(lib, w, reserve, fs, PutFrame(bad).bytes + tail);
    FrameRoundTrip(bad, tail);
    ServedStep(lib, w, reserve, PutFrame(bad).bytes + tail);
    var out := PutFrames(Answers(lib, w, fs)).bytes;
    assert out + [] == out;
  }

  /** The condition is about the announced count alone: whatever the operation, the address, the
      flags and the bytes that follow, a body that announces `n` labels is answered if and only if
      the operation does not assemble or room for `n` can be reserved; a body too short to announce
      any is always answered. */
  lemma AnnouncedCountDecides(kind: byte, flags: byte, address: U64, n: U32, rest: seq<byte>, reserve: nat -> bool)
    ensures Aborts(reserve, Frame(kind, flags, PutU64(address) + PutU32(n) + rest)) <==> Assembling(kind) && !reserve(n)
    ensures |rest| < 12 ==> !Aborts(reserve, Frame(kind, flags, rest))
  {
    Widths();
    LeRoundTrip(n, 4);
    assert (PutU64(address) + PutU32(n) + rest)[8..12] == PutU32(n);
  }
}
