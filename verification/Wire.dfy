/** The wire format (bindings/rust-ipc/src/protocol.rs) as functions: what a writer appends and what
    a reader takes off the front of a stream.  Whatever the writers produce the readers give back,
    and leave the rest of the stream alone.
 */
module Wire {
  import opened Options
  import opened Utf8

  const MAX_FRAME := 64 * 1024 * 1024

  type U32 = x: int | 0 <= x < 0x1_0000_0000
  type U64 = x: int | 0 <= x < 0x1_0000_0000_0000_0000
  type I64 = x: int | -0x8000_0000_0000_0000 <= x < 0x8000_0000_0000_0000

  /** `io::ErrorKind`, as far as the protocol raises it itself. */
  datatype IoError = UnexpectedEof | InvalidData | InvalidInput

  /** What a writer appends; it rejects what is too large. */
  datatype Written = Written(bytes: seq<byte>) | TooBig {
    function Then(next: Written): Written {
      if TooBig? || next.TooBig? then TooBig else Written(bytes + next.bytes)
    }
  }

  /** What a reader takes off the front of the stream, and what it leaves. */
  datatype Got<+T> = Got(value: T, rest: seq<byte>) | Fail(error: IoError)

  /** A record in front of the records that follow it. */
  function Pushed<T>(x: T, g: Got<seq<T>>): Got<seq<T>> {
    match g
    case Fail(e) => Fail(e)
    case Got(more, rest) => Got([x] + more, rest)
  }

  // ----- integers ---------------------------------------------------------------------------------

  function Pow256(w: nat): (p: nat)
    ensures p > 0
  {
    if w == 0 then 1 else 256 * Pow256(w - 1)
  }

  /** `n` in `w` little-endian bytes. */
  function Le(n: nat, w: nat): (s: seq<byte>)
    ensures |s| == w
    decreases w
  {
    if w == 0 then [] else [n % 256] + Le(n / 256, w - 1)
  }

  function UnLe(s: seq<byte>): (n: nat)
    ensures n < Pow256(|s|)
    decreases |s|
  {
    if s == [] then 0 else s[0] + 256 * UnLe(s[1..])
  }

  lemma {:induction false} LeRoundTrip(n: nat, w: nat)
    requires n < Pow256(w)
    ensures UnLe(Le(n, w)) == n
    decreases w
  {
    if w > 0 {
      assert n / 256 < Pow256(w - 1);
      LeRoundTrip(n / 256, w - 1);
      assert Le(n, w)[1..] == Le(n / 256, w - 1);
    }
  }

  lemma Widths()
    ensures Pow256(4) == 0x1_0000_0000 && Pow256(8) == 0x1_0000_0000_0000_0000
  {
    assert Pow256(2) == 0x1_0000;
    assert Pow256(4) == 0x1_0000_0000;
    assert Pow256(6) == 0x1_0000_0000_0000;
  }

  function PutU8(v: byte): seq<byte> {
    [v]
  }

  function PutU32(v: U32): (s: seq<byte>)
    ensures |s| == 4
  {
    Le(v, 4)
  }

  function PutU64(v: U64): (s: seq<byte>)
    ensures |s| == 8
  {
    Le(v, 8)
  }

  /** Two's complement. */
  function PutI64(v: I64): (s: seq<byte>)
    ensures |s| == 8
  {
    Le(if v < 0 then v + 0x1_0000_0000_0000_0000 else v, 8)
  }

  function GetU8(s: seq<byte>): Got<byte> {
    if |s| < 1 then Fail(UnexpectedEof) else Got(s[0], s[1..])
  }

  function GetU32(s: seq<byte>): Got<U32> {
    if |s| < 4 then Fail(UnexpectedEof) else Widths(); Got(UnLe(s[..4]), s[4..])
  }

  function GetU64(s: seq<byte>): Got<U64> {
    if |s| < 8 then Fail(UnexpectedEof) else Widths(); Got(UnLe(s[..8]), s[8..])
  }

  function GetI64(s: seq<byte>): Got<I64> {
    if |s| < 8 then Fail(UnexpectedEof)
    else
      Widths();
      var n := UnLe(s[..8]);
      Got(if n < 0x8000_0000_0000_0000 then n else n - 0x1_0000_0000_0000_0000, s[8..])
  }

  lemma U8RoundTrip(v: byte, rest: seq<byte>)
    ensures GetU8(PutU8(v) + rest) == Got(v, rest)
  {
    assert (PutU8(v) + rest)[1..] == rest;
  }

  lemma U32RoundTrip(v: U32, rest: seq<byte>)
    ensures GetU32(PutU32(v) + rest) == Got(v, rest)
  {
    Widths();
    LeRoundTrip(v, 4);
    assert (PutU32(v) + rest)[..4] == PutU32(v) && (PutU32(v) + rest)[4..] == rest;
  }

  lemma U64RoundTrip(v: U64, rest: seq<byte>)
    ensures GetU64(PutU64(v) + rest) == Got(v, rest)
  {
    Widths();
    LeRoundTrip(v, 8);
    assert (PutU64(v) + rest)[..8] == PutU64(v) && (PutU64(v) + rest)[8..] == rest;
  }

  lemma I64RoundTrip(v: I64, rest: seq<byte>)
    ensures GetI64(PutI64(v) + rest) == Got(v, rest)
  {
    Widths();
    LeRoundTrip(if v < 0 then v + 0x1_0000_0000_0000_0000 else v, 8);
    assert (PutI64(v) + rest)[..8] == PutI64(v) && (PutI64(v) + rest)[8..] == rest;
  }

  // ----- byte strings ---------------------------------------------------------------------------------

  /** `write_bytes`, and `write_str` for the bytes of a string. */
  function PutBytes(b: seq<byte>): (w: Written)
    ensures w.Written? <==> |b| <= MAX_FRAME
    ensures w.Written? ==> |w.bytes| == 4 + |b|
  {
    if |b| > MAX_FRAME then TooBig else Written(PutU32(|b|) + b)
  }

  function GetBytes(s: seq<byte>): Got<seq<byte>> {
    match GetU32(s)
    case Fail(e) => Fail(e)
    case Got(n, rest) =>
      if n > MAX_FRAME then Fail(InvalidData)
      else if |rest| < n then Fail(UnexpectedEof)
      else Got(rest[..n], rest[n..])
  }

  function GetStr(s: seq<byte>): Got<Str> {
    match GetBytes(s)
    case Fail(e) => Fail(e)
    case Got(b, rest) => if Valid(b) then Got(b, rest) else Fail(InvalidData)
  }

  lemma BytesRoundTrip(b: seq<byte>, rest: seq<byte>)
    requires PutBytes(b).Written?
    ensures GetBytes(PutBytes(b).bytes + rest) == Got(b, rest)
    ensures Valid(b) ==> GetStr(PutBytes(b).bytes + rest) == Got(b, rest)
  {
    hide PutU32, GetU32;
    assert PutBytes(b).bytes + rest == PutU32(|b|) + (b + rest);
    U32RoundTrip(|b|, b + rest);
    assert (b + rest)[..|b|] == b && (b + rest)[|b|..] == rest;
  }

  // ----- requests -------------------------------------------------------------------------------------------

  datatype LabelDef = LabelDef(name: Str, address: U64)

  datatype Request =
    | Assemble(src: Str, address: U64, labels: seq<LabelDef>, withRelocs: bool, wantInstructions: bool)
    | Disassemble(bytes: seq<byte>, address: U64, count: U32, wantInstructions: bool)

  function Opcode(q: Request): (k: byte)
    ensures 1 <= k <= 6
  {
    match q
    case Assemble(_, _, _, relocs, insns) => if !relocs then (if insns then 2 else 1) else if insns then 6 else 5
    case Disassemble(_, _, _, insns) => if insns then 4 else 3
  }

  /** A `usize` cut to 32 bits. */
  function Cut32(n: nat): U32 {
    n % 0x1_0000_0000
  }

  function PutLabel(l: LabelDef): Written {
    PutBytes(l.name).Then(Written(PutU64(l.address)))
  }

  function PutLabels(ls: seq<LabelDef>): Written {
    if ls == [] then Written([]) else PutLabel(ls[0]).Then(PutLabels(ls[1..]))
  }

  function RequestBody(q: Request): Written {
    match q
    case Assemble(src, address, labels, _, _) =>
      Written(PutU64(address) + PutU32(Cut32(|labels|))).Then(PutLabels(labels)).Then(PutBytes(src))
    case Disassemble(bytes, address, count, _) =>
      Written(PutU64(address) + PutU32(count)).Then(PutBytes(bytes))
  }

  function GetLabel(s: seq<byte>): Got<LabelDef> {
    match GetStr(s)
    case Fail(e) => Fail(e)
    case Got(name, rest) =>
      match GetU64(rest)
      case Fail(e) => Fail(e)
      case Got(address, rest) => Got(LabelDef(name, address), rest)
  }

  function GetLabels(s: seq<byte>, n: nat): Got<seq<LabelDef>>
    decreases n
  {
    if n == 0 then Got([], s)
    else
      match GetLabel(s)
      case Fail(e) => Fail(e)
      case Got(l, rest) => Pushed(l, GetLabels(rest, n - 1))
  }

  function ParseAssemble(s: seq<byte>, withRelocs: bool, wantInstructions: bool): Got<Request> {
    match GetU64(s)
    case Fail(e) => Fail(e)
    case Got(address, rest) =>
      match GetU32(rest)
      case Fail(e) => Fail(e)
      case Got(n, rest) =>
        match GetLabels(rest, n)
        case Fail(e) => Fail(e)
        case Got(labels, rest) =>
          match GetStr(rest)
          case Fail(e) => Fail(e)
          case Got(src, rest) => Got(Assemble(src, address, labels, withRelocs, wantInstructions), rest)
  }

  function ParseDisasm(s: seq<byte>, wantInstructions: bool): Got<Request> {
    match GetU64(s)
    case Fail(e) => Fail(e)
    case Got(address, rest) =>
      match GetU32(rest)
      case Fail(e) => Fail(e)
      case Got(count, rest) =>
        match GetBytes(rest)
        case Fail(e) => Fail(e)
        case Got(bytes, rest) => Got(Disassemble(bytes, address, count, wantInstructions), rest)
  }

  /** `parse_request`; bytes behind the request are ignored. */
  function ParseRequest(kind: byte, body: seq<byte>): Got<Request> {
    if kind == 1 then ParseAssemble(body, false, false)
    else if kind == 2 then ParseAssemble(body, false, true)
    else if kind == 5 then ParseAssemble(body, true, false)
    else if kind == 6 then ParseAssemble(body, true, true)
    else if kind == 3 then ParseDisasm(body, false)
    else if kind == 4 then ParseDisasm(body, true)
    else Fail(InvalidData)
  }

  lemma LabelRoundTrip(l: LabelDef, rest: seq<byte>)
    requires PutLabel(l).Written?
    ensures GetLabel(PutLabel(l).bytes + rest) == Got(l, rest)
    ensures |PutLabel(l).bytes| >= 12
  {
    hide PutU64, GetU64, PutBytes, GetStr;
    var tail := PutU64(l.address) + rest;
    BytesRoundTrip(l.name, tail);
    U64RoundTrip(l.address, rest);
    assert PutLabel(l).bytes + rest == PutBytes(l.name).bytes + tail;
  }

  lemma {:induction false} LabelsRoundTrip(ls: seq<LabelDef>, rest: seq<byte>)
    requires PutLabels(ls).Written?
    ensures GetLabels(PutLabels(ls).bytes + rest, |ls|) == Got(ls, rest)
    ensures |PutLabels(ls).bytes| >= 12 * |ls|
    decreases |ls|
  {
    hide PutLabel, GetLabel;
    if ls == [] {
      assert PutLabels(ls).bytes + rest == rest;
    } else {
      assert [ls[0]] + ls[1..] == ls;
      var tail := PutLabels(ls[1..]).bytes + rest;
      LabelRoundTrip(ls[0], tail);
      LabelsRoundTrip(ls[1..], rest);
      assert PutLabels(ls).bytes + rest == PutLabel(ls[0]).bytes + tail;
    }
  }

  /** `labels.len() as u32` cannot truncate in a body that fits a frame: each label takes at least
      12 bytes of it. */
  lemma LabelCountFits(q: Request)
    requires q.Assemble? && RequestBody(q).Written? && |RequestBody(q).bytes| <= MAX_FRAME
    ensures Cut32(|q.labels|) == |q.labels| && 12 * |q.labels| + 16 <= MAX_FRAME
  {
    hide PutU64, PutU32, PutLabels, PutBytes;
    LabelsRoundTrip(q.labels, []);
    assert |RequestBody(q).bytes| == 12 + |PutLabels(q.labels).bytes| + |PutBytes(q.src).bytes|;
  }

  lemma BodyRoundTrip(q: Request)
    requires RequestBody(q).Written? && |RequestBody(q).bytes| <= MAX_FRAME
    ensures ParseRequest(Opcode(q), RequestBody(q).bytes) == Got(q, [])
  {
    hide PutU64, PutU32, GetU64, GetU32, PutLabels, GetLabels, PutBytes, GetBytes, GetStr;
    var body := RequestBody(q).bytes;
    match q {
      case Assemble(src, address, labels, relocs, insns) =>
        LabelCountFits(q);
        var last := PutBytes(src).bytes;
        var second := PutLabels(labels).bytes + last;
        assert body == PutU64(address) + (PutU32(|labels|) + second);
        U64RoundTrip(address, PutU32(|labels|) + second);
        U32RoundTrip(|labels|, second);
        LabelsRoundTrip(labels, last);
        assert last + [] == last;
        BytesRoundTrip(src, []);
      case Disassemble(bytes, address, count, insns) =>
        var last := PutBytes(bytes).bytes;
        assert body == PutU64(address) + (PutU32(count) + last);
        U64RoundTrip(address, PutU32(count) + last);
        U32RoundTrip(count, last);
        assert last + [] == last;
        BytesRoundTrip(bytes, []);
    }
  }

  // ----- frames ------------------------------------------------------------------------------------------------

  datatype Frame = Frame(kind: byte, flags: byte, body: seq<byte>)

  /** Header and body; the reserved bytes are 0. */
  function PutFrame(f: Frame): (w: Written)
    ensures w.Written? <==> |f.body| <= MAX_FRAME
    ensures w.Written? ==> |w.bytes| == 8 + |f.body|
  {
    if |f.body| > MAX_FRAME then TooBig
    else Written(PutU32(|f.body|) + ([f.kind, f.flags, 0, 0] + f.body))
  }

  /** `read_frame`: the header first, and only then its length is looked at. */
  function GetFrame(s: seq<byte>): (g: Got<Frame>)
    ensures g.Got? ==> |g.value.body| <= MAX_FRAME && |g.rest| + 8 + |g.value.body| == |s|
  {
    if |s| < 8 then Fail(UnexpectedEof)
    else
      var n := GetU32(s).value;
      if n > MAX_FRAME then Fail(InvalidData)
      else if |s| - 8 < n then Fail(UnexpectedEof)
      else Got(Frame(s[4], s[5], s[8..8 + n]), s[8 + n..])
  }

  lemma FrameRoundTrip(f: Frame, rest: seq<byte>)
    requires PutFrame(f).Written?
    ensures GetFrame(PutFrame(f).bytes + rest) == Got(f, rest)
  {
    hide PutU32, GetU32;
    var s := PutFrame(f).bytes + rest;
    var tail := [f.kind, f.flags, 0, 0] + f.body + rest;
    assert s == PutU32(|f.body|) + tail;
    U32RoundTrip(|f.body|, tail);
    assert s[8..8 + |f.body|] == f.body && s[8 + |f.body|..] == rest;
  }

  /** Frames delimit themselves: no proper prefix of a frame reads as a frame. */
  lemma PartialFrameIsEof(f: Frame, k: nat)
    requires PutFrame(f).Written? && k < |PutFrame(f).bytes|
    ensures GetFrame(PutFrame(f).bytes[..k]) == Fail(UnexpectedEof)
  {
    hide PutU32, GetU32;
    var s := PutFrame(f).bytes;
    if k >= 8 {
      var tail := ([f.kind, f.flags, 0, 0] + f.body)[..k - 4];
      assert s[..k] == PutU32(|f.body|) + tail;
      U32RoundTrip(|f.body|, tail);
    }
  }

  /** `Request::write` */
  function PutRequest(q: Request): Written {
    var b := RequestBody(q);
    if b.TooBig? then TooBig else PutFrame(Frame(Opcode(q), 0, b.bytes))
  }

  /** `Request::read` */
  function GetRequest(s: seq<byte>): Got<Request> {
    match GetFrame(s)
    case Fail(e) => Fail(e)
    case Got(f, rest) =>
      match ParseRequest(f.kind, f.body)
      case Fail(e) => Fail(e)
      case Got(q, _) => Got(q, rest)
  }

  /** A request that could be written is read back, and nothing else is consumed. */
  lemma RequestRoundTrip(q: Request, rest: seq<byte>)
    requires PutRequest(q).Written?
    ensures GetRequest(PutRequest(q).bytes + rest) == Got(q, rest)
  {
    hide PutFrame, GetFrame, RequestBody, ParseRequest;
    FrameRoundTrip(Frame(Opcode(q), 0, RequestBody(q).bytes), rest);
    BodyRoundTrip(q);
  }

  function PutRequests(qs: seq<Request>): Written {
    if qs == [] then Written([]) else PutRequest(qs[0]).Then(PutRequests(qs[1..]))
  }

  function GetRequests(s: seq<byte>, n: nat): Got<seq<Request>>
    decreases n
  {
    if n == 0 then Got([], s)
    else
      match GetRequest(s)
      case Fail(e) => Fail(e)
      case Got(q, rest) => Pushed(q, GetRequests(rest, n - 1))
  }

  /** Any sequence of written requests reads back in order. */
  lemma {:induction false} RequestsRoundTrip(qs: seq<Request>, rest: seq<byte>)
    requires PutRequests(qs).Written?
    ensures GetRequests(PutRequests(qs).bytes + rest, |qs|) == Got(qs, rest)
    decreases |qs|
  {
    hide PutRequest, GetRequest;
    if qs == [] {
      assert PutRequests(qs).bytes + rest == rest;
    } else {
      assert [qs[0]] + qs[1..] == qs;
      var tail := PutRequests(qs[1..]).bytes + rest;
      RequestRoundTrip(qs[0], tail);
      RequestsRoundTrip(qs[1..], rest);
      assert PutRequests(qs).bytes + rest == PutRequest(qs[0]).bytes + tail;
    }
  }

  // ----- instructions and relocations ---------------------------------------------------------------------------

  datatype WireInstruction = WireInstruction(address: U64, assembly: Str, bytes: seq<byte>)

  datatype WireRelocation = WireRelocation(offset: U64, addend: Option<I64>, elfType: U32, name: Str, symbol: U64)

  function PutInstruction(i: WireInstruction): Written {
    Written(PutU64(i.address)).Then(PutBytes(i.assembly)).Then(PutBytes(i.bytes))
  }

  function PutRelocation(r: WireRelocation): Written {
    var fixed := PutU64(r.offset) + PutU8(if r.addend.Some? then 1 else 0)
      + PutI64(if r.addend.Some? then r.addend.value else 0) + PutU32(r.elfType);
    Written(fixed).Then(PutBytes(r.name)).Then(Written(PutU64(r.symbol)))
  }

  function PutInstructionList(xs: seq<WireInstruction>): Written {
    if xs == [] then Written([]) else PutInstruction(xs[0]).Then(PutInstructionList(xs[1..]))
  }

  function PutRelocationList(rs: seq<WireRelocation>): Written {
    if rs == [] then Written([]) else PutRelocation(rs[0]).Then(PutRelocationList(rs[1..]))
  }

  /** `encode_instructions` and `encode_relocs`: a count, cut to 32 bits, and the records. */
  function PutInstructions(xs: seq<WireInstruction>): Written {
    Written(PutU32(Cut32(|xs|))).Then(PutInstructionList(xs))
  }

  function PutRelocations(rs: seq<WireRelocation>): Written {
    Written(PutU32(Cut32(|rs|))).Then(PutRelocationList(rs))
  }

  function GetInstruction(s: seq<byte>): Got<WireInstruction> {
    match GetU64(s)
    case Fail(e) => Fail(e)
    case Got(address, rest) =>
      match GetStr(rest)
      case Fail(e) => Fail(e)
      case Got(assembly, rest) =>
        match GetBytes(rest)
        case Fail(e) => Fail(e)
        case Got(bytes, rest) => Got(WireInstruction(address, assembly, bytes), rest)
  }

  function GetRelocation(s: seq<byte>): Got<WireRelocation> {
    match GetU64(s)
    case Fail(e) => Fail(e)
    case Got(offset, rest) =>
      match GetU8(rest)
      case Fail(e) => Fail(e)
      case Got(has, rest) =>
        match GetI64(rest)
        case Fail(e) => Fail(e)
        case Got(addend, rest) =>
          match GetU32(rest)
          case Fail(e) => Fail(e)
          case Got(elfType, rest) =>
            match GetStr(rest)
            case Fail(e) => Fail(e)
            case Got(name, rest) =>
              match GetU64(rest)
              case Fail(e) => Fail(e)
              case Got(symbol, rest) =>
                Got(WireRelocation(offset, if has != 0 then Some(addend) else None, elfType, name, symbol), rest)
  }

  function GetInstructionList(s: seq<byte>, n: nat): Got<seq<WireInstruction>>
    decreases n
  {
    if n == 0 then Got([], s)
    else
      match GetInstruction(s)
      case Fail(e) => Fail(e)
      case Got(i, rest) => Pushed(i, GetInstructionList(rest, n - 1))
  }

  function GetRelocationList(s: seq<byte>, n: nat): Got<seq<WireRelocation>>
    decreases n
  {
    if n == 0 then Got([], s)
    else
      match GetRelocation(s)
      case Fail(e) => Fail(e)
      case Got(r, rest) => Pushed(r, GetRelocationList(rest, n - 1))
  }

  function GetInstructions(s: seq<byte>): Got<seq<WireInstruction>> {
    match GetU32(s)
    case Fail(e) => Fail(e)
    case Got(n, rest) => GetInstructionList(rest, n)
  }

  function GetRelocations(s: seq<byte>): Got<seq<WireRelocation>> {
    match GetU32(s)
    case Fail(e) => Fail(e)
    case Got(n, rest) => GetRelocationList(rest, n)
  }

  lemma InstructionRoundTrip(i: WireInstruction, rest: seq<byte>)
    requires PutInstruction(i).Written?
    ensures GetInstruction(PutInstruction(i).bytes + rest) == Got(i, rest)
    ensures |PutInstruction(i).bytes| >= 16
  {
    hide PutU64, GetU64, PutBytes, GetBytes, GetStr;
    var last := PutBytes(i.bytes).bytes + rest;
    var tail := PutBytes(i.assembly).bytes + last;
    U64RoundTrip(i.address, tail);
    BytesRoundTrip(i.assembly, last);
    BytesRoundTrip(i.bytes, rest);
    assert PutInstruction(i).bytes + rest == PutU64(i.address) + tail;
  }

  lemma RelocationRoundTrip(r: WireRelocation, rest: seq<byte>)
    requires PutRelocation(r).Written?
    ensures GetRelocation(PutRelocation(r).bytes + rest) == Got(r, rest)
    ensures |PutRelocation(r).bytes| >= 33
  {
    hide PutU64, GetU64, PutI64, GetI64, PutU32, GetU32, PutU8, GetU8, PutBytes, GetStr;
    var has: byte := if r.addend.Some? then 1 else 0;
    var addend: I64 := if r.addend.Some? then r.addend.value else 0;
    var t6 := PutU64(r.symbol) + rest;
    var t5 := PutBytes(r.name).bytes + t6;
    var t4 := PutU32(r.elfType) + t5;
    var t3 := PutI64(addend) + t4;
    var t2 := PutU8(has) + t3;
    U64RoundTrip(r.offset, t2);
    U8RoundTrip(has, t3);
    I64RoundTrip(addend, t4);
    U32RoundTrip(r.elfType, t5);
    BytesRoundTrip(r.name, t6);
    U64RoundTrip(r.symbol, rest);
    RelocationLayout(r, rest);
  }

  lemma RelocationLayout(r: WireRelocation, rest: seq<byte>)
    requires PutRelocation(r).Written?
    ensures |PutRelocation(r).bytes| == 33 + |r.name|
    ensures
      var has: byte := if r.addend.Some? then 1 else 0;
      var addend: I64 := if r.addend.Some? then r.addend.value else 0;
      PutRelocation(r).bytes + rest ==
      PutU64(r.offset) + (PutU8(has)
        + (PutI64(addend) + (PutU32(r.elfType) + (PutBytes(r.name).bytes + (PutU64(r.symbol) + rest)))))
  {
    hide PutU64, PutI64, PutU32, PutBytes;
  }

  lemma {:induction false} InstructionListRoundTrip(xs: seq<WireInstruction>, rest: seq<byte>)
    requires PutInstructionList(xs).Written?
    ensures GetInstructionList(PutInstructionList(xs).bytes + rest, |xs|) == Got(xs, rest)
    ensures |PutInstructionList(xs).bytes| >= 16 * |xs|
    decreases |xs|
  {
    hide PutInstruction, GetInstruction;
    if xs == [] {
      assert PutInstructionList(xs).bytes + rest == rest;
    } else {
      assert [xs[0]] + xs[1..] == xs;
      var tail := PutInstructionList(xs[1..]).bytes + rest;
      InstructionRoundTrip(xs[0], tail);
      InstructionListRoundTrip(xs[1..], rest);
      assert PutInstructionList(xs).bytes + rest == PutInstruction(xs[0]).bytes + tail;
    }
  }

  lemma {:induction false} RelocationListRoundTrip(rs: seq<WireRelocation>, rest: seq<byte>)
    requires PutRelocationList(rs).Written?
    ensures GetRelocationList(PutRelocationList(rs).bytes + rest, |rs|) == Got(rs, rest)
    ensures |PutRelocationList(rs).bytes| >= 33 * |rs|
    decreases |rs|
  {
    hide PutRelocation, GetRelocation;
    if rs == [] {
      assert PutRelocationList(rs).bytes + rest == rest;
    } else {
      assert [rs[0]] + rs[1..] == rs;
      var tail := PutRelocationList(rs[1..]).bytes + rest;
      RelocationRoundTrip(rs[0], tail);
      RelocationListRoundTrip(rs[1..], rest);
      assert PutRelocationList(rs).bytes + rest == PutRelocation(rs[0]).bytes + tail;
    }
  }

  /** Record lists round-trip whenever they fit a frame: then their count is not cut. */
  lemma InstructionsRoundTrip(xs: seq<WireInstruction>, rest: seq<byte>)
    requires PutInstructions(xs).Written? && |PutInstructions(xs).bytes| <= MAX_FRAME
    ensures GetInstructions(PutInstructions(xs).bytes + rest) == Got(xs, rest)
  {
    hide PutU32, GetU32, PutInstructionList, GetInstructionList;
    InstructionListRoundTrip(xs, rest);
    var tail := PutInstructionList(xs).bytes + rest;
    assert PutInstructions(xs).bytes + rest == PutU32(|xs|) + tail;
    U32RoundTrip(|xs|, tail);
  }

  lemma RelocationsRoundTrip(rs: seq<WireRelocation>, rest: seq<byte>)
    requires PutRelocations(rs).Written? && |PutRelocations(rs).bytes| <= MAX_FRAME
    ensures GetRelocations(PutRelocations(rs).bytes + rest) == Got(rs, rest)
  {
    hide PutU32, GetU32, PutRelocationList, GetRelocationList;
    RelocationListRoundTrip(rs, rest);
    var tail := PutRelocationList(rs).bytes + rest;
    assert PutRelocations(rs).bytes + rest == PutU32(|rs|) + tail;
    U32RoundTrip(|rs|, tail);
  }
}
