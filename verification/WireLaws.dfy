/** The wire format byte by byte, and what happens to bodies that are cut short, run on, or are no
    requests at all.
 */
module WireLaws {
  import opened Options
  import opened Utf8
  import opened Wire
  import opened Daemon
  import Frags

  // ----- which byte is where --------------------------------------------------------------------------------

  lemma QuotientOf(x: nat, d: nat, q: nat, r: nat)
    requires d > 0 && x == d * q + r && r < d
    ensures x / d == q
  {
    hide *;
    Frags.QuotientUnique(x, d, q, r);
  }

  lemma DigitsShift(n: nat, i: nat)
    requires i > 0
    ensures n / 256 / Pow256(i - 1) == n / Pow256(i)
  {
    hide Pow256;
    var m, p := n / 256, Pow256(i - 1);
    PowerStep(i);
    var q, r := m / p, m % p;
    assert m == p * q + r;
    assert 256 * (p * q) == 256 * p * q;
    QuotientOf(n, 256 * p, q, 256 * r + n % 256);
  }

  lemma PowerStep(i: nat)
    requires i > 0
    ensures Pow256(i) == 256 * Pow256(i - 1)
  {
  }

  /** Numbers go out with their lowest byte first. */
  lemma {:induction false} LowestByteFirst(n: nat, w: nat, i: nat)
    requires i < w
    ensures Le(n, w)[i] == n / Pow256(i) % 256
    decreases w
  {
    if i > 0 {
      LowestByteFirst(n / 256, w - 1, i - 1);
      DigitsShift(n, i);
    }
  }

  /** A frame: the length of the body, the kind, the flags, two zero bytes, and the body. */
  lemma FrameLayout(f: Frame)
    ensures PutFrame(f).Written? <==> |f.body| <= 64 * 1024 * 1024
    ensures PutFrame(f).Written? ==> |PutFrame(f).bytes| == 8 + |f.body|
    ensures forall i :: 0 <= i < 4 && PutFrame(f).Written? ==> PutFrame(f).bytes[i] == |f.body| / Pow256(i) % 256
    ensures PutFrame(f).Written? ==> PutFrame(f).bytes[4..] == [f.kind, f.flags, 0, 0] + f.body
  {
    hide Le;
    if PutFrame(f).Written? {
      var s := PutFrame(f).bytes;
      assert s[..4] == Le(|f.body|, 4) && s[4..] == [f.kind, f.flags, 0, 0] + f.body;
      forall i | 0 <= i < 4
        ensures s[i] == |f.body| / Pow256(i) % 256
      {
        assert s[i] == s[..4][i];
        LowestByteFirst(|f.body|, 4, i);
      }
    }
  }

  /** The daemon greets with `NYXT` and protocol version 1. */
  lemma HandshakeLayout()
    ensures HANDSHAKE == [0x4e, 0x59, 0x58, 0x54] + Le(1, 4)
  {
    assert Le(0, 3) == [0] + Le(0, 2) && Le(0, 2) == [0] + Le(0, 1) && Le(0, 1) == [0] + Le(0, 0);
    assert Le(1, 4) == [1] + Le(0, 3);
  }

  /** A byte string behind its length. */
  function Counted(b: seq<byte>): seq<byte> {
    Le(|b|, 4) + b
  }

  function LabelBytes(ls: seq<LabelDef>): seq<byte> {
    if ls == [] then [] else Counted(ls[0].name) + Le(ls[0].address, 8) + LabelBytes(ls[1..])
  }

  lemma {:induction false} LabelsLayout(ls: seq<LabelDef>)
    requires PutLabels(ls).Written?
    ensures PutLabels(ls).bytes == LabelBytes(ls)
    decreases |ls|
  {
    hide Le;
    if ls != [] {
      LabelsLayout(ls[1..]);
    }
  }

  /** The kind and the body of a request that fits a frame. */
  lemma RequestLayout(q: Request)
    requires RequestBody(q).Written? && |RequestBody(q).bytes| <= MAX_FRAME
    ensures
      match q
      case Assemble(src, address, labels, relocs, insns) =>
        && Opcode(q) == (if relocs then 5 else 1) + (if insns then 1 else 0)
        && RequestBody(q).bytes == Le(address, 8) + Le(|labels|, 4) + LabelBytes(labels) + Counted(src)
      case Disassemble(bytes, address, count, insns) =>
        && Opcode(q) == 3 + (if insns then 1 else 0)
        && RequestBody(q).bytes == Le(address, 8) + Le(count, 4) + Counted(bytes)
  {
    hide Le, LabelBytes, PutLabels;
    if q.Assemble? {
      LabelCountFits(q);
      LabelsLayout(q.labels);
    }
  }

  function InstructionBytes(i: WireInstruction): seq<byte> {
    Le(i.address, 8) + Counted(i.assembly) + Counted(i.bytes)
  }

  function InstructionsBytes(xs: seq<WireInstruction>): seq<byte> {
    if xs == [] then [] else InstructionBytes(xs[0]) + InstructionsBytes(xs[1..])
  }

  /** The addend in two's complement, and whether there is one. */
  function RelocationBytes(r: WireRelocation): seq<byte> {
    Le(r.offset, 8) + [if r.addend.Some? then 1 else 0]
    + Le(if r.addend.Some? then r.addend.value % 0x1_0000_0000_0000_0000 else 0, 8)
    + Le(r.elfType, 4) + Counted(r.name) + Le(r.symbol, 8)
  }

  function RelocationsBytes(rs: seq<WireRelocation>): seq<byte> {
    if rs == [] then [] else RelocationBytes(rs[0]) + RelocationsBytes(rs[1..])
  }

  lemma {:induction false} InstructionsLayout(xs: seq<WireInstruction>)
    requires PutInstructionList(xs).Written?
    ensures PutInstructionList(xs).bytes == InstructionsBytes(xs)
    decreases |xs|
  {
    hide Le;
    if xs != [] {
      InstructionsLayout(xs[1..]);
    }
  }

  lemma RelocationIs(r: WireRelocation)
    requires PutRelocation(r).Written?
    ensures PutRelocation(r).bytes == RelocationBytes(r)
  {
    hide Le;
  }

  lemma {:induction false} RelocationsLayout(rs: seq<WireRelocation>)
    requires PutRelocationList(rs).Written?
    ensures PutRelocationList(rs).bytes == RelocationsBytes(rs)
    decreases |rs|
  {
    hide PutRelocation, RelocationBytes;
    if rs != [] {
      RelocationIs(rs[0]);
      RelocationsLayout(rs[1..]);
    }
  }

  /** The body of a successful answer, if it fits a frame. */
  lemma ValueLayout(v: Value)
    requires EncodeValue(v).Written? && |EncodeValue(v).bytes| <= MAX_FRAME
    ensures
      EncodeValue(v).bytes ==
      match v
      case Code(bytes) => Counted(bytes)
      case Listing(xs) => Le(|xs|, 4) + InstructionsBytes(xs)
      case LinkedCode(bytes, rs) => Counted(bytes) + (Le(|rs|, 4) + RelocationsBytes(rs))
      case LinkedListing(xs, rs) => Le(|xs|, 4) + InstructionsBytes(xs) + (Le(|rs|, 4) + RelocationsBytes(rs))
      case Text(text) => Counted(text)
  {
    hide Le, PutInstructionList, PutRelocationList, InstructionsBytes, RelocationsBytes;
    match v {
      case Listing(xs) => CountOfInstructions(xs);
      case LinkedCode(_, rs) => CountOfRelocations(rs);
      case LinkedListing(xs, rs) =>
        CountOfInstructions(xs);
        CountOfRelocations(rs);
      case _ =>
    }
  }

  lemma CountOfInstructions(xs: seq<WireInstruction>)
    requires PutInstructions(xs).Written? && |PutInstructions(xs).bytes| <= MAX_FRAME
    ensures Cut32(|xs|) == |xs| && PutInstructions(xs).bytes == Le(|xs|, 4) + InstructionsBytes(xs)
  {
    hide Le, PutInstructionList, InstructionsBytes, GetInstructionList, Valid, CharLength, Cut32;
    InstructionListRoundTrip(xs, []);
    InstructionsLayout(xs);
    NotCut(|xs|);
  }

  lemma NotCut(n: nat)
    requires n < 0x1_0000_0000
    ensures Cut32(n) == n
  {
  }

  lemma CountOfRelocations(rs: seq<WireRelocation>)
    requires PutRelocations(rs).Written? && |PutRelocations(rs).bytes| <= MAX_FRAME
    ensures Cut32(|rs|) == |rs| && PutRelocations(rs).bytes == Le(|rs|, 4) + RelocationsBytes(rs)
  {
    hide Le, PutRelocationList, RelocationsBytes, GetRelocationList, Valid, CharLength, Cut32;
    RelocationListRoundTrip(rs, []);
    RelocationsLayout(rs);
    NotCut(|rs|);
  }

  // ----- bodies that are cut short or run on ----------------------------------------------------------------

  /** A reader does not look beyond what it takes. */
  ghost predicate Extends<T>(g: Got<T>, h: Got<T>, t: seq<byte>) {
    g.Got? ==> h == Got(g.value, g.rest + t)
  }

  lemma NumbersExtend(s: seq<byte>, t: seq<byte>)
    ensures Extends(GetU32(s), GetU32(s + t), t) && Extends(GetU64(s), GetU64(s + t), t)
  {
    if |s| >= 4 {
      assert (s + t)[..4] == s[..4] && (s + t)[4..] == s[4..] + t;
    }
    if |s| >= 8 {
      assert (s + t)[..8] == s[..8] && (s + t)[8..] == s[8..] + t;
    }
  }

  lemma BytesExtend(s: seq<byte>, t: seq<byte>)
    ensures Extends(GetBytes(s), GetBytes(s + t), t) && Extends(GetStr(s), GetStr(s + t), t)
  {
    hide GetU32, Valid;
    NumbersExtend(s, t);
    if GetBytes(s).Got? {
      var g := GetU32(s);
      assert (g.rest + t)[..g.value] == g.rest[..g.value] && (g.rest + t)[g.value..] == g.rest[g.value..] + t;
    }
  }

  lemma LabelExtends(s: seq<byte>, t: seq<byte>)
    ensures Extends(GetLabel(s), GetLabel(s + t), t)
  {
    hide GetStr, GetU64;
    BytesExtend(s, t);
    if GetStr(s).Got? {
      NumbersExtend(GetStr(s).rest, t);
    }
  }

  lemma {:induction false} LabelsExtend(s: seq<byte>, n: nat, t: seq<byte>)
    ensures Extends(GetLabels(s, n), GetLabels(s + t, n), t)
    decreases n
  {
    hide GetLabel;
    if n > 0 {
      LabelExtends(s, t);
      if GetLabel(s).Got? {
        LabelsExtend(GetLabel(s).rest, n - 1, t);
      }
    }
  }

  lemma AssembleExtends(s: seq<byte>, relocs: bool, insns: bool, t: seq<byte>)
    ensures Extends(ParseAssemble(s, relocs, insns), ParseAssemble(s + t, relocs, insns), t)
  {
    hide GetU64, GetU32, GetStr, GetLabels;
    NumbersExtend(s, t);
    if GetU64(s).Got? {
      var r := GetU64(s).rest;
      NumbersExtend(r, t);
      if GetU32(r).Got? {
        var n, q := GetU32(r).value, GetU32(r).rest;
        LabelsExtend(q, n, t);
        if GetLabels(q, n).Got? {
          BytesExtend(GetLabels(q, n).rest, t);
        }
      }
    }
  }

  lemma DisasmExtends(s: seq<byte>, insns: bool, t: seq<byte>)
    ensures Extends(ParseDisasm(s, insns), ParseDisasm(s + t, insns), t)
  {
    hide GetU64, GetU32, GetBytes;
    NumbersExtend(s, t);
    if GetU64(s).Got? {
      var r := GetU64(s).rest;
      NumbersExtend(r, t);
      if GetU32(r).Got? {
        BytesExtend(GetU32(r).rest, t);
      }
    }
  }

  lemma RequestExtends(kind: byte, s: seq<byte>, t: seq<byte>)
    ensures Extends(ParseRequest(kind, s), ParseRequest(kind, s + t), t)
  {
    hide ParseAssemble, ParseDisasm;
    AssembleExtends(s, false, false, t);
    AssembleExtends(s, false, true, t);
    AssembleExtends(s, true, false, t);
    AssembleExtends(s, true, true, t);
    DisasmExtends(s, false, t);
    DisasmExtends(s, true, t);
  }

  /** Bytes behind a request are left over. */
  lemma RestIsLeft(q: Request, rest: seq<byte>)
    requires RequestBody(q).Written? && |RequestBody(q).bytes| <= MAX_FRAME
    ensures ParseRequest(Opcode(q), RequestBody(q).bytes + rest) == Got(q, rest)
  {
    hide ParseRequest, RequestBody;
    BodyRoundTrip(q);
    RequestExtends(Opcode(q), RequestBody(q).bytes, rest);
    assert [] + rest == rest;
  }

  /** No proper prefix of a request body reads as a request. */
  lemma ShortBodyFails(q: Request, k: nat)
    requires RequestBody(q).Written? && |RequestBody(q).bytes| <= MAX_FRAME && k < |RequestBody(q).bytes|
    ensures ParseRequest(Opcode(q), RequestBody(q).bytes[..k]).Fail?
  {
    hide ParseRequest, RequestBody;
    var s := RequestBody(q).bytes;
    BodyRoundTrip(q);
    RequestExtends(Opcode(q), s[..k], s[k..]);
    assert s[..k] + s[k..] == s;
  }

  /** A kind from 1 to 6 is needed. */
  lemma UnknownKindFails(kind: byte, body: seq<byte>)
    requires kind == 0 || kind > 6
    ensures ParseRequest(kind, body) == Fail(InvalidData)
  {
  }

  /** A frame that holds no request is answered with a protocol error that carries the daemon's message. */
  lemma MalformedIsProtocolError(lib: Library, w: Wording, f: Frame)
    requires Short(w) && ParseRequest(f.kind, f.body).Fail?
    ensures
      var msg := w(BadRequest(ParseRequest(f.kind, f.body).error));
      && Answer(lib, w, f).kind == 7 && Answer(lib, w, f).flags == 0
      && Answer(lib, w, f).body == Counted(msg)
  {
    hide ParseRequest, Le, Valid;
    var msg := w(BadRequest(ParseRequest(f.kind, f.body).error));
    assert |msg| + 4 <= MAX_FRAME;
  }

  /** The status of an answer says what became of the call, its flags whether relocations follow. */
  lemma AnswerStatus(lib: Library, w: Wording, q: Request)
    requires RequestBody(q).Written? && |RequestBody(q).bytes| <= MAX_FRAME
    requires
      match lib(FromWire(q))
      case Success(v) => EncodeValue(v).Written? && |EncodeValue(v).bytes| <= MAX_FRAME
      case Failure(e) => 4 + |Message(e)| <= MAX_FRAME
    ensures
      var a := Answer(lib, w, Frame(Opcode(q), 0, RequestBody(q).bytes));
      match lib(FromWire(q))
      case Success(v) =>
        && a.kind == 0 && a.body == EncodeValue(v).bytes
        && a.flags == if q.Assemble? && q.withRelocs then 1 else 0
      case Failure(e) =>
        && a.flags == 0 && a.body == Counted(Message(e))
        && a.kind ==
           match e
           case Init(_) => 1
           case NullArg => 2
           case AssembleFailed(_) => 3
           case SectionViolation(_) => 4
           case DisassembleFailed(_) => 5
           case Alloc => 6
           case UnknownStatus(_, _) => 0xff
  {
    hide ParseRequest, RequestBody, Le, Valid, Message, EncodeValue, FromWire;
    BodyRoundTrip(q);
  }

  /** The number that decimal digits stand for. */
  function DecimalValue(s: seq<byte>): int {
    if s == [] then 0 else DecimalValue(s[..|s| - 1]) * 10 + (s[|s| - 1] as int - 48)
  }

  lemma {:induction false} DigitsAreDecimal(n: nat)
    ensures DecimalValue(DigitsOf(n)) == n && DigitsOf(n) != []
    ensures forall i :: 0 <= i < |DigitsOf(n)| ==> 48 <= DigitsOf(n)[i] <= 57
    ensures n > 0 ==> DigitsOf(n)[0] != 48
    decreases n
  {
    var s := DigitsOf(n);
    if n < 10 {
      assert s[..0] == [];
      assert DecimalValue([]) == 0;
    } else {
      DigitsAreDecimal(n / 10);
      assert s[..|s| - 1] == DigitsOf(n / 10);
    }
  }

  /** The message of an unknown status: its code in decimal, in brackets, a blank, and the message. */
  lemma CodeInFront(c: int, m: Str)
    ensures
      exists d ::
        && UnknownText(c, m) == [40] + (if c < 0 then [45] else []) + d + [41, 32] + m
        && d != [] && DecimalValue(d) == (if c < 0 then -c else c)
        && (forall i :: 0 <= i < |d| ==> 48 <= d[i] <= 57) && (c != 0 ==> d[0] != 48)
  {
    hide Valid, CharLength, DecimalValue, DigitsOf;
    var n := if c < 0 then -c else c;
    var d := DigitsOf(n);
    DigitsAreDecimal(n);
    assert UnknownText(c, m) == [40] + (if c < 0 then [45] else []) + d + [41, 32] + m;
  }

  // ----- limits, text and the end of a stream ---------------------------------------------------------------

  /** A byte string goes out with its length in front, up to 64 MiB, and one announced as longer is an
      error before it is read. */
  lemma FieldLimit(s: seq<byte>, n: U32, rest: seq<byte>)
    ensures PutBytes(s) == if |s| <= 64 * 1024 * 1024 then Written(Le(|s|, 4) + s) else TooBig
    ensures n > 64 * 1024 * 1024 ==> GetBytes(Le(n, 4) + rest) == Fail(InvalidData)
    ensures n <= 64 * 1024 * 1024 && |rest| < n ==> GetBytes(Le(n, 4) + rest) == Fail(UnexpectedEof)
  {
    hide Le, UnLe;
    U32RoundTrip(n, rest);
  }

  /** Text has to be valid UTF-8. */
  lemma TextIsChecked(s: seq<byte>, rest: seq<byte>)
    requires PutBytes(s).Written?
    ensures GetStr(PutBytes(s).bytes + rest) == if Valid(s) then Got(s, rest) else Fail(InvalidData)
  {
    hide PutBytes, GetBytes, Valid;
    BytesRoundTrip(s, rest);
  }

  /** Where serving ends: in the middle of a frame the client is taken to be gone, and at a frame that is
      announced as longer than 64 MiB the stream is given up; nothing is written for either. */
  lemma ServingEnds(lib: Library, w: Wording, reserve: nat -> bool, f: Frame, k: nat, n: U32, rest: seq<byte>)
    requires Short(w)
    ensures PutFrame(f).Written? && k < |PutFrame(f).bytes| ==>
              Served(lib, w, reserve, PutFrame(f).bytes[..k]) == ([], Closed)
    ensures n > 64 * 1024 * 1024 && |rest| >= 4 ==> Served(lib, w, reserve, Le(n, 4) + rest) == ([], Broken)
  {
    hide PutFrame, Answer, Aborts, Le, UnLe, Short;
    if PutFrame(f).Written? && k < |PutFrame(f).bytes| {
      PartialFrameIsEof(f, k);
      ServedStep(lib, w, reserve, PutFrame(f).bytes[..k]);
    }
    if n > 64 * 1024 * 1024 && |rest| >= 4 {
      U32RoundTrip(n, rest);
      assert GetFrame(Le(n, 4) + rest) == Fail(InvalidData);
      ServedStep(lib, w, reserve, Le(n, 4) + rest);
    }
  }
}
