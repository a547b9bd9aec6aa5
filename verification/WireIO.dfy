/** The readers and writers of protocol.rs as they run: writers append to a buffer, readers advance
    a cursor, loops push records.  Each is proved against the function of Wire that specifies it.
 */
module WireIO {
  import opened Options
  import opened Utf8
  import opened Wire

  datatype Read<+T> = Ok(value: T) | Err(error: IoError)

  /** A reader did what the function says: the value, and the cursor behind it. */
  predicate Took<T(==)>(g: Got<T>, r: Read<T>, rest: seq<byte>) {
    match g
    case Got(v, s) => r == Ok(v) && rest == s
    case Fail(e) => r == Err(e)
  }

  /** A writer did what the function says; a rejected payload leaves the buffer alone. */
  predicate Wrote(w: Written, ok: bool, was: seq<byte>, now: seq<byte>) {
    ok == w.Written? && now == was + if ok then w.bytes else []
  }

  class Stream {
    var data: seq<byte>

    constructor (data: seq<byte>)
      ensures this.data == data
    {
      this.data := data;
    }

    // ----- writers ----------------------------------------------------------------------------

    method WriteAll(s: seq<byte>)
      modifies this
      ensures data == old(data) + s
    {
      data := data + s;
    }

    method WriteBytes(b: seq<byte>) returns (ok: bool)
      modifies this
      ensures Wrote(PutBytes(b), ok, old(data), data)
    {
      hide PutU32;
      if |b| > MAX_FRAME {
        return false;
      }
      WriteAll(PutU32(|b|));
      WriteAll(b);
      return true;
    }

    /** `FrameHeader::write` and the body: checked before any byte is written. */
    method WriteFrame(f: Frame) returns (ok: bool)
      modifies this
      ensures Wrote(PutFrame(f), ok, old(data), data)
    {
      hide PutU32;
      if |f.body| > MAX_FRAME {
        return false;
      }
      WriteAll(PutU32(|f.body|));
      WriteAll([f.kind, f.flags, 0, 0]);
      WriteAll(f.body);
      return true;
    }

    /** Every label, or a rejection on the way. */
    method WriteLabels(ls: seq<LabelDef>) returns (ok: bool)
      modifies this
      ensures ok == PutLabels(ls).Written?
      ensures ok ==> data == old(data) + PutLabels(ls).bytes
    {
      hide PutBytes, PutU64, PutLabels;
      var i := 0;
      LabelsEnd();
      assert ls[0..] == ls;
      while i < |ls|
        invariant i <= |ls|
        invariant PutLabels(ls[i..]).Written? == PutLabels(ls).Written?
        invariant PutLabels(ls).Written? ==> data + PutLabels(ls[i..]).bytes == old(data) + PutLabels(ls).bytes
      {
        LabelsStep(ls, i);
        var named := WriteBytes(ls[i].name);
        if !named {
          return false;
        }
        WriteAll(PutU64(ls[i].address));
        i := i + 1;
      }
      assert ls[i..] == [];
      ok := true;
    }

    /** `Request::write`: the body goes into a buffer of its own, and a request that is too large
        leaves the stream untouched. */
    method WriteRequest(q: Request) returns (ok: bool)
      modifies this
      ensures Wrote(PutRequest(q), ok, old(data), data)
    {
      hide PutBytes, PutU64, PutU32, PutLabels, PutFrame;
      var body := new Stream([]);
      match q {
        case Assemble(src, address, labels, _, _) =>
          body.WriteAll(PutU64(address));
          body.WriteAll(PutU32(Cut32(|labels|)));
          ok := body.WriteLabels(labels);
          if !ok {
            return;
          }
          ok := body.WriteBytes(src);
        case Disassemble(bytes, address, count, _) =>
          body.WriteAll(PutU64(address));
          body.WriteAll(PutU32(count));
          ok := body.WriteBytes(bytes);
      }
      if !ok {
        return;
      }
      assert body.data == RequestBody(q).bytes;
      ok := WriteFrame(Frame(Opcode(q), 0, body.data));
    }

    // ----- readers ----------------------------------------------------------------------------

    method ReadU32() returns (r: Read<U32>)
      modifies this
      ensures Took(GetU32(old(data)), r, data)
    {
      if |data| < 4 {
        return Err(UnexpectedEof);
      }
      Widths();
      r := Ok(UnLe(data[..4]));
      data := data[4..];
    }

    method ReadU64() returns (r: Read<U64>)
      modifies this
      ensures Took(GetU64(old(data)), r, data)
    {
      if |data| < 8 {
        return Err(UnexpectedEof);
      }
      Widths();
      r := Ok(UnLe(data[..8]));
      data := data[8..];
    }

    method ReadBytes() returns (r: Read<seq<byte>>)
      modifies this
      ensures Took(GetBytes(old(data)), r, data)
    {
      hide GetU32;
      var n := ReadU32();
      if n.Err? {
        return Err(n.error);
      }
      if n.value > MAX_FRAME {
        return Err(InvalidData);
      }
      if |data| < n.value {
        return Err(UnexpectedEof);
      }
      r := Ok(data[..n.value]);
      data := data[n.value..];
    }

    method ReadStr() returns (r: Read<Str>)
      modifies this
      ensures Took(GetStr(old(data)), r, data)
    {
      hide GetBytes, Valid;
      var b := ReadBytes();
      match b {
        case Err(e) => r := Err(e);
        case Ok(s) => r := if Valid(s) then Ok(s) else Err(InvalidData);
      }
    }

    method ReadLabels(n: nat) returns (r: Read<seq<LabelDef>>)
      modifies this
      ensures Took(GetLabels(old(data), n), r, data)
    {
      hide GetStr, GetU64, GetLabels, Joined;
      var labels := [];
      var i := 0;
      JoinedNothing(GetLabels(data, n));
      while i < n
        invariant i <= n
        invariant GetLabels(old(data), n) == Joined(labels, GetLabels(data, n - i))
      {
        LabelsReadStep(labels, data, n - i);
        var name := ReadStr();
        if name.Err? {
          return Err(name.error);
        }
        var address := ReadU64();
        if address.Err? {
          return Err(address.error);
        }
        labels := labels + [LabelDef(name.value, address.value)];
        i := i + 1;
      }
      LabelsReadStep(labels, data, 0);
      r := Ok(labels);
    }

    method ReadInstructions() returns (r: Read<seq<WireInstruction>>)
      modifies this
      ensures Took(GetInstructions(old(data)), r, data)
    {
      hide GetStr, GetU64, GetU32, GetBytes, GetInstructionList, Joined;
      var count := ReadU32();
      if count.Err? {
        return Err(count.error);
      }
      var n: nat := count.value;
      ghost var body := data;
      var v := [];
      var i := 0;
      JoinedNothing(GetInstructionList(data, n));
      while i < n
        invariant i <= n
        invariant GetInstructionList(body, n) == Joined(v, GetInstructionList(data, n - i))
      {
        InstructionsReadStep(v, data, n - i);
        var address := ReadU64();
        if address.Err? {
          return Err(address.error);
        }
        var assembly := ReadStr();
        if assembly.Err? {
          return Err(assembly.error);
        }
        var bytes := ReadBytes();
        if bytes.Err? {
          return Err(bytes.error);
        }
        v := v + [WireInstruction(address.value, assembly.value, bytes.value)];
        i := i + 1;
      }
      InstructionsReadStep(v, data, 0);
      r := Ok(v);
    }

    method ReadU8() returns (r: Read<byte>)
      modifies this
      ensures Took(GetU8(old(data)), r, data)
    {
      if |data| < 1 {
        return Err(UnexpectedEof);
      }
      r := Ok(data[0]);
      data := data[1..];
    }

    method ReadI64() returns (r: Read<I64>)
      modifies this
      ensures Took(GetI64(old(data)), r, data)
    {
      if |data| < 8 {
        return Err(UnexpectedEof);
      }
      Widths();
      var n: int := UnLe(data[..8]);
      r := Ok(if n < 0x8000_0000_0000_0000 then n else n - 0x1_0000_0000_0000_0000);
      data := data[8..];
    }

    method ReadRelocation() returns (r: Read<WireRelocation>)
      modifies this
      ensures Took(GetRelocation(old(data)), r, data)
    {
      hide GetStr, GetU64, GetU32, GetU8, GetI64;
      var offset := ReadU64();
      if offset.Err? {
        return Err(offset.error);
      }
      var has := ReadU8();
      if has.Err? {
        return Err(has.error);
      }
      var addend := ReadI64();
      if addend.Err? {
        return Err(addend.error);
      }
      var elfType := ReadU32();
      if elfType.Err? {
        return Err(elfType.error);
      }
      var name := ReadStr();
      if name.Err? {
        return Err(name.error);
      }
      var symbol := ReadU64();
      if symbol.Err? {
        return Err(symbol.error);
      }
      r := Ok(WireRelocation(offset.value, if has.value != 0 then Some(addend.value) else None, elfType.value,
        name.value, symbol.value));
    }

    method ReadRelocations() returns (r: Read<seq<WireRelocation>>)
      modifies this
      ensures Took(GetRelocations(old(data)), r, data)
    {
      hide GetU32, GetRelocation, GetRelocationList, Joined;
      var count := ReadU32();
      if count.Err? {
        return Err(count.error);
      }
      var n: nat := count.value;
      ghost var body := data;
      var v := [];
      var i := 0;
      JoinedNothing(GetRelocationList(data, n));
      while i < n
        invariant i <= n
        invariant GetRelocationList(body, n) == Joined(v, GetRelocationList(data, n - i))
      {
        RelocationsReadStep(v, data, n - i);
        var x := ReadRelocation();
        if x.Err? {
          return Err(x.error);
        }
        v := v + [x.value];
        i := i + 1;
      }
      RelocationsReadStep(v, data, 0);
      r := Ok(v);
    }
  }

  lemma LabelsEnd()
    ensures PutLabels([]) == Written([])
  {
  }

  lemma LabelsStep(ls: seq<LabelDef>, i: nat)
    requires i < |ls|
    ensures PutLabels(ls[i..]) == PutBytes(ls[i].name).Then(Written(PutU64(ls[i].address))).Then(PutLabels(ls[i + 1..]))
  {
    hide PutBytes, PutU64;
    assert ls[i..][1..] == ls[i + 1..];
  }

  /** Records read so far, before the outcome for the rest. */
  function Joined<T>(v: seq<T>, g: Got<seq<T>>): Got<seq<T>> {
    match g
    case Fail(e) => Fail(e)
    case Got(more, rest) => Got(v + more, rest)
  }

  lemma JoinedNothing<T>(g: Got<seq<T>>)
    ensures Joined([], g) == g
  {
    if g.Got? {
      assert [] + g.value == g.value;
    }
  }

  lemma JoinedAll<T>(v: seq<T>, s: seq<byte>)
    ensures Joined(v, Got([], s)) == Got(v, s)
  {
    assert v + [] == v;
  }

  lemma JoinedMore<T>(v: seq<T>, x: T, g: Got<seq<T>>)
    ensures Joined(v, Pushed(x, g)) == Joined(v + [x], g)
  {
    if g.Got? {
      assert v + ([x] + g.value) == v + [x] + g.value;
    }
  }

  lemma LabelsReadStep(v: seq<LabelDef>, s: seq<byte>, n: nat)
    ensures n == 0 ==> Joined(v, GetLabels(s, n)) == Got(v, s)
    ensures n > 0 ==>
      Joined(v, GetLabels(s, n)) ==
      match GetLabel(s)
      case Fail(e) => Fail(e)
      case Got(x, rest) => Joined(v + [x], GetLabels(rest, n - 1))
  {
    hide GetLabel, Pushed;
    JoinedAll(v, s);
    if n > 0 && GetLabel(s).Got? {
      JoinedMore(v, GetLabel(s).value, GetLabels(GetLabel(s).rest, n - 1));
    }
  }

  lemma InstructionsReadStep(v: seq<WireInstruction>, s: seq<byte>, n: nat)
    ensures n == 0 ==> Joined(v, GetInstructionList(s, n)) == Got(v, s)
    ensures n > 0 ==>
      Joined(v, GetInstructionList(s, n)) ==
      match GetInstruction(s)
      case Fail(e) => Fail(e)
      case Got(x, rest) => Joined(v + [x], GetInstructionList(rest, n - 1))
  {
    hide GetInstruction, Pushed;
    JoinedAll(v, s);
    if n > 0 && GetInstruction(s).Got? {
      JoinedMore(v, GetInstruction(s).value, GetInstructionList(GetInstruction(s).rest, n - 1));
    }
  }

  lemma RelocationsReadStep(v: seq<WireRelocation>, s: seq<byte>, n: nat)
    ensures n == 0 ==> Joined(v, GetRelocationList(s, n)) == Got(v, s)
    ensures n > 0 ==>
      Joined(v, GetRelocationList(s, n)) ==
      match GetRelocation(s)
      case Fail(e) => Fail(e)
      case Got(x, rest) => Joined(v + [x], GetRelocationList(rest, n - 1))
  {
    hide GetRelocation, Pushed;
    JoinedAll(v, s);
    if n > 0 && GetRelocation(s).Got? {
      JoinedMore(v, GetRelocation(s).value, GetRelocationList(GetRelocation(s).rest, n - 1));
    }
  }
}
