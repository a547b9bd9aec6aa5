/** The six entry points of the C ABI (src/nyxstone_c.cpp).  `nullArg` says that a required pointer
    is NULL, `wantErr` that the caller passes an `out_err`, and `r` is what the C++ library does:
    return a value, return an error, or throw.
 */
module EntryPoints {
  import opened Utf8
  import opened Wire
  import opened CAbi

  datatype Result<+T> = Value(value: T) | Error(msg: seq<byte>) | Throws(msg: seq<byte>)

  datatype Status = OK | ErrNullArg | ErrAssemble | ErrSection | ErrDisasm | ErrAlloc

  /** The caller's variables behind the out-parameters; an entry point has some of them. */
  datatype Outputs = Outputs(bytes: Ptr, bytesLen: nat, insns: Ptr, insnsLen: nat, relocs: Ptr, relocsLen: nat,
    text: Ptr)

  const NOTHING := Outputs(NULL, 0, NULL, 0, NULL, 0, NULL)

  /** `only .text is allowed` */
  const SECTION_PHRASE: seq<byte> :=
    [111, 110, 108, 121, 32, 46, 116, 101, 120, 116, 32, 105, 115, 32, 97, 108, 108, 111, 119, 101, 100]

  /** `null argument` and `out of memory` */
  const NULL_ARGUMENT: seq<byte> := [110, 117, 108, 108, 32, 97, 114, 103, 117, 109, 101, 110, 116]
  const OUT_OF_MEMORY: seq<byte> := [111, 117, 116, 32, 111, 102, 32, 109, 101, 109, 111, 114, 121]

  predicate Contains(s: seq<byte>, phrase: seq<byte>)
    decreases |s|
  {
    phrase <= s || (s != [] && Contains(s[1..], phrase))
  }

  /** `classify_assemble_error` */
  function Classify(msg: seq<byte>): Status {
    if Contains(msg, SECTION_PHRASE) then ErrSection else ErrAssemble
  }

  lemma {:induction false} ContainsAt(s: seq<byte>, phrase: seq<byte>, i: nat)
    requires i <= |s| && phrase <= s[i..]
    ensures Contains(s, phrase)
    decreases i
  {
    if i == 0 {
      assert s[0..] == s;
    } else {
      assert s[1..][i - 1..] == s[i..];
      ContainsAt(s[1..], phrase, i - 1);
    }
  }

  lemma {:induction false} ContainedAt(s: seq<byte>, phrase: seq<byte>) returns (i: nat)
    requires Contains(s, phrase)
    ensures i <= |s| && phrase <= s[i..]
    decreases |s|
  {
    if phrase <= s {
      i := 0;
      assert s[0..] == s;
    } else {
      i := ContainedAt(s[1..], phrase);
      assert s[1..][i..] == s[i + 1..];
      i := i + 1;
    }
  }

  /** An error is a section violation if and only if the phrase stands somewhere in its message. */
  lemma SectionIffPhrase(msg: seq<byte>)
    ensures Classify(msg) == ErrSection <==>
            exists before, behind :: msg == before + SECTION_PHRASE + behind
    ensures Classify(msg) == ErrSection || Classify(msg) == ErrAssemble
  {
    hide Contains;
    if Contains(msg, SECTION_PHRASE) {
      var i := ContainedAt(msg, SECTION_PHRASE);
      assert msg == msg[..i] + SECTION_PHRASE + msg[i + |SECTION_PHRASE|..];
    }
    if before, behind :| msg == before + SECTION_PHRASE + behind {
      assert msg[|before|..] == SECTION_PHRASE + behind;
      ContainsAt(msg, SECTION_PHRASE, |before|);
    }
  }

  // ----- ownership ------------------------------------------------------------------------------------

  function InsnPart(b: Blocks, o: Outputs): set<Ptr> {
    if o.insns == NULL then {} else InsnOwned(b, o.insns, o.insnsLen)
  }

  function RelocPart(b: Blocks, o: Outputs): set<Ptr> {
    if o.relocs == NULL then {} else RelocOwned(b, o.relocs, o.relocsLen)
  }

  function PlainPart(o: Outputs): set<Ptr> {
    {o.bytes, o.text} - {NULL}
  }

  /** The caller owns exactly what was allocated since `was`, and can free all of it. */
  ghost predicate Handed(was: Blocks, now: Blocks, o: Outputs) {
    && Grown(was, now, PlainPart(o) + InsnPart(now, o) + RelocPart(now, o))
    && PlainPart(o) !! InsnPart(now, o) && PlainPart(o) + InsnPart(now, o) !! RelocPart(now, o)
    && (o.bytes == o.text ==> o.bytes == NULL)
    && FreeableInsns(now, o.insns, o.insnsLen) && FreeableRelocs(now, o.relocs, o.relocsLen)
  }

  /** A byte buffer, NULL if there are no bytes. */
  predicate HoldsBytes(b: Blocks, p: Ptr, n: nat, s: seq<byte>) {
    n == |s| && if s == [] then p == NULL else p != NULL && p in b && b[p] == Raw(s)
  }

  /** Relocations, NULL if there are none. */
  predicate HoldsRelocsOut(b: Blocks, p: Ptr, n: nat, v: seq<Relocation>) {
    n == |v| && if v == [] then p == NULL else HoldsRelocs(b, p, v)
  }

  predicate HoldsInsnsOut(b: Blocks, p: Ptr, n: nat, v: seq<Instruction>) {
    n == |v| && HoldsInsns(b, p, v)
  }

  /** A failed call leaves nothing behind but its error string, if that could be allocated. */
  ghost predicate OnlyError(was: Blocks, now: Blocks, wantErr: bool, err: Ptr) {
    if wantErr && err != NULL then err !in was && err in now && now[err].CString? && now - {err} == was else now == was
  }

  lemma GrownTwice(was: Blocks, mid: Blocks, now: Blocks, a: set<Ptr>, b: set<Ptr>)
    requires Grown(was, mid, a) && Grown(mid, now, b)
    ensures Grown(was, now, a + b) && a !! b
  {
  }

  lemma NothingGrown(was: Blocks)
    ensures Grown(was, was, {}) && Handed(was, was, NOTHING)
  {
  }

  lemma PlainHanded(was: Blocks, p: Ptr, b: Block, o: Outputs)
    requires NULL !in was && p != NULL && p !in was
    requires o == NOTHING.(bytes := p, bytesLen := o.bytesLen) || o == NOTHING.(text := p)
    ensures Grown(was, was[p := b], {p}) && Handed(was, was[p := b], o)
  {
  }

  /** The array on top of what was handed over before. */
  lemma InsnsHanded(was: Blocks, now: Blocks, p: Ptr, n: nat)
    requires PartialInsns(was, now, p, n)
    ensures Handed(was, now, NOTHING.(insns := p, insnsLen := n))
  {
    hide InsnPtrs, InsnsApart;
  }

  lemma RelocsHandedToo(was: Blocks, mid: Blocks, now: Blocks, o: Outputs, p: Ptr, n: nat)
    requires Handed(was, mid, o) && o.relocs == NULL && o.relocsLen == 0 && PartialRelocs(mid, now, p, n)
    ensures Handed(was, now, o.(relocs := p, relocsLen := n))
  {
    hide InsnPtrs, InsnsApart, RelocPtrs, RelocsApart;
    GrownTwice(was, mid, now, PlainPart(o) + InsnPart(mid, o), RelocOwned(now, p, n));
    if o.insns != NULL {
      assert now[o.insns] == mid[o.insns];
    }
  }

  /** What held before more was allocated still holds. */
  lemma StillHolds(mid: Blocks, now: Blocks, own: set<Ptr>, o: Outputs, s: seq<byte>, v: seq<Instruction>)
    requires Grown(mid, now, own)
    ensures HoldsBytes(mid, o.bytes, o.bytesLen, s) ==> HoldsBytes(now, o.bytes, o.bytesLen, s)
    ensures HoldsInsnsOut(mid, o.insns, o.insnsLen, v) ==> HoldsInsnsOut(now, o.insns, o.insnsLen, v)
  {
  }

  /** The status for what the library did; a value may still be lost to a failed allocation. */
  predicate Fits<T>(r: Result<T>, st: Status, assembling: bool) {
    match r
    case Error(m) => st == if assembling then Classify(m) else ErrDisasm
    case Throws(_) => st == ErrAlloc
    case Value(_) => st == OK || st == ErrAlloc
  }

  /** All or nothing: a rejected call does not touch the outputs, a failed call leaves them empty,
      and a successful one hands over exactly what it allocated. */
  ghost predicate AllOrNothing<T>(nullArg: bool, wantErr: bool, r: Result<T>, st: Status, assembling: bool,
      was: Blocks, now: Blocks, before: Outputs, o: Outputs, err: Ptr) {
    && (st == ErrNullArg <==> nullArg)
    && (nullArg ==> o == before && OnlyError(was, now, wantErr, err))
    && (!nullArg ==> Fits(r, st, assembling))
    && (!nullArg && st != OK ==> o == NOTHING && OnlyError(was, now, wantErr, err))
    && (!nullArg && !r.Value? && wantErr && err != NULL ==> err in now && now[err] == CString(r.msg))
    && (nullArg && wantErr && err != NULL ==> err in now && now[err] == CString(NULL_ARGUMENT))
    && (!nullArg && r.Value? && st != OK && wantErr && err != NULL ==> err in now && now[err] == CString(OUT_OF_MEMORY))
    && (st == OK ==> Handed(was, now, o) && (wantErr ==> err == NULL))
  }

  /** Nothing is lost unless an allocation fails: a value is handed over exactly if none does, and an
      error has its message exactly if none does. */
  ghost predicate OnlyRefusals<T>(nullArg: bool, wantErr: bool, r: Result<T>, st: Status, err: Ptr, refusals: int) {
    && (!nullArg && r.Value? ==> (st == OK <==> refusals == 0))
    && (nullArg || !r.Value? ==> refusals <= 1 && (wantErr ==> (err != NULL <==> refusals == 0)))
  }

  class Caller {
    const heap: Heap
    var outs: Outputs
    var err: Ptr

    constructor (heap: Heap)
      ensures this.heap == heap && outs == NOTHING && err == NULL
    {
      this.heap := heap;
      outs, err := NOTHING, NULL;
    }

    /** `set_err` */
    method SetErr(wantErr: bool, msg: seq<byte>)
      requires heap.Valid()
      modifies heap, this`err
      ensures heap.Valid() && OnlyError(old(heap.blocks), heap.blocks, wantErr, err)
      ensures !wantErr ==> err == old(err)
      ensures wantErr && err != NULL ==> err in heap.blocks && heap.blocks[err] == CString(msg)
      ensures heap.refused == old(heap.refused) + if wantErr && err == NULL then 1 else 0
    {
      if wantErr {
        ghost var was := heap.blocks;
        err := heap.Allocate(CString(msg));
        assert err != NULL ==> heap.blocks - {err} == was;
      }
    }

    /** The argument check: it returns before the outputs are written. */
    method Rejects(nullArg: bool, wantErr: bool) returns (rejected: bool)
      requires heap.Valid()
      modifies heap, this
      ensures heap.Valid() && rejected == nullArg
      ensures rejected ==> outs == old(outs) && OnlyError(old(heap.blocks), heap.blocks, wantErr, err)
      ensures rejected && wantErr && err != NULL ==>
                err in heap.blocks && heap.blocks[err] == CString(NULL_ARGUMENT)
      ensures !rejected ==> outs == NOTHING && heap.blocks == old(heap.blocks) && (wantErr ==> err == NULL)
      ensures heap.refused == old(heap.refused) + if rejected && wantErr && err == NULL then 1 else 0
      ensures !wantErr ==> err == old(err)
    {
      if wantErr {
        err := NULL;
      }
      if nullArg {
        SetErr(wantErr, NULL_ARGUMENT);
        return true;
      }
      outs := NOTHING;
      return false;
    }

    /** An error or an exception of the library. */
    method Report<T>(wantErr: bool, r: Result<T>, assembling: bool) returns (st: Status)
      requires heap.Valid() && !r.Value?
      modifies heap, this`err
      ensures heap.Valid() && OnlyError(old(heap.blocks), heap.blocks, wantErr, err)
      ensures Fits(r, st, assembling) && st != OK && st != ErrNullArg
      ensures heap.refused == old(heap.refused) + if wantErr && err == NULL then 1 else 0
      ensures wantErr && err != NULL ==> err in heap.blocks && heap.blocks[err] == CString(r.msg)
    {
      SetErr(wantErr, r.msg);
      match r {
        case Error(m) => return if assembling then Classify(m) else ErrDisasm;
        case Throws(_) => return ErrAlloc;
      }
    }

    /** A byte buffer for a vector, and whether the allocation went well. */
    method CopyBytes(s: seq<byte>) returns (p: Ptr, ok: bool)
      requires heap.Valid()
      modifies heap
      ensures heap.Valid()
      ensures !ok ==> heap.blocks == old(heap.blocks)
      ensures heap.refused == old(heap.refused) + if ok then 0 else 1
      ensures ok ==> HoldsBytes(heap.blocks, p, |s|, s)
      ensures ok ==> Handed(old(heap.blocks), heap.blocks, NOTHING.(bytes := p, bytesLen := |s|))
      ensures ok ==> p == NULL || p in heap.blocks
    {
      ghost var was := heap.blocks;
      NothingGrown(was);
      if s == [] {
        return NULL, true;
      }
      p := heap.Allocate(Raw(s));
      ok := p != NULL;
      if ok {
        PlainHanded(was, p, Raw(s), NOTHING.(bytes := p, bytesLen := |s|));
      }
    }

    // ----- the entry points ---------------------------------------------------------------------

    /** `nyxstone_assemble` */
    method Assemble(nullArg: bool, wantErr: bool, r: Result<seq<byte>>) returns (st: Status)
      requires heap.Valid()
      modifies heap, this
      ensures heap.Valid() && AllOrNothing(nullArg, wantErr, r, st, true, old(heap.blocks), heap.blocks, old(outs),
        outs, err)
      ensures OnlyRefusals(nullArg, wantErr, r, st, err, heap.refused - old(heap.refused))
      ensures st == OK ==> r.Value? && HoldsBytes(heap.blocks, outs.bytes, outs.bytesLen, r.value)
    {
      hide Handed, Classify;
      var rejected := Rejects(nullArg, wantErr);
      if rejected {
        return ErrNullArg;
      }
      ghost var was := heap.blocks;
      if !r.Value? {
        st := Report(wantErr, r, true);
        return;
      }
      var p, ok := CopyBytes(r.value);
      if !ok {
        SetErr(wantErr, OUT_OF_MEMORY);
        return ErrAlloc;
      }
      outs := NOTHING.(bytes := p, bytesLen := |r.value|);
      return OK;
    }

    /** `nyxstone_assemble_to_instructions` */
    method AssembleToInstructions(nullArg: bool, wantErr: bool, r: Result<seq<Instruction>>) returns (st: Status)
      requires heap.Valid()
      modifies heap, this
      ensures heap.Valid() && AllOrNothing(nullArg, wantErr, r, st, true, old(heap.blocks), heap.blocks, old(outs),
        outs, err)
      ensures OnlyRefusals(nullArg, wantErr, r, st, err, heap.refused - old(heap.refused))
      ensures st == OK ==> r.Value? && HoldsInsnsOut(heap.blocks, outs.insns, outs.insnsLen, r.value)
    {
      hide Handed, Classify;
      var rejected := Rejects(nullArg, wantErr);
      if rejected {
        return ErrNullArg;
      }
      ghost var was := heap.blocks;
      if !r.Value? {
        st := Report(wantErr, r, true);
        return;
      }
      var arr := heap.ConvertInstructions(r.value);
      if arr == NULL {
        SetErr(wantErr, OUT_OF_MEMORY);
        return ErrAlloc;
      }
      InsnsHanded(was, heap.blocks, arr, |r.value|);
      outs := NOTHING.(insns := arr, insnsLen := |r.value|);
      return OK;
    }

    /** `nyxstone_assemble_with_relocs` */
    method AssembleWithRelocs(nullArg: bool, wantErr: bool,
      r: Result<(seq<byte>, seq<Relocation>)>) returns (st: Status)
      requires heap.Valid()
      modifies heap, this
      ensures heap.Valid() && AllOrNothing(nullArg, wantErr, r, st, true, old(heap.blocks), heap.blocks, old(outs),
        outs, err)
      ensures OnlyRefusals(nullArg, wantErr, r, st, err, heap.refused - old(heap.refused))
      ensures st == OK ==> r.Value? && HoldsBytes(heap.blocks, outs.bytes, outs.bytesLen, r.value.0)
      ensures st == OK ==> r.Value? && HoldsRelocsOut(heap.blocks, outs.relocs, outs.relocsLen, r.value.1)
    {
      hide Handed, Classify;
      var rejected := Rejects(nullArg, wantErr);
      if rejected {
        return ErrNullArg;
      }
      ghost var was := heap.blocks;
      if !r.Value? {
        st := Report(wantErr, r, true);
        return;
      }
      var (code, relocations) := r.value;
      var p, ok := CopyBytes(code);
      if !ok {
        SetErr(wantErr, OUT_OF_MEMORY);
        return ErrAlloc;
      }
      var o := NOTHING.(bytes := p, bytesLen := |code|);
      ghost var mid := heap.blocks;
      if relocations != [] {
        var relocs := heap.ConvertRelocations(relocations);
        if relocs == NULL {
          UndoBytes(was, mid, o);
          heap.Free(p);
          SetErr(wantErr, OUT_OF_MEMORY);
          return ErrAlloc;
        }
        RelocsHandedToo(was, mid, heap.blocks, o, relocs, |relocations|);
        KeepsHolding(mid, heap.blocks, relocs, |relocations|, o, code, []);
        o := o.(relocs := relocs, relocsLen := |relocations|);
      }
      outs := o;
      return OK;
    }

    /** `nyxstone_assemble_to_instructions_with_relocs` */
    method AssembleToInstructionsWithRelocs(nullArg: bool, wantErr: bool,
      r: Result<(seq<Instruction>, seq<Relocation>)>)
        returns (st: Status)
      requires heap.Valid()
      modifies heap, this
      ensures heap.Valid() && AllOrNothing(nullArg, wantErr, r, st, true, old(heap.blocks), heap.blocks, old(outs),
        outs, err)
      ensures OnlyRefusals(nullArg, wantErr, r, st, err, heap.refused - old(heap.refused))
      ensures st == OK ==> r.Value? && HoldsInsnsOut(heap.blocks, outs.insns, outs.insnsLen, r.value.0)
      ensures st == OK ==> r.Value? && HoldsRelocsOut(heap.blocks, outs.relocs, outs.relocsLen, r.value.1)
    {
      hide Handed, Classify;
      var rejected := Rejects(nullArg, wantErr);
      if rejected {
        return ErrNullArg;
      }
      ghost var was := heap.blocks;
      if !r.Value? {
        st := Report(wantErr, r, true);
        return;
      }
      var (instructions, relocations) := r.value;
      var arr := heap.ConvertInstructions(instructions);
      if arr == NULL {
        SetErr(wantErr, OUT_OF_MEMORY);
        return ErrAlloc;
      }
      var o := NOTHING.(insns := arr, insnsLen := |instructions|);
      ghost var mid := heap.blocks;
      InsnsHanded(was, mid, arr, |instructions|);
      if relocations != [] {
        var relocs := heap.ConvertRelocations(relocations);
        if relocs == NULL {
          heap.Abandon(arr, |instructions|, was);
          SetErr(wantErr, OUT_OF_MEMORY);
          return ErrAlloc;
        }
        RelocsHandedToo(was, mid, heap.blocks, o, relocs, |relocations|);
        KeepsHolding(mid, heap.blocks, relocs, |relocations|, o, [], instructions);
        o := o.(relocs := relocs, relocsLen := |relocations|);
      }
      outs := o;
      return OK;
    }

    /** `nyxstone_disassemble` */
    method Disassemble(nullArg: bool, wantErr: bool, r: Result<seq<byte>>) returns (st: Status)
      requires heap.Valid()
      modifies heap, this
      ensures heap.Valid() && AllOrNothing(nullArg, wantErr, r, st, false, old(heap.blocks), heap.blocks, old(outs),
        outs, err)
      ensures OnlyRefusals(nullArg, wantErr, r, st, err, heap.refused - old(heap.refused))
      ensures st == OK ==>
                r.Value? && outs.text != NULL && outs.text in heap.blocks && heap.blocks[outs.text] == CString(r.value)
    {
      hide Handed, Classify;
      var rejected := Rejects(nullArg, wantErr);
      if rejected {
        return ErrNullArg;
      }
      ghost var was := heap.blocks;
      if !r.Value? {
        st := Report(wantErr, r, false);
        return;
      }
      var p := heap.Allocate(CString(r.value));
      if p == NULL {
        SetErr(wantErr, OUT_OF_MEMORY);
        return ErrAlloc;
      }
      PlainHanded(was, p, CString(r.value), NOTHING.(text := p));
      outs := NOTHING.(text := p);
      return OK;
    }

    /** `nyxstone_disassemble_to_instructions` */
    method DisassembleToInstructions(nullArg: bool, wantErr: bool, r: Result<seq<Instruction>>) returns (st: Status)
      requires heap.Valid()
      modifies heap, this
      ensures heap.Valid() && AllOrNothing(nullArg, wantErr, r, st, false, old(heap.blocks), heap.blocks, old(outs),
        outs, err)
      ensures OnlyRefusals(nullArg, wantErr, r, st, err, heap.refused - old(heap.refused))
      ensures st == OK ==> r.Value? && HoldsInsnsOut(heap.blocks, outs.insns, outs.insnsLen, r.value)
    {
      hide Handed, Classify;
      var rejected := Rejects(nullArg, wantErr);
      if rejected {
        return ErrNullArg;
      }
      ghost var was := heap.blocks;
      if !r.Value? {
        st := Report(wantErr, r, false);
        return;
      }
      var arr := heap.ConvertInstructions(r.value);
      if arr == NULL {
        SetErr(wantErr, OUT_OF_MEMORY);
        return ErrAlloc;
      }
      InsnsHanded(was, heap.blocks, arr, |r.value|);
      outs := NOTHING.(insns := arr, insnsLen := |r.value|);
      return OK;
    }

    // ----- giving everything back ----------------------------------------------------------------

    /** The matching free helpers, after any successful call, restore the heap to what it was before
        the call: nothing leaks and nothing is freed twice. */
    method Release(ghost was: Blocks)
      requires heap.Valid() && Handed(was, heap.blocks, outs)
      modifies heap, this`outs
      ensures heap.Valid() && heap.blocks == was && outs == NOTHING
    {
      hide InsnPtrs, InsnsApart, RelocPtrs, RelocsApart;
      ghost var now := heap.blocks;
      ghost var a, b, c := PlainPart(outs), InsnPart(now, outs), RelocPart(now, outs);
      GrownThenFreed(was, now, a + b + c);
      heap.Free(outs.bytes);
      heap.Free(outs.text);
      WithoutTwo(now, {}, outs.bytes, outs.text);
      assert heap.blocks == now - a;
      heap.FreeInstructions(outs.insns, outs.insnsLen);
      assert heap.blocks == now - a - b;
      heap.FreeRelocations(outs.relocs, outs.relocsLen);
      assert heap.blocks == now - a - b - c;
      WithoutAll(now, a, b, c);
      outs := NOTHING;
    }
  }

  lemma WithoutAll(m: Blocks, a: set<Ptr>, b: set<Ptr>, c: set<Ptr>)
    ensures m - a - b - c == m - (a + b + c)
  {
    assert (m - a - b - c).Keys == (m - (a + b + c)).Keys;
  }

  lemma UndoBytes(was: Blocks, mid: Blocks, o: Outputs)
    requires Handed(was, mid, o) && o == NOTHING.(bytes := o.bytes, bytesLen := o.bytesLen) && NULL !in was
    ensures mid - {o.bytes} == was
  {
    GrownThenFreed(was, mid, PlainPart(o) + InsnPart(mid, o) + RelocPart(mid, o));
    assert (mid - {o.bytes}).Keys == was.Keys;
  }

  lemma KeepsHolding(mid: Blocks, now: Blocks, p: Ptr, n: nat, o: Outputs, s: seq<byte>, v: seq<Instruction>)
    requires PartialRelocs(mid, now, p, n)
    ensures HoldsBytes(mid, o.bytes, o.bytesLen, s) ==> HoldsBytes(now, o.bytes, o.bytesLen, s)
    ensures HoldsInsnsOut(mid, o.insns, o.insnsLen, v) ==> HoldsInsnsOut(now, o.insns, o.insnsLen, v)
  {
    StillHolds(mid, now, RelocOwned(now, p, n), o, s, v);
  }
}
