/** The C ABI (src/nyxstone_c.cpp): who owns which allocation.  malloc and calloc may fail at any
    call and the library may throw; whatever happens, an entry point either hands over complete
    results or leaves the heap as it was, apart from the error string.
 */
module CAbi {
  import opened Options
  import opened Utf8
  import opened Wire

  /** Addresses; 0 is NULL. */
  type Ptr = nat

  const NULL: Ptr := 0

  datatype InsnCell = InsnCell(address: U64, assembly: Ptr, bytes: Ptr, len: nat)

  datatype RelocCell = RelocCell(offset: U64, addend: I64, hasAddend: bool, name: Ptr, symbol: U64, elfType: U32)

  /** What an allocation holds. */
  datatype Block =
    | Raw(bytes: seq<byte>)
    | CString(text: seq<byte>)
    | Insns(cells: seq<InsnCell>)
    | Relocs(rels: seq<RelocCell>)

  /** The results of the C++ library. */
  datatype Instruction = Instruction(address: U64, assembly: seq<byte>, bytes: seq<byte>)

  datatype Relocation = Relocation(offset: U64, addend: Option<I64>, elfType: U32, name: seq<byte>, symbol: U64)

  const NO_CELL := InsnCell(0, NULL, NULL, 0)

  const NO_RELOC := RelocCell(0, 0, false, NULL, 0, 0)

  type Blocks = map<Ptr, Block>

  /** The heap has grown by exactly the allocations in `own`. */
  ghost predicate Grown(was: Blocks, now: Blocks, own: set<Ptr>) {
    && NULL !in own
    && own !! was.Keys
    && now.Keys == was.Keys + own
    && forall p :: p in was ==> now[p] == was[p]
  }

  lemma WithoutTwo(m: Blocks, own: set<Ptr>, x: Ptr, y: Ptr)
    requires NULL !in m
    ensures m - own - {x} - {y} == m - (own + ({x, y} - {NULL}))
    ensures m - own - {x} == m - own - {x} - {NULL}
  {
    var a, b := m - own - {x} - {y}, m - (own + ({x, y} - {NULL}));
    assert a.Keys == b.Keys;
  }

  lemma GrownThenFreed(was: Blocks, now: Blocks, own: set<Ptr>)
    requires Grown(was, now, own)
    ensures now - own == was
  {
    assert (now - own).Keys == was.Keys;
  }

  // ----- what the results own ------------------------------------------------------------------------

  function CellPtrs(c: InsnCell): set<Ptr> {
    {c.assembly, c.bytes} - {NULL}
  }

  /** The strings and byte buffers of an instruction array. */
  function InsnPtrs(cells: seq<InsnCell>): set<Ptr>
    decreases |cells|
  {
    if cells == [] then {} else InsnPtrs(cells[..|cells| - 1]) + CellPtrs(cells[|cells| - 1])
  }

  /** No allocation is referred to twice. */
  predicate InsnsApart(cells: seq<InsnCell>)
    decreases |cells|
  {
    cells == [] ||
    var last := cells[|cells| - 1];
    && InsnsApart(cells[..|cells| - 1])
    && InsnPtrs(cells[..|cells| - 1]) !! CellPtrs(last)
    && (last.assembly == last.bytes ==> last.assembly == NULL)
  }

  function RelocPtrs(cells: seq<RelocCell>): set<Ptr>
    decreases |cells|
  {
    if cells == [] then {} else RelocPtrs(cells[..|cells| - 1]) + ({cells[|cells| - 1].name} - {NULL})
  }

  predicate RelocsApart(cells: seq<RelocCell>)
    decreases |cells|
  {
    cells == [] ||
    (RelocsApart(cells[..|cells| - 1]) && cells[|cells| - 1].name !in RelocPtrs(cells[..|cells| - 1]))
  }

  /** The record for an instruction: a string that is there, and a byte buffer unless there are no
      bytes. */
  predicate CellHolds(b: Blocks, c: InsnCell, x: Instruction) {
    && c.address == x.address && c.len == |x.bytes|
    && c.assembly != NULL && c.assembly in b && b[c.assembly] == CString(x.assembly)
    && (if x.bytes == [] then c.bytes == NULL else c.bytes != NULL && c.bytes in b && b[c.bytes] == Raw(x.bytes))
  }

  predicate RelocHolds(b: Blocks, c: RelocCell, x: Relocation) {
    && c.offset == x.offset && c.elfType == x.elfType && c.symbol == x.symbol
    && c.hasAddend == x.addend.Some? && c.addend == (if x.addend.Some? then x.addend.value else 0)
    && c.name != NULL && c.name in b && b[c.name] == CString(x.name)
  }

  /** `p` is an array that holds the instructions. */
  predicate HoldsInsns(b: Blocks, p: Ptr, v: seq<Instruction>) {
    && p != NULL && p in b && b[p].Insns? && |b[p].cells| >= |v|
    && forall k :: 0 <= k < |v| ==> CellHolds(b, b[p].cells[k], v[k])
  }

  predicate HoldsRelocs(b: Blocks, p: Ptr, v: seq<Relocation>) {
    && p != NULL && p in b && b[p].Relocs? && |b[p].rels| >= |v|
    && forall k :: 0 <= k < |v| ==> RelocHolds(b, b[p].rels[k], v[k])
  }

  /** Everything the instruction array `p` with `n` records owns. */
  function InsnOwned(b: Blocks, p: Ptr, n: nat): set<Ptr> {
    if p in b && b[p].Insns? && n <= |b[p].cells| then {p} + InsnPtrs(b[p].cells[..n]) else {}
  }

  function RelocOwned(b: Blocks, p: Ptr, n: nat): set<Ptr> {
    if p in b && b[p].Relocs? && n <= |b[p].rels| then {p} + RelocPtrs(b[p].rels[..n]) else {}
  }

  /** `p` can be given to nyxstone_free_instructions. */
  predicate FreeableInsns(b: Blocks, p: Ptr, n: nat) {
    p == NULL ||
    (p in b && b[p].Insns? && n <= |b[p].cells|
     && InsnsApart(b[p].cells[..n]) && p !in InsnPtrs(b[p].cells[..n]) && InsnPtrs(b[p].cells[..n]) <= b.Keys)
  }

  predicate FreeableRelocs(b: Blocks, p: Ptr, n: nat) {
    p == NULL ||
    (p in b && b[p].Relocs? && n <= |b[p].rels|
     && RelocsApart(b[p].rels[..n]) && p !in RelocPtrs(b[p].rels[..n]) && RelocPtrs(b[p].rels[..n]) <= b.Keys)
  }

  lemma {:induction false} InsnsApartPrefix(cells: seq<InsnCell>, i: nat)
    requires InsnsApart(cells) && i < |cells|
    ensures InsnsApart(cells[..i]) && InsnsApart(cells[..i + 1])
    ensures InsnPtrs(cells[..i + 1]) == InsnPtrs(cells[..i]) + CellPtrs(cells[i])
    ensures InsnPtrs(cells[..i]) !! CellPtrs(cells[i])
    ensures cells[i].assembly == cells[i].bytes ==> cells[i].assembly == NULL
    ensures InsnPtrs(cells[..i + 1]) <= InsnPtrs(cells)
    decreases |cells|
  {
    var n := |cells| - 1;
    if i == n {
      assert cells[..i + 1] == cells;
    } else {
      assert cells[..n][..i] == cells[..i] && cells[..n][..i + 1] == cells[..i + 1];
      InsnsApartPrefix(cells[..n], i);
    }
  }

  lemma {:induction false} RelocsApartPrefix(cells: seq<RelocCell>, i: nat)
    requires RelocsApart(cells) && i < |cells|
    ensures RelocsApart(cells[..i]) && RelocsApart(cells[..i + 1])
    ensures RelocPtrs(cells[..i + 1]) == RelocPtrs(cells[..i]) + ({cells[i].name} - {NULL})
    ensures cells[i].name !in RelocPtrs(cells[..i])
    ensures RelocPtrs(cells[..i + 1]) <= RelocPtrs(cells)
    decreases |cells|
  {
    var n := |cells| - 1;
    if i == n {
      assert cells[..i + 1] == cells;
    } else {
      assert cells[..n][..i] == cells[..i] && cells[..n][..i + 1] == cells[..i + 1];
      RelocsApartPrefix(cells[..n], i);
    }
  }

  /** Since `was`, exactly the array `p` with its first `n` records filled has been allocated. */
  ghost predicate PartialInsns(was: Blocks, b: Blocks, p: Ptr, n: nat) {
    p != NULL && p in b && FreeableInsns(b, p, n) && Grown(was, b, InsnOwned(b, p, n))
  }

  ghost predicate PartialRelocs(was: Blocks, b: Blocks, p: Ptr, n: nat) {
    p != NULL && p in b && FreeableRelocs(b, p, n) && Grown(was, b, RelocOwned(b, p, n))
  }

  lemma NoInsnsYet(was: Blocks, p: Ptr, cells: seq<InsnCell>)
    requires NULL !in was && p != NULL && p !in was
    ensures PartialInsns(was, was[p := Insns(cells)], p, 0)
  {
    assert cells[..0] == [];
  }

  lemma NoRelocsYet(was: Blocks, p: Ptr, cells: seq<RelocCell>)
    requires NULL !in was && p != NULL && p !in was
    ensures PartialRelocs(was, was[p := Relocs(cells)], p, 0)
  {
    assert cells[..0] == [];
  }

  /** One more record, with allocations of its own. */
  lemma OneMoreInsn(was: Blocks, b: Blocks, p: Ptr, n: nat, c: InsnCell, d: Blocks)
    requires NULL !in b && PartialInsns(was, b, p, n) && n < |b[p].cells|
    requires CellPtrs(c) !! b.Keys && (c.assembly == c.bytes ==> c.assembly == NULL)
    requires d.Keys == b.Keys + CellPtrs(c) && d[p] == Insns(b[p].cells[n := c])
    requires forall q :: q in b && q != p ==> d[q] == b[q]
    ensures PartialInsns(was, d, p, n + 1)
  {
    var cells := d[p].cells;
    assert cells[..n + 1][..n] == b[p].cells[..n] == cells[..n];
    assert cells[..n + 1][n] == c;
  }

  lemma OneMoreReloc(was: Blocks, b: Blocks, p: Ptr, n: nat, c: RelocCell, d: Blocks)
    requires NULL !in b && PartialRelocs(was, b, p, n) && n < |b[p].rels|
    requires c.name !in b
    requires d.Keys == b.Keys + ({c.name} - {NULL}) && d[p] == Relocs(b[p].rels[n := c])
    requires forall q :: q in b && q != p ==> d[q] == b[q]
    ensures PartialRelocs(was, d, p, n + 1)
  {
    var cells := d[p].rels;
    assert cells[..n + 1][..n] == b[p].rels[..n] == cells[..n];
    assert cells[..n + 1][n] == c;
  }

  /** The records below `n` hold their values. */
  predicate InsnsFilled(b: Blocks, p: Ptr, v: seq<Instruction>, n: nat) {
    && n <= |v| && p in b && b[p].Insns? && |b[p].cells| >= |v|
    && forall k :: 0 <= k < n ==> CellHolds(b, b[p].cells[k], v[k])
  }

  predicate RelocsFilled(b: Blocks, p: Ptr, v: seq<Relocation>, n: nat) {
    && n <= |v| && p in b && b[p].Relocs? && |b[p].rels| >= |v|
    && forall k :: 0 <= k < n ==> RelocHolds(b, b[p].rels[k], v[k])
  }

  lemma FillOneInsn(b: Blocks, p: Ptr, v: seq<Instruction>, n: nat, c: InsnCell, d: Blocks)
    requires InsnsFilled(b, p, v, n) && n < |v| && p in d && d[p] == Insns(b[p].cells[n := c]) && CellHolds(d, c, v[n])
    requires forall q :: q in b && q != p ==> q in d && d[q] == b[q]
    ensures InsnsFilled(d, p, v, n + 1)
  {
  }

  lemma FillOneReloc(b: Blocks, p: Ptr, v: seq<Relocation>, n: nat, c: RelocCell, d: Blocks)
    requires RelocsFilled(b, p, v, n) && n < |v| && p in d && d[p] == Relocs(b[p].rels[n := c])
      && RelocHolds(d, c, v[n])
    requires forall q :: q in b && q != p ==> q in d && d[q] == b[q]
    ensures RelocsFilled(d, p, v, n + 1)
  {
  }

  // ----- the heap ----------------------------------------------------------------------------------------

  class Heap {
    /** The live allocations. */
    var blocks: Blocks
    /** How many allocations have failed. */
    ghost var refused: nat

    var next: Ptr

    predicate Valid()
      reads this
    {
      next > 0 && NULL !in blocks && forall p :: p in blocks ==> p < next
    }

    constructor ()
      ensures Valid() && blocks == map[] && refused == 0
    {
      blocks := map[];
      next := 1;
      refused := 0;
    }

    /** malloc or calloc, with the contents the caller stores right away; it may always fail. */
    method Allocate(b: Block) returns (p: Ptr)
      requires Valid()
      modifies this
      ensures Valid()
      ensures p == NULL ==> blocks == old(blocks) && refused == old(refused) + 1
      ensures p != NULL ==> p !in old(blocks) && blocks == old(blocks)[p := b] && refused == old(refused)
    {
      if * {
        refused := refused + 1;
        return NULL;
      }
      p := next;
      next := next + 1;
      blocks := blocks[p := b];
    }

    /** free: NULL is ignored, and nothing is freed twice. */
    method Free(p: Ptr)
      requires Valid() && (p == NULL || p in blocks)
      modifies this
      ensures Valid() && blocks == old(blocks) - {p} && refused == old(refused)
    {
      blocks := blocks - {p};
    }

    /** A store into a field of a record of an array. */
    method SetCell(p: Ptr, i: nat, c: InsnCell)
      requires Valid() && p in blocks && blocks[p].Insns? && i < |blocks[p].cells|
      modifies this
      ensures Valid() && blocks == old(blocks)[p := Insns(old(blocks[p].cells)[i := c])] && refused == old(refused)
    {
      blocks := blocks[p := Insns(blocks[p].cells[i := c])];
    }

    method SetReloc(p: Ptr, i: nat, c: RelocCell)
      requires Valid() && p in blocks && blocks[p].Relocs? && i < |blocks[p].rels|
      modifies this
      ensures Valid() && blocks == old(blocks)[p := Relocs(old(blocks[p].rels)[i := c])] && refused == old(refused)
    {
      blocks := blocks[p := Relocs(blocks[p].rels[i := c])];
    }

    /** `nyxstone_free_instructions` */
    method FreeInstructions(p: Ptr, n: nat)
      requires Valid() && FreeableInsns(blocks, p, n)
      modifies this
      ensures Valid() && blocks == old(blocks) - if p == NULL then {} else InsnOwned(old(blocks), p, n)
      ensures refused == old(refused)
    {
      if p == NULL {
        return;
      }
      ghost var was := blocks;
      hide InsnPtrs, InsnsApart;
      var cells := blocks[p].cells[..n];
      NoInsnPtrs();
      assert cells[..0] == [];
      var i := 0;
      while i < n
        invariant i <= n && Valid() && blocks == was - InsnPtrs(cells[..i]) && refused == old(refused)
      {
        InsnsApartPrefix(cells, i);
        WithoutTwo(was, InsnPtrs(cells[..i]), cells[i].assembly, cells[i].bytes);
        Free(cells[i].assembly);
        Free(cells[i].bytes);
        i := i + 1;
      }
      assert cells[..n] == cells;
      Free(p);
    }

    /** `nyxstone_free_relocations` */
    method FreeRelocations(p: Ptr, n: nat)
      requires Valid() && FreeableRelocs(blocks, p, n)
      modifies this
      ensures Valid() && blocks == old(blocks) - if p == NULL then {} else RelocOwned(old(blocks), p, n)
      ensures refused == old(refused)
    {
      if p == NULL {
        return;
      }
      ghost var was := blocks;
      hide RelocPtrs, RelocsApart;
      var cells := blocks[p].rels[..n];
      NoRelocPtrs();
      assert cells[..0] == [];
      var i := 0;
      while i < n
        invariant i <= n && Valid() && blocks == was - RelocPtrs(cells[..i]) && refused == old(refused)
      {
        RelocsApartPrefix(cells, i);
        WithoutTwo(was, RelocPtrs(cells[..i]), cells[i].name, NULL);
        Free(cells[i].name);
        i := i + 1;
      }
      assert cells[..n] == cells;
      Free(p);
    }

    // ----- conversions: everything or nothing ------------------------------------------------

    /** `convert_instructions` */
    method ConvertInstructions(v: seq<Instruction>) returns (arr: Ptr)
      requires Valid()
      modifies this
      ensures Valid()
      ensures arr == NULL ==> blocks == old(blocks)
      ensures refused == old(refused) + if arr == NULL then 1 else 0
      ensures arr != NULL ==> PartialInsns(old(blocks), blocks, arr, |v|) && HoldsInsns(blocks, arr, v)
    {
      hide PartialInsns, InsnsFilled, FreeableInsns, InsnOwned, Grown, CellHolds;
      ghost var was := blocks;
      var size := if |v| > 0 then |v| else 1;
      arr := Allocate(Insns(seq(size, _ => NO_CELL)));
      if arr == NULL {
        return;
      }
      NoInsnsYet(was, arr, seq(size, _ => NO_CELL));
      StartFilled(blocks, arr, v);
      var i := 0;
      while i < |v|
        invariant i <= |v| && Valid() && arr != NULL && arr in blocks && blocks[arr].Insns?
        invariant |blocks[arr].cells| == size && refused == old(refused)
        invariant PartialInsns(was, blocks, arr, i) && InsnsFilled(blocks, arr, v, i)
      {
        var ok := ConvertInstruction(v, arr, i, was);
        if !ok {
          return NULL;
        }
        PartialIsThere(was, blocks, arr, i + 1);
        i := i + 1;
      }
      FilledHolds(blocks, arr, v);
    }

    /** The loop body: one record, or everything is undone. */
    method ConvertInstruction(v: seq<Instruction>, arr: Ptr, i: nat, ghost was: Blocks) returns (ok: bool)
      requires Valid() && i < |v| && PartialInsns(was, blocks, arr, i) && InsnsFilled(blocks, arr, v, i)
      modifies this
      ensures Valid() && refused == old(refused) + if ok then 0 else 1
      ensures !ok ==> blocks == was
      ensures ok ==> PartialInsns(was, blocks, arr, i + 1) && InsnsFilled(blocks, arr, v, i + 1)
      ensures ok ==> |blocks[arr].cells| == |old(blocks[arr].cells)|
    {
      hide PartialInsns, FreeableInsns, InsnOwned, Grown, CellHolds;
      PartialIsThere(was, blocks, arr, i);
      ghost var b := blocks;
      var assembly := Allocate(CString(v[i].assembly));
      if assembly == NULL {
        Abandon(arr, i, was);
        return false;
      }
      var c := InsnCell(v[i].address, assembly, NULL, 0);
      SetCell(arr, i, c);
      OneMoreInsn(was, b, arr, i, c, blocks);
      if v[i].bytes != [] {
        var bytes := Allocate(Raw(v[i].bytes));
        if bytes == NULL {
          Abandon(arr, i + 1, was);
          return false;
        }
        c := c.(bytes := bytes, len := |v[i].bytes|);
        SetCell(arr, i, c);
        OneMoreInsn(was, b, arr, i, c, blocks);
      }
      CellIsFilled(blocks, c, v[i]);
      FillOneInsn(b, arr, v, i, c, blocks);
      return true;
    }

    /** Free what has been built so far. */
    method Abandon(arr: Ptr, n: nat, ghost was: Blocks)
      requires Valid() && PartialInsns(was, blocks, arr, n)
      modifies this
      ensures Valid() && blocks == was && refused == old(refused)
    {
      hide InsnPtrs, InsnsApart;
      GrownThenFreed(was, blocks, InsnOwned(blocks, arr, n));
      FreeInstructions(arr, n);
    }

    /** `convert_relocations` */
    method ConvertRelocations(v: seq<Relocation>) returns (arr: Ptr)
      requires Valid()
      modifies this
      ensures Valid()
      ensures arr == NULL ==> blocks == old(blocks)
      ensures refused == old(refused) + if arr == NULL then 1 else 0
      ensures arr != NULL ==> PartialRelocs(old(blocks), blocks, arr, |v|) && HoldsRelocs(blocks, arr, v)
    {
      hide PartialRelocs, RelocsFilled, FreeableRelocs, RelocOwned, Grown;
      ghost var was := blocks;
      var size := if |v| > 0 then |v| else 1;
      arr := Allocate(Relocs(seq(size, _ => NO_RELOC)));
      if arr == NULL {
        return;
      }
      NoRelocsYet(was, arr, seq(size, _ => NO_RELOC));
      StartFilledRelocs(blocks, arr, v);
      var i := 0;
      while i < |v|
        invariant i <= |v| && Valid() && arr != NULL && arr in blocks && blocks[arr].Relocs?
        invariant |blocks[arr].rels| == size && refused == old(refused)
        invariant PartialRelocs(was, blocks, arr, i) && RelocsFilled(blocks, arr, v, i)
      {
        ghost var b := blocks;
        var name := Allocate(CString(v[i].name));
        if name == NULL {
          AbandonRelocs(arr, i, was);
          return NULL;
        }
        var c := RelocCell(v[i].offset, if v[i].addend.Some? then v[i].addend.value else 0, v[i].addend.Some?,
          name, v[i].symbol, v[i].elfType);
        SetReloc(arr, i, c);
        OneMoreReloc(was, b, arr, i, c, blocks);
        FillOneReloc(b, arr, v, i, c, blocks);
        i := i + 1;
      }
      FilledHoldsRelocs(blocks, arr, v);
    }

    method AbandonRelocs(arr: Ptr, n: nat, ghost was: Blocks)
      requires Valid() && PartialRelocs(was, blocks, arr, n)
      modifies this
      ensures Valid() && blocks == was && refused == old(refused)
    {
      hide RelocPtrs, RelocsApart;
      GrownThenFreed(was, blocks, RelocOwned(blocks, arr, n));
      FreeRelocations(arr, n);
    }
  }

  lemma PartialIsThere(was: Blocks, b: Blocks, p: Ptr, n: nat)
    requires PartialInsns(was, b, p, n)
    ensures p != NULL && p in b && b[p].Insns?
  {
  }

  lemma NoInsnPtrs()
    ensures InsnPtrs([]) == {}
  {
  }

  lemma NoRelocPtrs()
    ensures RelocPtrs([]) == {}
  {
  }

  lemma StartFilled(b: Blocks, p: Ptr, v: seq<Instruction>)
    requires p in b && b[p].Insns? && |b[p].cells| >= |v|
    ensures InsnsFilled(b, p, v, 0)
  {
  }

  lemma StartFilledRelocs(b: Blocks, p: Ptr, v: seq<Relocation>)
    requires p in b && b[p].Relocs? && |b[p].rels| >= |v|
    ensures RelocsFilled(b, p, v, 0)
  {
  }

  lemma CellIsFilled(b: Blocks, c: InsnCell, x: Instruction)
    requires c.address == x.address && c.len == |x.bytes|
    requires c.assembly != NULL && c.assembly in b && b[c.assembly] == CString(x.assembly)
    requires if x.bytes == [] then c.bytes == NULL else c.bytes != NULL && c.bytes in b && b[c.bytes] == Raw(x.bytes)
    ensures CellHolds(b, c, x)
  {
  }

  lemma FilledHolds(b: Blocks, p: Ptr, v: seq<Instruction>)
    requires p != NULL && InsnsFilled(b, p, v, |v|)
    ensures HoldsInsns(b, p, v)
  {
  }

  lemma FilledHoldsRelocs(b: Blocks, p: Ptr, v: seq<Relocation>)
    requires p != NULL && RelocsFilled(b, p, v, |v|)
    ensures HoldsRelocs(b, p, v)
  {
  }
}
