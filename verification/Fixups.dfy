/** Fixups and symbols, and the pass that resolves them (`apply_text_fixups` and
    `nyxstone_glue_collect_relocs` in src/nyxstone_glue.c), as functions on the state of the
    text section.  Addresses are `uint64_t`, values `long`: both are 64-bit words that wrap.
 */
module Fixups {
  import opened Fields
  import opened Options
  import opened Encode
  import opened Frags

  /** Where a symbol is defined: `off` bytes into a frag of the section, at an absolute address,
      or nowhere. */
  datatype Location = InText(frag: nat, off: nat) | Absolute(value: bv64) | Undefined

  datatype Symbol = Symbol(name: string, place: Location)

  /** gas's `fixS`.  `sym` is an index into the symbol table, -1 for none; `howto` is what bfd
      knows about the relocation type. */
  datatype Fixup = Fixup(
    frag: nat,
    at: nat,
    offset: bv64,
    sym: int,
    pcrel: bool,
    done: bool,
    addNumber: bv64,
    howto: Option<Howto>)

  /** What `md_apply_fix` makes of a fixup whose symbol is still attached. */
  datatype Recording = Recording(addNumber: bv64, done: bool)

  /** The functions of gas that the pass calls: `md_pcrel_from_section` and `md_apply_fix`. */
  datatype Gas = Gas(pcrelFrom: (Chain, Fixup) -> bv64, applyFix: (Fixup, bv64) -> Recording)

  datatype State = State(
    chain: Chain,
    fixes: seq<Fixup>,
    symbols: seq<Symbol>,
    errors: nat,
    unsupported: Option<string>)

  function U64(n: nat): bv64 {
    (n % 0x1_0000_0000_0000_0000) as bv64
  }

  /** `uint64_t` addition and subtraction. */
  function Plus(a: bv64, b: bv64): bv64 {
    a + b
  }

  function Minus(a: bv64, b: bv64): bv64 {
    a - b
  }

  /** The first symbol called `name` from index `i` on, -1 if there is none. */
  function SymbolIndex(symbols: seq<Symbol>, name: string, i: nat): (r: int)
    requires i <= |symbols|
    ensures r == -1 || (i <= r < |symbols| && symbols[r].name == name)
    ensures r == -1 ==> forall k :: i <= k < |symbols| ==> symbols[k].name != name
    decreases |symbols| - i
  {
    if i == |symbols| then -1 else if symbols[i].name == name then i else SymbolIndex(symbols, name, i + 1)
  }

  /** `nyxstone_glue_define_abs` */
  function DefinedAbs(st: State, name: string, value: bv64): State {
    var i := SymbolIndex(st.symbols, name, 0);
    if i < 0 then st.(symbols := st.symbols + [Symbol(name, Absolute(value))])
    else if st.symbols[i].place.Undefined? then st.(symbols := st.symbols[i := Symbol(name, Absolute(value))])
    else st.(errors := st.errors + 1)
  }

  predicate FixupOk(st: State, fx: Fixup) {
    && fx.frag < |st.chain.frags|
    && fx.sym < |st.symbols|
    && (fx.sym >= 0 && st.symbols[fx.sym].place.InText? ==> st.symbols[fx.sym].place.frag < |st.chain.frags|)
  }

  /** Every fixup and every symbol it names refers to a frag of the chain. */
  predicate Linked(st: State) {
    forall i :: 0 <= i < |st.fixes| ==> FixupOk(st, st.fixes[i])
  }

  predicate Symbolic(fx: Fixup) {
    fx.sym >= 0
  }

  /** `S_IS_DEFINED (fx->fx_addsy)` */
  predicate Resolvable(st: State, fx: Fixup)
    requires FixupOk(st, fx)
  {
    Symbolic(fx) && !st.symbols[fx.sym].place.Undefined?
  }

  /** `fx->fx_frag->fr_address + fx->fx_where` */
  function Pos(st: State, fx: Fixup): nat
    requires FixupOk(st, fx)
  {
    st.chain.frags[fx.frag].address + fx.at
  }

  /** The absolute address of the symbol plus the fixup's offset. */
  function Target(st: State, base: bv64, fx: Fixup): bv64
    requires FixupOk(st, fx) && Resolvable(st, fx)
  {
    match st.symbols[fx.sym].place
    case InText(f, off) => Plus(Plus(base, U64(st.chain.frags[f].address + off)), fx.offset)
    case Absolute(v) => Plus(v, fx.offset)
  }

  /** The address a pc-relative displacement counts from. */
  function Site(gas: Gas, st: State, base: bv64, fx: Fixup): bv64 {
    Plus(base, gas.pcrelFrom(st.chain, fx))
  }

  /** The value for the field. */
  function ValueFor(gas: Gas, st: State, base: bv64, fx: Fixup, h: Howto): bv64
    requires FixupOk(st, fx) && Resolvable(st, fx)
  {
    if h.pcRelative then Minus(Target(st, base, fx), Site(gas, st, base, fx)) else Target(st, base, fx)
  }

  // ----- 64-bit words form a group -------------------------------------------------------------

  lemma PlusIs(a: bv64, b: bv64)
    ensures Plus(a, b) == a + b
  {
  }

  lemma PlusIsInside(a: bv64, b: bv64, c: bv64)
    ensures Plus(Plus(a, b), c) == Plus(a + b, c)
  {
    hide *;
    PlusIs(a, b);
  }

  lemma PlusIsOutside(a: bv64, b: bv64, c: bv64)
    ensures Plus(a + b, c) == a + b + c
  {
  }

  lemma PlusSum(a: bv64, b: bv64, c: bv64)
    ensures Plus(Plus(a, b), c) == a + b + c
  {
    hide *;
    PlusIsInside(a, b, c);
    PlusIsOutside(a, b, c);
  }

  lemma PlusSwap(a: bv64, b: bv64, c: bv64)
    ensures Plus(Plus(a, b), c) == Plus(Plus(a, c), b)
  {
    hide *;
    PlusSum(a, b, c);
    PlusSum(a, c, b);
  }

  lemma MinusMoved(t: bv64, s: bv64, d: bv64)
    ensures Minus(t + d, s + d) == Minus(t, s)
  {
  }

  lemma MinusPlus(t: bv64, s: bv64, d: bv64)
    ensures Minus(Plus(t, d), Plus(s, d)) == Minus(t + d, s + d)
  {
    hide *;
    PlusIs(t, d);
    PlusIs(s, d);
  }

  /** Moving both ends of a distance does not change it. */
  lemma MoveCancels(t: bv64, s: bv64, d: bv64)
    ensures Minus(Plus(t, d), Plus(s, d)) == Minus(t, s)
  {
    hide *;
    MinusPlus(t, s, d);
    MinusMoved(t, s, d);
  }

  lemma MinusIs(a: bv64, b: bv64)
    ensures Minus(a, b) == a - b
  {
  }

  lemma MinusInside(target: bv64, site: bv64)
    ensures Plus(site, Minus(target, site)) == Plus(site, target - site)
  {
    hide *;
    MinusIs(target, site);
  }

  lemma PlusDifference(target: bv64, site: bv64)
    ensures Plus(site, target - site) == target
  {
  }

  /** A displacement leads from the site to the target. */
  lemma SitePlusDisplacement(target: bv64, site: bv64)
    ensures Plus(site, Minus(target, site)) == target
  {
    hide *;
    MinusInside(target, site);
    PlusDifference(target, site);
  }

  // ----- the first loop: undefined symbols ----------------------------------------------------

  /** What the first loop makes of a fixup. */
  function Recorded(gas: Gas, st: State, fx: Fixup): (r: Fixup)
    requires FixupOk(st, fx)
    ensures r == fx.(addNumber := r.addNumber, done := r.done)
    ensures !Symbolic(fx) || Resolvable(st, fx) ==> r == fx
  {
    if !Symbolic(fx) || Resolvable(st, fx) then fx
    else
      var val := if fx.pcrel then Minus(fx.offset, gas.pcrelFrom(st.chain, fx)) else fx.offset;
      var r := gas.applyFix(fx, val);
      fx.(addNumber := r.addNumber, done := fx.done || r.done)
  }

  /** The state after the first loop. */
  function RecordedAll(gas: Gas, st: State): (s: State)
    requires Linked(st)
    ensures |s.fixes| == |st.fixes| && s == st.(fixes := s.fixes) && Linked(s)
  {
    hide Recorded;
    var fixes := seq(|st.fixes|, i requires 0 <= i < |st.fixes| =>
      assert FixupOk(st, st.fixes[i]); Recorded(gas, st, st.fixes[i]));
    st.(fixes := fixes)
  }

  lemma RecordedAt(gas: Gas, st: State, i: nat)
    requires Linked(st) && i < |st.fixes|
    ensures FixupOk(st, st.fixes[i]) && RecordedAll(gas, st).fixes[i] == Recorded(gas, st, st.fixes[i])
  {
    hide Recorded;
  }

  predicate Pending(st: State, fx: Fixup)
    requires FixupOk(st, fx)
  {
    Symbolic(fx) && !Resolvable(st, fx) && !fx.done
  }

  function Unresolved(st: State, n: nat): nat
    requires Linked(st) && n <= |st.fixes|
  {
    if n == 0 then 0
    else
      assert FixupOk(st, st.fixes[n - 1]);
      Unresolved(st, n - 1) + if Pending(st, st.fixes[n - 1]) then 1 else 0
  }

  // ----- the second loop: defined symbols --------------------------------------------------------

  datatype Encoding = Encoding(img: seq<bv8>, unsupported: Option<string>, errors: nat)

  function EncodeOne(gas: Gas, st: State, base: bv64, e: Encoding, fx: Fixup): (r: Encoding)
    requires FixupOk(st, fx)
    ensures |r.img| == |e.img|
    ensures e.errors <= r.errors
    ensures e.unsupported.Some? ==> r.unsupported.Some?
  {
    if !Resolvable(st, fx) then e
    else if fx.howto.None? then e.(unsupported := Some("<no howto>"))
    else
      var h := fx.howto.value;
      var (img, rc) := Encoded(e.img, Pos(st, fx), h, ValueFor(gas, st, base, fx, h));
      if rc == 0 then Encoding(img, Some(if h.name.Some? then h.name.value else "<unknown>"), e.errors)
      else if rc < 0 then Encoding(img, e.unsupported, e.errors + 1)
      else e.(img := img)
  }

  function EncodeFirst(gas: Gas, st: State, base: bv64, img: seq<bv8>, n: nat): (r: Encoding)
    requires Linked(st) && n <= |st.fixes|
    ensures |r.img| == |img|
  {
    if n == 0 then Encoding(img, None, 0)
    else
      assert FixupOk(st, st.fixes[n - 1]);
      EncodeOne(gas, st, base, EncodeFirst(gas, st, base, img, n - 1), st.fixes[n - 1])
  }

  /** What is encoded for a fixup depends on the chain and the symbols, not on the rest. */
  lemma SameValue(gas: Gas, st: State, s: State, base: bv64, fx: Fixup)
    requires FixupOk(st, fx) && s.chain == st.chain && s.symbols == st.symbols
    ensures FixupOk(s, fx) && Resolvable(s, fx) == Resolvable(st, fx) && Pos(s, fx) == Pos(st, fx)
    ensures Resolvable(st, fx) ==> forall h :: ValueFor(gas, s, base, fx, h) == ValueFor(gas, st, base, fx, h)
  {
    hide U64, Plus, Minus;
  }

  lemma ReportsDoNotMatter(gas: Gas, st: State, s: State)
    requires Linked(st) && s == st.(errors := s.errors, unsupported := s.unsupported)
    ensures Linked(s) && RecordedAll(gas, s).fixes == RecordedAll(gas, st).fixes
    ensures Unresolved(RecordedAll(gas, s), |s.fixes|) == Unresolved(RecordedAll(gas, st), |st.fixes|)
  {
    hide RecordedAll, Unresolved;
    forall i | 0 <= i < |st.fixes|
      ensures FixupOk(s, s.fixes[i]) && RecordedAll(gas, s).fixes[i] == RecordedAll(gas, st).fixes[i]
    {
      assert FixupOk(st, st.fixes[i]);
      RecordedAt(gas, st, i);
      RecordedAt(gas, s, i);
    }
    assert RecordedAll(gas, s).fixes == RecordedAll(gas, st).fixes;
    UnresolvedSame(RecordedAll(gas, st), RecordedAll(gas, s), |st.fixes|);
  }

  /** The count depends on the fixups and the symbols only. */
  lemma {:induction false} UnresolvedSame(st: State, s: State, n: nat)
    requires Linked(st) && Linked(s) && s.fixes == st.fixes && s.symbols == st.symbols && n <= |st.fixes|
    ensures Unresolved(s, n) == Unresolved(st, n)
  {
    if n > 0 {
      UnresolvedSame(st, s, n - 1);
      assert FixupOk(st, st.fixes[n - 1]) && FixupOk(s, s.fixes[n - 1]);
      assert Pending(st, st.fixes[n - 1]) == Pending(s, s.fixes[n - 1]);
    }
  }

  /** The whole pass.  `bufferOk` says whether the image buffer could be allocated. */
  function Applied(gas: Gas, st: State, base: bv64, bufferOk: bool): (State, nat)
    requires Linked(st) && WellFormed(st.chain)
  {
    var fixes := RecordedAll(gas, st).fixes;
    var unresolved := Unresolved(RecordedAll(gas, st), |st.fixes|);
    if End(st.chain) == 0 || !bufferOk then (st.(fixes := fixes, unsupported := None), unresolved)
    else
      var e := EncodeFirst(gas, st, base, Image(st.chain, |st.chain.frags|), |st.fixes|);
      (State(CopiedBack(st.chain, e.img), fixes, st.symbols, st.errors + e.errors, e.unsupported), unresolved)
  }

  // ----- where the fields are ------------------------------------------------------------------------

  /** The fixup has a field the encoder may write. */
  predicate HasField(st: State, fx: Fixup)
    requires FixupOk(st, fx)
  {
    Resolvable(st, fx) && fx.howto.Some? && fx.howto.value.name.Some?
  }

  /** The fixup's field lies in the fixed part of its frag, and its instruction is wide enough. */
  predicate Seated(st: State, img: seq<bv8>, fx: Fixup)
    requires FixupOk(st, fx) && HasField(st, fx)
  {
    && Pos(st, fx) < |img|
    && Pos(st, fx) + FieldLen(img, Pos(st, fx), KindOf(fx.howto.value)) <= |img|
    && st.chain.frags[fx.frag].address == Addr(st.chain, fx.frag)
    && fx.at + FieldLen(img, Pos(st, fx), KindOf(fx.howto.value)) <= FixSize(st.chain, fx.frag)
    && MarkerFits(KindOf(fx.howto.value), img[Pos(st, fx)])
  }

  /** Byte `k` belongs to the field of the fixup. */
  predicate Covers(st: State, img: seq<bv8>, fx: Fixup, k: int)
    requires FixupOk(st, fx) && HasField(st, fx) && Pos(st, fx) < |img|
  {
    Pos(st, fx) <= k < Pos(st, fx) + FieldLen(img, Pos(st, fx), KindOf(fx.howto.value))
  }

  /** No byte belongs to both fields. */
  ghost predicate Apart(st: State, img: seq<bv8>, a: Fixup, b: Fixup)
    requires FixupOk(st, a) && HasField(st, a) && Pos(st, a) < |img|
    requires FixupOk(st, b) && HasField(st, b) && Pos(st, b) < |img|
  {
    forall k :: Covers(st, img, a, k) ==> !Covers(st, img, b, k)
  }

  predicate Fielded(st: State, i: nat)
    requires Linked(st) && i < |st.fixes|
  {
    FixupOk(st, st.fixes[i]) && HasField(st, st.fixes[i])
  }

  /** What gas guarantees about fixups: fields in fixed parts, and no two overlap. */
  ghost predicate WellPlaced(st: State, img: seq<bv8>)
    requires Linked(st)
  {
    && (forall i :: 0 <= i < |st.fixes| && Fielded(st, i) ==> Seated(st, img, st.fixes[i]))
    && (forall i, j :: 0 <= i < |st.fixes| && 0 <= j < |st.fixes| && i != j && Fielded(st, i) && Fielded(st, j) ==>
          Apart(st, img, st.fixes[i], st.fixes[j]))
  }

  // ----- the fields are placed if each is within its frag -------------------------------------------

  /** The howto names a form. */
  predicate Named(fx: Fixup) {
    fx.howto.Some? && fx.howto.value.name.Some?
  }

  /** The fixup sits in the fixed part of its frag, which is `size` bytes of the literal; so does its
      field, and the instruction there is wide enough for the field. */
  predicate SeatedIn(f: Frag, size: nat, fx: Fixup) {
    && fx.at < size <= |f.literal|
    && (Named(fx) ==>
          && fx.at + FieldLen(f.literal, fx.at, KindOf(fx.howto.value)) <= size
          && MarkerFits(KindOf(fx.howto.value), f.literal[fx.at]))
  }

  /** The fields of two fixups of a frag do not overlap. */
  predicate ApartIn(f: Frag, a: Fixup, b: Fixup) {
    Named(a) && Named(b) && a.at < |f.literal| && b.at < |f.literal| ==>
      || a.at + FieldLen(f.literal, a.at, KindOf(a.howto.value)) <= b.at
      || b.at + FieldLen(f.literal, b.at, KindOf(b.howto.value)) <= a.at
  }

  predicate FixupPlaced(c: Chain, fx: Fixup) {
    Symbolic(fx) ==> fx.frag < |c.frags| && SeatedIn(c.frags[fx.frag], FixSize(c, fx.frag), fx)
  }

  predicate PairPlaced(c: Chain, a: Fixup, b: Fixup) {
    Symbolic(a) && Symbolic(b) && a.frag == b.frag && a.frag < |c.frags| ==> ApartIn(c.frags[a.frag], a, b)
  }

  /** What gas guarantees about fixups, frag by frag; addresses do not come into it. */
  predicate FixesPlaced(c: Chain, fixes: seq<Fixup>) {
    && (forall i :: 0 <= i < |fixes| ==> FixupPlaced(c, fixes[i]))
    && (forall i, j :: 0 <= i < j < |fixes| ==> PairPlaced(c, fixes[i], fixes[j]))
  }

  /** Every frag is at the address layout gives it. */
  predicate AtAddresses(c: Chain) {
    forall i :: 0 <= i < |c.frags| ==> c.frags[i].address == Addr(c, i)
  }

  lemma AddressIs(c: Chain, i: nat)
    requires AtAddresses(c) && i < |c.frags|
    ensures c.frags[i].address == Addr(c, i)
  {
  }

  /** Where in the image the field of a fixup is. */
  lemma FieldInImage(st: State, fx: Fixup)
    requires WellFormed(st.chain) && AtAddresses(st.chain)
    requires FixupOk(st, fx) && Symbolic(fx) && FixupPlaced(st.chain, fx) && Named(fx)
    ensures
      var c, img := st.chain, Image(st.chain, |st.chain.frags|);
      var f, k := c.frags[fx.frag], KindOf(fx.howto.value);
      && fx.at < |f.literal| && |img| == End(c)
      && Pos(st, fx) == Addr(c, fx.frag) + fx.at < |img| && img[Pos(st, fx)] == f.literal[fx.at]
      && FieldLen(img, Pos(st, fx), k) == FieldLen(f.literal, fx.at, k)
      && fx.at + FieldLen(f.literal, fx.at, k) <= FixSize(c, fx.frag)
      && Addr(c, fx.frag) + FixSize(c, fx.frag) <= Addr(c, fx.frag + 1) <= End(c)
      && MarkerFits(k, img[Pos(st, fx)])
  {
    hide Image, Addr, KindOf, MarkerFits, InsnLen, WellFormed, AtAddresses, End, FixSize;
    assert SeatedIn(st.chain.frags[fx.frag], FixSize(st.chain, fx.frag), fx);
    FixedByte(st.chain, fx.frag, fx.at);
    AddressIs(st.chain, fx.frag);
  }

  lemma FieldsApart(st: State, a: Fixup, b: Fixup)
    requires WellFormed(st.chain) && AtAddresses(st.chain)
    requires FixupOk(st, a) && Symbolic(a) && FixupPlaced(st.chain, a) && Named(a) && HasField(st, a)
    requires FixupOk(st, b) && Symbolic(b) && FixupPlaced(st.chain, b) && Named(b) && HasField(st, b)
    requires PairPlaced(st.chain, a, b) || PairPlaced(st.chain, b, a)
    ensures
      var img := Image(st.chain, |st.chain.frags|);
      Pos(st, a) < |img| && Pos(st, b) < |img| && Apart(st, img, a, b)
  {
    hide Image, Addr, KindOf, FieldLen, MarkerFits;
    FieldInImage(st, a);
    FieldInImage(st, b);
    if a.frag < b.frag {
      AddrMonotone(st.chain, a.frag, b.frag);
    } else if b.frag < a.frag {
      AddrMonotone(st.chain, b.frag, a.frag);
    }
  }

  /** In a laid out chain, fields that are placed within their frags are placed in the image. */
  lemma PlacedByFrag(st: State)
    requires Linked(st) && WellFormed(st.chain) && AtAddresses(st.chain) && FixesPlaced(st.chain, st.fixes)
    ensures WellPlaced(st, Image(st.chain, |st.chain.frags|))
  {
    hide Image, Addr, KindOf, FieldLen, MarkerFits, FixupPlaced, PairPlaced, Apart, AtAddresses, WellFormed;
    var img := Image(st.chain, |st.chain.frags|);
    forall i | 0 <= i < |st.fixes| && Fielded(st, i)
      ensures Seated(st, img, st.fixes[i])
    {
      FieldInImage(st, st.fixes[i]);
      AddressIs(st.chain, st.fixes[i].frag);
    }
    forall i, j | 0 <= i < |st.fixes| && 0 <= j < |st.fixes| && i != j && Fielded(st, i) && Fielded(st, j)
      ensures Apart(st, img, st.fixes[i], st.fixes[j])
    {
      assert PairPlaced(st.chain, st.fixes[i], st.fixes[j]) || PairPlaced(st.chain, st.fixes[j], st.fixes[i]);
      FieldsApart(st, st.fixes[i], st.fixes[j]);
    }
  }

  /** A section with a symbolic fixup is not empty. */
  lemma FixupsNeedBytes(st: State, i: nat)
    requires Linked(st) && WellFormed(st.chain) && FixesPlaced(st.chain, st.fixes)
    requires i < |st.fixes| && Symbolic(st.fixes[i])
    ensures End(st.chain) > 0
  {
    hide Image;
    assert FixupOk(st, st.fixes[i]) && FixupPlaced(st.chain, st.fixes[i]);
    ImageAt(st.chain, st.fixes[i].frag);
  }

  // ----- the encoding loop ---------------------------------------------------------------------------

  /** Byte `k` belongs to the field of one of the first `n` fixups. */
  ghost predicate Touched(st: State, img: seq<bv8>, n: nat, k: int)
    requires Linked(st) && WellPlaced(st, img) && n <= |st.fixes|
  {
    exists i :: 0 <= i < n && Fielded(st, i) && Covers(st, img, st.fixes[i], k)
  }

  /** Fixup `i` is encoded: the image carries its value. */
  ghost predicate Resolved(gas: Gas, st: State, base: bv64, img: seq<bv8>, i: nat)
    requires Linked(st) && i < |st.fixes| && FixupOk(st, st.fixes[i])
  {
    var fx := st.fixes[i];
    && HasField(st, fx)
    && Pos(st, fx) < |img|
    && Holds(img, Pos(st, fx), KindOf(fx.howto.value), ValueFor(gas, st, base, fx, fx.howto.value))
  }

  predicate Defined(st: State, i: nat)
    requires Linked(st) && i < |st.fixes|
  {
    FixupOk(st, st.fixes[i]) && Resolvable(st, st.fixes[i])
  }

  /** The next field has not been touched yet. */
  lemma NextUntouched(st: State, img: seq<bv8>, n: nat, k: int)
    requires Linked(st) && WellPlaced(st, img) && n < |st.fixes| && Fielded(st, n)
    requires Covers(st, img, st.fixes[n], k)
    ensures !Touched(st, img, n, k)
  {
    forall i | 0 <= i < n && Fielded(st, i)
      ensures !Covers(st, img, st.fixes[i], k)
    {
      assert Apart(st, img, st.fixes[i], st.fixes[n]);
    }
  }

  /** Bytes outside the first `n` fields are the original ones. */
  ghost predicate Untouched(st: State, img: seq<bv8>, s: seq<bv8>, n: nat)
    requires Linked(st) && WellPlaced(st, img) && n <= |st.fixes| && |s| == |img|
  {
    forall k :: 0 <= k < |img| && !Touched(st, img, n, k) ==> s[k] == img[k]
  }

  /** The encoder's step on the field of fixup `n`, whose bytes are still the original ones. */
  lemma StepFrame(gas: Gas, st: State, base: bv64, img: seq<bv8>, e: Encoding, n: nat)
    requires Linked(st) && WellPlaced(st, img) && n < |st.fixes| && Fielded(st, n) && |e.img| == |img|
    requires Untouched(st, img, e.img, n)
    ensures
      var fx := st.fixes[n];
      var at, h, r := Pos(st, fx), fx.howto.value, EncodeOne(gas, st, base, e, fx);
      && FieldLen(e.img, at, KindOf(h)) == FieldLen(img, at, KindOf(h)) && e.img[at] == img[at]
      && (forall k :: 0 <= k < |img| && !Covers(st, img, fx, k) ==> r.img[k] == e.img[k])
      && (r.errors == e.errors && r.unsupported.None? ==>
            Encoded(e.img, at, h, ValueFor(gas, st, base, fx, h)) == (r.img, 1))
  {
    hide ValueFor, Encoded, InsnLen;
    var fx := st.fixes[n];
    var at, h := Pos(st, fx), fx.howto.value;
    assert Seated(st, img, fx);
    assert Covers(st, img, fx, at);
    NextUntouched(st, img, n, at);
    EncodedFrame(e.img, at, h, ValueFor(gas, st, base, fx, h));
    EncodedCode(e.img, at, h, ValueFor(gas, st, base, fx, h));
  }

  /** Without a field, a fixup changes no byte; if its symbol is defined, it is reported. */
  lemma StepNoField(gas: Gas, st: State, base: bv64, e: Encoding, n: nat)
    requires Linked(st) && n < |st.fixes| && FixupOk(st, st.fixes[n]) && !Fielded(st, n)
    ensures EncodeOne(gas, st, base, e, st.fixes[n]).img == e.img
    ensures Defined(st, n) ==> EncodeOne(gas, st, base, e, st.fixes[n]).unsupported.Some?
  {
    hide ValueFor, Place, LeWord, WithLe, KindOf, FieldLen;
  }

  lemma TouchedStep(st: State, img: seq<bv8>, n: nat, k: int)
    requires Linked(st) && WellPlaced(st, img) && n < |st.fixes|
    ensures Touched(st, img, n + 1, k) <==>
            Touched(st, img, n, k) || (Fielded(st, n) && Covers(st, img, st.fixes[n], k))
  {
  }

  lemma UntouchedStep(gas: Gas, st: State, base: bv64, img: seq<bv8>, e: Encoding, n: nat)
    requires Linked(st) && WellPlaced(st, img) && n < |st.fixes| && |e.img| == |img| && FixupOk(st, st.fixes[n])
    requires Untouched(st, img, e.img, n)
    ensures Untouched(st, img, EncodeOne(gas, st, base, e, st.fixes[n]).img, n + 1)
  {
    hide EncodeOne, Touched, Covers, Apart;
    if Fielded(st, n) {
      StepFrame(gas, st, base, img, e, n);
    } else {
      StepNoField(gas, st, base, e, n);
    }
    forall k | 0 <= k < |img| && !Touched(st, img, n + 1, k)
      ensures EncodeOne(gas, st, base, e, st.fixes[n]).img[k] == img[k]
    {
      TouchedStep(st, img, n, k);
    }
  }

  lemma {:induction false} UntouchedKept(gas: Gas, st: State, base: bv64, img: seq<bv8>, n: nat)
    requires Linked(st) && WellPlaced(st, img) && n <= |st.fixes|
    ensures Untouched(st, img, EncodeFirst(gas, st, base, img, n).img, n)
  {
    hide EncodeOne, Touched, WellPlaced;
    if n > 0 {
      hide Untouched;
      assert FixupOk(st, st.fixes[n - 1]);
      UntouchedKept(gas, st, base, img, n - 1);
      UntouchedStep(gas, st, base, img, EncodeFirst(gas, st, base, img, n - 1), n - 1);
    }
  }

  /** Fixup `i` is encoded in an image that differs from the original one in no width marker. */
  ghost predicate Landed(gas: Gas, st: State, base: bv64, img: seq<bv8>, s: seq<bv8>, i: nat)
    requires Linked(st) && i < |st.fixes| && FixupOk(st, st.fixes[i]) && |s| == |img|
  {
    var fx := st.fixes[i];
    && Resolved(gas, st, base, s, i)
    && FieldLen(s, Pos(st, fx), KindOf(fx.howto.value)) == FieldLen(img, Pos(st, fx), KindOf(fx.howto.value))
  }

  lemma Lands(gas: Gas, st: State, base: bv64, img: seq<bv8>, e: Encoding, i: nat)
    requires Linked(st) && WellPlaced(st, img) && i < |st.fixes| && Defined(st, i) && |e.img| == |img|
    requires Untouched(st, img, e.img, i)
    requires EncodeOne(gas, st, base, e, st.fixes[i]).errors == e.errors
    requires EncodeOne(gas, st, base, e, st.fixes[i]).unsupported.None?
    ensures Landed(gas, st, base, img, EncodeOne(gas, st, base, e, st.fixes[i]).img, i)
  {
    hide EncodeOne, ValueFor, Holds, Encoded, InsnKind, Suffix;
    if !Fielded(st, i) {
      StepNoField(gas, st, base, e, i);
    } else {
      StepFrame(gas, st, base, img, e, i);
      var fx := st.fixes[i];
      assert Seated(st, img, fx);
      EncodedHolds(e.img, Pos(st, fx), fx.howto.value, ValueFor(gas, st, base, fx, fx.howto.value));
      EncodedFrame(e.img, Pos(st, fx), fx.howto.value, ValueFor(gas, st, base, fx, fx.howto.value));
    }
  }

  lemma StillLanded(gas: Gas, st: State, base: bv64, img: seq<bv8>, s: seq<bv8>, t: seq<bv8>, i: nat, j: nat)
    requires Linked(st) && WellPlaced(st, img) && i < j < |st.fixes| && FixupOk(st, st.fixes[i]) && Fielded(st, j)
    requires |s| == |t| == |img| && Landed(gas, st, base, img, s, i)
    requires forall k :: 0 <= k < |img| && !Covers(st, img, st.fixes[j], k) ==> t[k] == s[k]
    ensures Landed(gas, st, base, img, t, i)
  {
    hide ValueFor, Holds, InsnKind, Suffix;
    var fx := st.fixes[i];
    assert Seated(st, img, fx);
    assert Apart(st, img, fx, st.fixes[j]);
    HoldsFrame(s, t, Pos(st, fx), KindOf(fx.howto.value), ValueFor(gas, st, base, fx, fx.howto.value));
  }

  lemma StepKeepsLanded(gas: Gas, st: State, base: bv64, img: seq<bv8>, e: Encoding, i: nat, j: nat)
    requires Linked(st) && WellPlaced(st, img) && i < j < |st.fixes| && FixupOk(st, st.fixes[i])
      && FixupOk(st, st.fixes[j])
    requires |e.img| == |img| && Untouched(st, img, e.img, j) && Landed(gas, st, base, img, e.img, i)
    ensures Landed(gas, st, base, img, EncodeOne(gas, st, base, e, st.fixes[j]).img, i)
  {
    hide EncodeOne, Landed, Touched, Covers, Untouched;
    if Fielded(st, j) {
      StepFrame(gas, st, base, img, e, j);
      StillLanded(gas, st, base, img, e.img, EncodeOne(gas, st, base, e, st.fixes[j]).img, i, j);
    } else {
      StepNoField(gas, st, base, e, j);
    }
  }

  /** If nothing was reported, every fixup so far with a defined symbol is in the image. */
  lemma {:induction false} EncodedSoFar(gas: Gas, st: State, base: bv64, img: seq<bv8>, n: nat, i: nat)
    requires Linked(st) && WellPlaced(st, img) && i < n <= |st.fixes| && Defined(st, i)
    requires EncodeFirst(gas, st, base, img, n).errors == 0
    requires EncodeFirst(gas, st, base, img, n).unsupported.None?
    ensures Landed(gas, st, base, img, EncodeFirst(gas, st, base, img, n).img, i)
  {
    hide EncodeOne, Landed, WellPlaced, Untouched;
    assert FixupOk(st, st.fixes[n - 1]) && FixupOk(st, st.fixes[i]);
    var e := EncodeFirst(gas, st, base, img, n - 1);
    UntouchedKept(gas, st, base, img, n - 1);
    if i == n - 1 {
      Lands(gas, st, base, img, e, i);
    } else {
      EncodedSoFar(gas, st, base, img, n - 1, i);
      StepKeepsLanded(gas, st, base, img, e, i, n - 1);
    }
  }

  // ----- what the pass reports ----------------------------------------------------------------------------

  /** The encoder knows no form for a fixup it has to encode. */
  predicate Formless(st: State, i: nat)
    requires Linked(st) && i < |st.fixes|
  {
    var fx := st.fixes[i];
    && FixupOk(st, fx) && Resolvable(st, fx)
    && (fx.howto.None? || fx.howto.value.name.None? || KindOf(fx.howto.value).Unknown?)
  }

  /** What the report calls it. */
  function FormName(fx: Fixup): string {
    if fx.howto.None? then "<no howto>"
    else if fx.howto.value.name.None? then "<unknown>"
    else fx.howto.value.name.value
  }

  /** No instruction word carries the value, or the form is never legal on a resolved value. */
  ghost predicate OutOfRange(gas: Gas, st: State, base: bv64, i: nat)
    requires Linked(st) && i < |st.fixes|
  {
    var fx := st.fixes[i];
    && FixupOk(st, fx) && Resolvable(st, fx) && fx.howto.Some? && fx.howto.value.name.Some?
    && match KindOf(fx.howto.value)
       case Insn(form) => !Representable(form, ValueFor(gas, st, base, fx, fx.howto.value))
       case SmPrefix => true
       case _ => false
  }

  /** What one step reports. */
  lemma StepReports(gas: Gas, st: State, base: bv64, img: seq<bv8>, e: Encoding, n: nat)
    requires Linked(st) && WellPlaced(st, img) && n < |st.fixes| && FixupOk(st, st.fixes[n]) && |e.img| == |img|
    requires Untouched(st, img, e.img, n)
    ensures
      var r := EncodeOne(gas, st, base, e, st.fixes[n]);
      && r.unsupported == (if Formless(st, n) then Some(FormName(st.fixes[n])) else e.unsupported)
      && r.errors == e.errors + if OutOfRange(gas, st, base, n) then 1 else 0
  {
    hide ValueFor, Encoded, InsnLen, Representable, InsnKind, Suffix, Untouched, WellPlaced, Apart;
    var fx := st.fixes[n];
    if Fielded(st, n) {
      StepFrame(gas, st, base, img, e, n);
      SeatedOf(st, img, n);
      EncodedIff(e.img, Pos(st, fx), fx.howto.value, ValueFor(gas, st, base, fx, fx.howto.value));
    } else if Resolvable(st, fx) && fx.howto.Some? {
      EncodedNameless(e.img, Pos(st, fx), fx.howto.value, ValueFor(gas, st, base, fx, fx.howto.value));
    }
  }

  lemma SeatedOf(st: State, img: seq<bv8>, i: nat)
    requires Linked(st) && WellPlaced(st, img) && i < |st.fixes| && Fielded(st, i)
    ensures Seated(st, img, st.fixes[i])
  {
  }

  /** What the encoding loop reports: a form if and only if some fixup has none, and then that of the
      last of them; errors if and only if some value is out of range. */
  lemma {:induction false} LoopReports(gas: Gas, st: State, base: bv64, img: seq<bv8>, n: nat)
    requires Linked(st) && WellPlaced(st, img) && n <= |st.fixes|
    ensures
      var e := EncodeFirst(gas, st, base, img, n);
      && (e.unsupported.None? <==> forall i :: 0 <= i < n ==> !Formless(st, i))
      && (e.unsupported.Some? ==> exists i ::
            0 <= i < n && Formless(st, i) && e.unsupported.value == FormName(st.fixes[i])
            && forall k :: i < k < n ==> !Formless(st, k))
      && (e.errors == 0 <==> forall i :: 0 <= i < n ==> !OutOfRange(gas, st, base, i))
  {
    hide EncodeOne, Untouched, WellPlaced, OutOfRange, Formless, FormName;
    if n > 0 {
      assert FixupOk(st, st.fixes[n - 1]);
      LoopReports(gas, st, base, img, n - 1);
      UntouchedKept(gas, st, base, img, n - 1);
      StepReports(gas, st, base, img, EncodeFirst(gas, st, base, img, n - 1), n - 1);
    }
  }

  // ----- end to end -------------------------------------------------------------------------------------

  lemma FixedIsNotFill(c: Chain, i: nat, j: nat, k: int)
    requires i < |c.frags| && j < |c.frags| && InFixed(c, i, k)
    ensures !InFill(c, j, k)
  {
    if i < j {
      AddrMonotone(c, i, j);
    } else if j < i {
      AddrMonotone(c, j, i);
    }
  }

  /** The encoding loop leaves the padding alone. */
  lemma PaddingKept(gas: Gas, st: State, base: bv64, n: nat)
    requires Linked(st) && WellFormed(st.chain) && n <= |st.fixes|
    requires WellPlaced(st, Image(st.chain, |st.chain.frags|))
    ensures FillsAgree(st.chain, EncodeFirst(gas, st, base, Image(st.chain, |st.chain.frags|), n).img)
  {
    hide EncodeFirst, Image;
    var c := st.chain;
    var img := Image(c, |c.frags|);
    UntouchedKept(gas, st, base, img, n);
    forall i, k | 0 <= i < |c.frags| && InFill(c, i, k) && 0 <= k < |img|
      ensures !Touched(st, img, n, k)
    {
      forall j | 0 <= j < n && Fielded(st, j)
        ensures !Covers(st, img, st.fixes[j], k)
      {
        assert Seated(st, img, st.fixes[j]);
        if Covers(st, img, st.fixes[j], k) {
          FixedIsNotFill(c, st.fixes[j].frag, i, k);
        }
      }
    }
  }

  /** The state after the pass, and nothing was reported. */
  ghost predicate Silent(gas: Gas, st: State, base: bv64, bufferOk: bool, after: State)
    requires Linked(st) && WellFormed(st.chain)
  {
    && after == Applied(gas, st, base, bufferOk).0
    && after.errors == st.errors
    && after.unsupported.None?
  }

  /** End to end: if the pass reports nothing, then in the bytes extracted from the frags afterwards
      every fixup with a defined symbol carries its value, and every byte outside those fields,
      padding included, is what it was. */
  lemma EndToEnd(gas: Gas, st: State, base: bv64, after: State)
    requires Linked(st) && WellFormed(st.chain) && End(st.chain) > 0
    requires WellPlaced(st, Image(st.chain, |st.chain.frags|))
    requires Silent(gas, st, base, true, after)
    ensures WellFormed(after.chain) && |after.chain.frags| == |st.chain.frags| && End(after.chain) == End(st.chain)
    ensures
      var img, out := Image(st.chain, |st.chain.frags|), Image(after.chain, |after.chain.frags|);
      && (forall i :: 0 <= i < |st.fixes| && Defined(st, i) ==> Landed(gas, st, base, img, out, i))
      && Untouched(st, img, out, |st.fixes|)
  {
    hide EncodeFirst, Landed, Touched, WellPlaced, Image, End, Untouched;
    var img := Image(st.chain, |st.chain.frags|);
    var e := EncodeFirst(gas, st, base, img, |st.fixes|);
    PaddingKept(gas, st, base, |st.fixes|);
    CopyBackExtracts(st.chain, e.img);
    UntouchedKept(gas, st, base, img, |st.fixes|);
    forall i | 0 <= i < |st.fixes| && Defined(st, i)
      ensures Landed(gas, st, base, img, e.img, i)
    {
      EncodedSoFar(gas, st, base, img, |st.fixes|, i);
    }
  }

  /** Resolving a symbol without the image buffer: one data byte at the start of the section that
      ought to hold the absolute value 1. */
  function OneByte(): State {
    State(
      Chain([Frag(0, 1, Fill, 0, 0, 0, -1, [0])], -1),
      [Fixup(0, 0, 0, 0, false, false, 0, Some(Howto(Some("R_TRICORE_8ABS"), 0xff, 0, false, 0)))],
      [Symbol("one", Absolute(1))],
      0,
      None)
  }

  /** Everything is encoded on a silent pass only because the buffer was allocated: when the
      allocation fails the pass is silent too, and the field keeps its old contents. */
  lemma SilentWithoutBuffer(gas: Gas)
    ensures Linked(OneByte()) && WellFormed(OneByte().chain)
    ensures Silent(gas, OneByte(), 0, false, Applied(gas, OneByte(), 0, false).0)
    ensures Defined(OneByte(), 0)
    ensures Image(Applied(gas, OneByte(), 0, false).0.chain, 1) == [0]
    ensures !Resolved(gas, OneByte(), 0, [0], 0)
  {
  }

  /** Without the buffer the pass reports nothing, and leaves the frags as they are. */
  lemma NoBufferNoReport(gas: Gas, st: State, base: bv64)
    requires Linked(st) && WellFormed(st.chain)
    ensures Silent(gas, st, base, false, Applied(gas, st, base, false).0)
    ensures Applied(gas, st, base, false).0.chain == st.chain
  {
    hide RecordedAll, Unresolved;
  }

  /** Exactly when a silent pass has encoded a field that was not right already: when the buffer could
      be allocated. */
  lemma EncodedIffBuffer(gas: Gas, st: State, base: bv64, bufferOk: bool, i: nat)
    requires Linked(st) && WellFormed(st.chain) && End(st.chain) > 0
    requires WellPlaced(st, Image(st.chain, |st.chain.frags|))
    requires Silent(gas, st, base, bufferOk, Applied(gas, st, base, bufferOk).0)
    requires i < |st.fixes| && Defined(st, i) && !Resolved(gas, st, base, Image(st.chain, |st.chain.frags|), i)
    ensures
      var after := Applied(gas, st, base, bufferOk).0;
      && WellFormed(after.chain)
      && (Resolved(gas, st, base, Image(after.chain, |after.chain.frags|), i) <==> bufferOk)
  {
    hide Applied, EncodeFirst, Image, WellPlaced, Touched, Untouched, Resolved, Silent, End;
    if bufferOk {
      EndToEnd(gas, st, base, Applied(gas, st, base, true).0);
    } else {
      NoBufferNoReport(gas, st, base);
    }
  }

  /** The value an instruction field at the fixup decodes to. */
  function DecodedAt(st: State, img: seq<bv8>, fx: Fixup, form: Form): bv64
    requires FixupOk(st, fx) && Pos(st, fx) < |img| && Pos(st, fx) + InsnLen(img[Pos(st, fx)]) <= |img|
  {
    Decode(form, LeWord(img, Pos(st, fx), InsnLen(img[Pos(st, fx)])))
  }

  lemma DecodesToValue(gas: Gas, st: State, base: bv64, img: seq<bv8>, i: nat)
    requires Linked(st) && i < |st.fixes| && FixupOk(st, st.fixes[i]) && Resolved(gas, st, base, img, i)
    requires KindOf(st.fixes[i].howto.value).Insn?
    ensures
      var fx := st.fixes[i];
      var h := fx.howto.value;
      Pos(st, fx) + InsnLen(img[Pos(st, fx)]) <= |img|
      && DecodedAt(st, img, fx, KindOf(h).form) == FieldValue(KindOf(h).form, ValueFor(gas, st, base, fx, h))
  {
    hide Decode, FieldValue, LeWord, InsnLen, ValueFor, InsnKind, Suffix, Plus, Minus;
  }

  /** Fixup `i` is encoded in the image, in an instruction field. */
  ghost predicate InInstruction(gas: Gas, st: State, base: bv64, img: seq<bv8>, i: nat)
    requires Linked(st) && i < |st.fixes| && FixupOk(st, st.fixes[i])
  {
    Resolved(gas, st, base, img, i) && KindOf(st.fixes[i].howto.value).Insn?
  }

  /** What an encoded pc-relative field means: the displacement leads from the site to the target. */
  lemma DisplacementReachesTarget(gas: Gas, st: State, base: bv64, img: seq<bv8>, i: nat)
    requires Linked(st) && i < |st.fixes| && FixupOk(st, st.fixes[i]) && InInstruction(gas, st, base, img, i)
    requires st.fixes[i].howto.value.pcRelative && WholeValue(KindOf(st.fixes[i].howto.value).form)
    ensures Pos(st, st.fixes[i]) + InsnLen(img[Pos(st, st.fixes[i])]) <= |img|
    ensures
      var fx := st.fixes[i];
      Plus(Site(gas, st, base, fx), DecodedAt(st, img, fx, KindOf(fx.howto.value).form)) == Target(st, base, fx)
  {
    hide DecodedAt, FieldValue, InsnLen, Target, Site, KindOf, Holds, Plus, Minus;
    DecodesToValue(gas, st, base, img, i);
    var fx := st.fixes[i];
    WholeIsValue(KindOf(fx.howto.value).form, ValueFor(gas, st, base, fx, fx.howto.value));
    SitePlusDisplacement(Target(st, base, fx), Site(gas, st, base, fx));
  }

  /** What an encoded absolute field means: it is the target. */
  lemma AbsoluteFieldIsTarget(gas: Gas, st: State, base: bv64, img: seq<bv8>, i: nat)
    requires Linked(st) && i < |st.fixes| && FixupOk(st, st.fixes[i]) && InInstruction(gas, st, base, img, i)
    requires !st.fixes[i].howto.value.pcRelative && WholeValue(KindOf(st.fixes[i].howto.value).form)
    ensures Pos(st, st.fixes[i]) + InsnLen(img[Pos(st, st.fixes[i])]) <= |img|
    ensures DecodedAt(st, img, st.fixes[i], KindOf(st.fixes[i].howto.value).form) == Target(st, base, st.fixes[i])
  {
    hide DecodedAt, FieldValue, InsnLen, Target, Site, KindOf, Holds;
    DecodesToValue(gas, st, base, img, i);
    WholeIsValue(KindOf(st.fixes[i].howto.value).form, Target(st, base, st.fixes[i]));
  }

  /** An address field is the low 32 bits of the target. */
  lemma AddressFieldIsTarget(gas: Gas, st: State, base: bv64, img: seq<bv8>, i: nat)
    requires Linked(st) && i < |st.fixes| && FixupOk(st, st.fixes[i]) && InInstruction(gas, st, base, img, i)
    requires !st.fixes[i].howto.value.pcRelative && AddressForm(KindOf(st.fixes[i].howto.value).form)
    ensures Pos(st, st.fixes[i]) + InsnLen(img[Pos(st, st.fixes[i])]) <= |img|
    ensures DecodedAt(st, img, st.fixes[i], KindOf(st.fixes[i].howto.value).form) ==
      Low32(Target(st, base, st.fixes[i]))
  {
    hide DecodedAt, FieldValue, InsnLen, Target, Site, KindOf, Holds, Low32;
    DecodesToValue(gas, st, base, img, i);
    AddressIsCut(KindOf(st.fixes[i].howto.value).form, Target(st, base, st.fixes[i]));
  }

  /** A data field of 4 bytes, as in `.word label`, holds the low 32 bits of the value. */
  lemma DataFieldIsValue(gas: Gas, st: State, base: bv64, img: seq<bv8>, i: nat)
    requires Linked(st) && i < |st.fixes| && FixupOk(st, st.fixes[i]) && Resolved(gas, st, base, img, i)
    requires KindOf(st.fixes[i].howto.value) == Data(4)
    ensures Pos(st, st.fixes[i]) + 4 <= |img|
    ensures LeWord(img, Pos(st, st.fixes[i]), 4) == U32(ValueFor(gas, st, base, st.fixes[i], st.fixes[i].howto.value))
  {
    hide LeWord, ValueFor, U32, Suffix, InsnKind, InsnLen;
  }

  /** What whoever reads a reference in the bytes at `at` makes of it.  An instruction field that holds
      a whole value leads from the site to the target if it is pc-relative, and is the target if not;
      an address field is the low 32 bits of the target; the other fields are the half of the target
      that their form takes; data is the target, or the displacement to it, cut to its width. */
  ghost predicate ReadsAs(bytes: seq<bv8>, at: nat, h: Howto, site: bv64, target: bv64) {
    && at < |bytes| && h.name.Some?
    && match KindOf(h)
       case Insn(form) => InsnReadsAs(bytes, at, form, h.pcRelative, site, target)
       case Data(n) => at + n <= |bytes| && HoldsLow(bytes, at, n, if h.pcRelative then Minus(target, site) else target)
       case _ => false
  }

  ghost predicate InsnReadsAs(bytes: seq<bv8>, at: nat, form: Form, pcRelative: bool, site: bv64, target: bv64)
    requires at < |bytes|
  {
    var len := if bytes[at] & 1 != 0 then 4 else 2;
    && at + len <= |bytes|
    && var x := Decode(form, LeWord(bytes, at, len));
       && (pcRelative && WholeValue(form) ==> Plus(site, x) == target)
       && (!pcRelative && WholeValue(form) ==> x == target)
       && (!pcRelative && AddressForm(form) ==> x == Low32(target))
       && (!pcRelative ==> x == FieldValue(form, target))
  }

  /** The `n` bytes at `at` hold the low bytes of `v`. */
  predicate HoldsLow(bytes: seq<bv8>, at: nat, n: nat, v: bv64)
    requires n <= 4 && at + n <= |bytes|
  {
    LeWord(bytes, at, n) as bv64 == LowBytes(v, n)
  }

  /** The bits of a value that `n` bytes hold. */
  function LowBytes(v: bv64, n: nat): bv64 {
    if n == 1 then 0xff & v else if n == 2 then 0xffff & v else 0xffff_ffff & v
  }

  lemma CutTo1(v: bv64)
    ensures Cut(U32(v), 1) as bv64 == LowBytes(v, 1)
  {
  }

  lemma CutTo2(v: bv64)
    ensures Cut(U32(v), 2) as bv64 == LowBytes(v, 2)
  {
  }

  lemma CutTo4(v: bv64)
    ensures Cut(U32(v), 4) as bv64 == LowBytes(v, 4)
  {
  }

  lemma CutIsMasked(v: bv64, n: nat)
    requires n == 1 || n == 2 || n == 4
    ensures Cut(U32(v), n) as bv64 == LowBytes(v, n)
  {
    hide Cut, U32, LowBytes;
    if n == 1 {
      CutTo1(v);
    } else if n == 2 {
      CutTo2(v);
    } else {
      CutTo4(v);
    }
  }

  lemma HoldsIsLow(bytes: seq<bv8>, at: nat, n: nat, v: bv64)
    requires (n == 1 || n == 2 || n == 4) && at < |bytes| && Holds(bytes, at, Data(n), v)
    ensures at + n <= |bytes| && HoldsLow(bytes, at, n, v)
  {
    hide LeWord, U32, Cut, LowBytes, Decode, FieldValue;
    CutIsMasked(v, n);
  }

  lemma DataReads(gas: Gas, st: State, base: bv64, img: seq<bv8>, i: nat)
    requires Linked(st) && i < |st.fixes| && FixupOk(st, st.fixes[i]) && Resolved(gas, st, base, img, i)
    requires KindOf(st.fixes[i].howto.value).Data?
    ensures
      var fx := st.fixes[i];
      ReadsAs(img, Pos(st, fx), fx.howto.value, Site(gas, st, base, fx), Target(st, base, fx))
  {
    hide Target, Site, KindOf, Minus, Holds, HoldsLow, InsnReadsAs;
    var fx := st.fixes[i];
    HoldsIsLow(img, Pos(st, fx), KindOf(fx.howto.value).bytes, ValueFor(gas, st, base, fx, fx.howto.value));
  }

  lemma InsnReads(gas: Gas, st: State, base: bv64, img: seq<bv8>, i: nat)
    requires Linked(st) && i < |st.fixes| && FixupOk(st, st.fixes[i]) && InInstruction(gas, st, base, img, i)
    ensures
      var fx := st.fixes[i];
      ReadsAs(img, Pos(st, fx), fx.howto.value, Site(gas, st, base, fx), Target(st, base, fx))
  {
    hide Decode, LeWord, FieldValue, Target, Site, KindOf, Holds, Plus, Minus, WholeValue, AddressForm, Low32;
    var fx := st.fixes[i];
    var form := KindOf(fx.howto.value).form;
    DecodesToValue(gas, st, base, img, i);
    if WholeValue(form) {
      if fx.howto.value.pcRelative {
        DisplacementReachesTarget(gas, st, base, img, i);
      } else {
        AbsoluteFieldIsTarget(gas, st, base, img, i);
      }
    }
    if AddressForm(form) && !fx.howto.value.pcRelative {
      AddressFieldIsTarget(gas, st, base, img, i);
    }
  }

  /** A fixup whose value is in the bytes reaches its target. */
  lemma ResolvedReads(gas: Gas, st: State, base: bv64, img: seq<bv8>, i: nat)
    requires Linked(st) && i < |st.fixes| && FixupOk(st, st.fixes[i]) && Resolved(gas, st, base, img, i)
    ensures
      var fx := st.fixes[i];
      ReadsAs(img, Pos(st, fx), fx.howto.value, Site(gas, st, base, fx), Target(st, base, fx))
  {
    hide ReadsAs, InsnLen, LeWord, ValueFor, Suffix, InsnKind, Target, Site;
    match KindOf(st.fixes[i].howto.value)
    case Data(_) => DataReads(gas, st, base, img, i);
    case Insn(_) => InsnReads(gas, st, base, img, i);
  }

  /** Numbers become 64-bit words modulo 2^64. */
  lemma U64Is(n: nat)
    ensures U64(n) == (n % 0x1_0000_0000_0000_0000) as bv64
  {
  }

  /** In a laid out chain, the address of a label of the section is the base plus the bytes before it:
      those of all frags before its frag, and those before it in its frag. */
  lemma LabelAddress(st: State, base: bv64, fx: Fixup)
    requires WellFormed(st.chain) && AtAddresses(st.chain)
    requires FixupOk(st, fx) && Resolvable(st, fx) && st.symbols[fx.sym].place.InText?
    ensures
      var (f, off) := (st.symbols[fx.sym].place.frag, st.symbols[fx.sym].place.off);
      Target(st, base, fx) == Plus(Plus(base, U64(|Image(st.chain, f)| + off)), fx.offset)
  {
    hide Plus, Image, AtAddresses, U64;
    AddressIs(st.chain, st.symbols[fx.sym].place.frag);
  }

  /** A reference in `bytes`, the image of chain `c`, leads to its symbol.  It stands as many bytes into
      them as there are before its frag, and some into its frag; a label of the section is at the base
      plus the bytes before the label, counted in the same way; an absolute symbol is at its value. */
  ghost predicate Arrives(gas: Gas, st: State, base: bv64, c: Chain, bytes: seq<bv8>, i: nat)
    requires Linked(st) && i < |st.fixes| && WellFormed(c) && |c.frags| == |st.chain.frags|
  {
    var fx := st.fixes[i];
    && FixupOk(st, fx) && fx.sym >= 0 && fx.howto.Some?
    && var at, site := |Image(c, fx.frag)| + fx.at, Plus(base, gas.pcrelFrom(st.chain, fx));
       match st.symbols[fx.sym].place
       case InText(f, off) =>
         ReadsAs(bytes, at, fx.howto.value, site, Plus(Plus(base, U64(|Image(c, f)| + off)), fx.offset))
       case Absolute(v) => ReadsAs(bytes, at, fx.howto.value, site, Plus(v, fx.offset))
       case Undefined => false
  }

  /** A fixup whose value is in the bytes leads to its symbol. */
  lemma ResolvedArrives(gas: Gas, st: State, base: bv64, c: Chain, bytes: seq<bv8>, i: nat)
    requires Linked(st) && WellFormed(st.chain) && AtAddresses(st.chain)
    requires WellFormed(c) && |c.frags| == |st.chain.frags|
    requires forall k :: 0 <= k <= |c.frags| ==> Addr(c, k) == Addr(st.chain, k)
    requires i < |st.fixes| && FixupOk(st, st.fixes[i]) && Resolved(gas, st, base, bytes, i)
    ensures Arrives(gas, st, base, c, bytes, i)
  {
    hide Image, Addr, WellFormed, AtAddresses, Resolved, ReadsAs, Plus, Target, U64;
    var fx := st.fixes[i];
    ResolvedHasHowto(gas, st, base, bytes, i);
    ResolvedReads(gas, st, base, bytes, i);
    AddressIs(st.chain, fx.frag);
    if st.symbols[fx.sym].place.InText? {
      LabelAddress(st, base, fx);
    } else {
      AbsoluteAddress(st, base, fx);
    }
  }

  lemma AbsoluteAddress(st: State, base: bv64, fx: Fixup)
    requires FixupOk(st, fx) && Resolvable(st, fx) && st.symbols[fx.sym].place.Absolute?
    ensures Target(st, base, fx) == Plus(st.symbols[fx.sym].place.value, fx.offset)
  {
    hide Plus;
  }

  lemma ResolvedHasHowto(gas: Gas, st: State, base: bv64, img: seq<bv8>, i: nat)
    requires Linked(st) && i < |st.fixes| && FixupOk(st, st.fixes[i]) && Resolved(gas, st, base, img, i)
    ensures st.fixes[i].howto.Some? && Resolvable(st, st.fixes[i])
  {
    hide Holds, ValueFor;
  }

  // ----- relocations --------------------------------------------------------------------------------------

  /** `nyxstone_glue_reloc_t` */
  datatype Reloc = Reloc(offset: nat, addend: bv64, symbol: string, elfType: bv32)

  function RelocOf(st: State, fx: Fixup): Reloc
    requires FixupOk(st, fx) && Symbolic(fx)
  {
    Reloc(Pos(st, fx), fx.addNumber, st.symbols[fx.sym].name, if fx.howto.Some? then fx.howto.value.elfType else 0)
  }

  /** The entries for the first `n` fixups. */
  function Reported(st: State, n: nat): (r: seq<Reloc>)
    requires Linked(st) && n <= |st.fixes|
    ensures |r| == Unresolved(st, n)
  {
    if n == 0 then []
    else
      assert FixupOk(st, st.fixes[n - 1]);
      Reported(st, n - 1) + if Pending(st, st.fixes[n - 1]) then [RelocOf(st, st.fixes[n - 1])] else []
  }

  /** The pass changes no fixup but for what `md_apply_fix` records. */
  lemma AppliedFixups(gas: Gas, st: State, base: bv64, bufferOk: bool)
    requires Linked(st) && WellFormed(st.chain)
    ensures var after := Applied(gas, st, base, bufferOk).0;
      && after.symbols == st.symbols && |after.fixes| == |st.fixes| && |after.chain.frags| == |st.chain.frags|
      && (forall i :: 0 <= i < |st.fixes| ==>
            FixupOk(st, st.fixes[i]) && after.fixes[i] == Recorded(gas, st, st.fixes[i]))
      && after.fixes == RecordedAll(gas, st).fixes
      && Linked(after)
  {
    hide EncodeFirst, CopiedBack, Image, U64, Recorded, Unresolved;
    var after := Applied(gas, st, base, bufferOk).0;
    forall i | 0 <= i < |st.fixes|
      ensures FixupOk(st, st.fixes[i]) && after.fixes[i] == Recorded(gas, st, st.fixes[i])
        && FixupOk(after, after.fixes[i])
    {
      RecordedAt(gas, st, i);
    }
  }

  lemma AddendOneStep(gas: Gas, st: State, mid: State, base: bv64, e: Encoding, fx: Fixup)
    requires FixupOk(st, fx) && mid.chain == st.chain && mid.symbols == st.symbols
    ensures FixupOk(mid, Recorded(gas, st, fx))
    ensures EncodeOne(gas, mid, base, e, Recorded(gas, st, fx)) == EncodeOne(gas, st, base, e, fx)
  {
    hide Encoded, ValueFor, Pos, Minus;
    if Resolvable(st, fx) {
      SameValue(gas, st, mid, base, fx);
    }
  }

  /** Recording addends changes nothing for the encoding loop. */
  lemma {:induction false} AddendsDoNotMatter(gas: Gas, st: State, mid: State, base: bv64, img: seq<bv8>, n: nat)
    requires Linked(st) && Linked(mid) && n <= |st.fixes| == |mid.fixes|
    requires mid.chain == st.chain && mid.symbols == st.symbols
    requires forall i :: 0 <= i < |st.fixes| ==>
               FixupOk(st, st.fixes[i]) && mid.fixes[i] == Recorded(gas, st, st.fixes[i])
    ensures EncodeFirst(gas, mid, base, img, n) == EncodeFirst(gas, st, base, img, n)
  {
    hide EncodeOne, Recorded;
    if n > 0 {
      AddendsDoNotMatter(gas, st, mid, base, img, n - 1);
      assert FixupOk(st, st.fixes[n - 1]) && FixupOk(mid, mid.fixes[n - 1]);
      AddendOneStep(gas, st, mid, base, EncodeFirst(gas, st, base, img, n - 1), st.fixes[n - 1]);
    }
  }

  /** The count the pass returns is the number of relocations collected afterwards. */
  lemma UnresolvedAreReported(gas: Gas, st: State, base: bv64, bufferOk: bool)
    requires Linked(st) && WellFormed(st.chain)
    ensures var (after, unresolved) := Applied(gas, st, base, bufferOk);
      Linked(after) && |after.fixes| == |st.fixes| && |Reported(after, |after.fixes|)| == unresolved
  {
    hide EncodeFirst, CopiedBack, Image, Recorded, RecordedAll, Unresolved;
    AppliedFixups(gas, st, base, bufferOk);
    UnresolvedSame(RecordedAll(gas, st), Applied(gas, st, base, bufferOk).0, |st.fixes|);
  }

  lemma {:induction false} ReportedAt(st: State, n: nat, i: nat)
    requires Linked(st) && i < n <= |st.fixes| && FixupOk(st, st.fixes[i]) && Pending(st, st.fixes[i])
    ensures Unresolved(st, i) < Unresolved(st, n)
    ensures Reported(st, n)[Unresolved(st, i)] == RelocOf(st, st.fixes[i])
  {
    assert FixupOk(st, st.fixes[n - 1]);
    if i < n - 1 {
      ReportedAt(st, n - 1, i);
    }
  }

  /** The other way round: every entry is the entry of one pending fixup. */
  lemma {:induction false} ReportedFrom(st: State, n: nat, r: nat) returns (i: nat)
    requires Linked(st) && n <= |st.fixes| && r < |Reported(st, n)|
    ensures i < n && FixupOk(st, st.fixes[i]) && Pending(st, st.fixes[i])
    ensures r == Unresolved(st, i) && Reported(st, n)[r] == RelocOf(st, st.fixes[i])
  {
    assert FixupOk(st, st.fixes[n - 1]);
    if r < |Reported(st, n - 1)| {
      i := ReportedFrom(st, n - 1, r);
    } else {
      i := n - 1;
    }
  }

  /** Fixups are partitioned: after a silent pass each symbolic fixup is encoded in the extracted
      bytes if its symbol is defined; if not, gas has completed it or it has exactly one entry,
      entry number `Unresolved(after, i)` of the relocations.  Never two of the three. */
  lemma FixupsArePartitioned(gas: Gas, st: State, base: bv64, after: State, i: nat)
    requires Linked(st) && WellFormed(st.chain) && End(st.chain) > 0
    requires WellPlaced(st, Image(st.chain, |st.chain.frags|))
    requires Silent(gas, st, base, true, after)
    requires i < |st.fixes| && Symbolic(st.fixes[i])
    ensures Linked(after) && |after.fixes| == |st.fixes| && WellFormed(after.chain) && FixupOk(st, st.fixes[i])
    ensures FixupOk(after, after.fixes[i]) && after.fixes[i] == Recorded(gas, st, st.fixes[i])
    ensures Pending(after, after.fixes[i]) <==> !Defined(st, i) && !after.fixes[i].done
    ensures Defined(st, i) ==> Resolved(gas, st, base, Image(after.chain, |after.chain.frags|), i)
    ensures Pending(after, after.fixes[i]) ==>
              && Unresolved(after, i) < |Reported(after, |after.fixes|)|
              && Reported(after, |after.fixes|)[Unresolved(after, i)] == RelocOf(after, after.fixes[i])
  {
    hide Applied, EncodeFirst, Image, WellPlaced, Touched, RecordedAll;
    AppliedFixups(gas, st, base, true);
    EndToEnd(gas, st, base, after);
    assert FixupOk(st, st.fixes[i]) && FixupOk(after, after.fixes[i]);
    if Pending(after, after.fixes[i]) {
      ReportedAt(after, |after.fixes|, i);
    }
  }

  // ----- base invariance ------------------------------------------------------------------------------------

  /** The symbol table with the absolute symbols numbered in `ks` moved by `d`. */
  function Moved(symbols: seq<Symbol>, d: bv64, ks: set<int>): (r: seq<Symbol>)
    ensures |r| == |symbols|
  {
    seq(|symbols|, i requires 0 <= i < |symbols| =>
      match symbols[i].place
      case Absolute(v) => if i in ks then Symbol(symbols[i].name, Absolute(Plus(v, d))) else symbols[i]
      case _ => symbols[i])
  }

  function MovedState(st: State, d: bv64, ks: set<int>): (s: State)
    ensures s == st.(symbols := s.symbols) && |s.symbols| == |st.symbols|
  {
    st.(symbols := Moved(st.symbols, d, ks))
  }

  /** The fixup's target moves along with the base. */
  predicate Follows(st: State, ks: set<int>, fx: Fixup)
    requires FixupOk(st, fx) && Resolvable(st, fx)
  {
    st.symbols[fx.sym].place.InText? || fx.sym in ks
  }

  /** The same sums, with the base or the symbol moved. */
  lemma TargetMoved(base: bv64, x: bv64, offset: bv64, d: bv64)
    ensures Plus(Plus(Plus(base, d), x), offset) == Plus(Plus(Plus(base, x), offset), d)
    ensures Plus(Plus(x, d), offset) == Plus(Plus(x, offset), d)
  {
    hide *;
    PlusSwap(base, d, x);
    PlusSwap(Plus(base, x), d, offset);
    PlusSwap(x, d, offset);
  }

  lemma MovedPlace(st: State, d: bv64, ks: set<int>, i: nat)
    requires i < |st.symbols|
    ensures MovedState(st, d, ks).symbols[i].name == st.symbols[i].name
    ensures
      MovedState(st, d, ks).symbols[i].place ==
      match st.symbols[i].place
      case Absolute(v) => Absolute(if i in ks then Plus(v, d) else v)
      case other => other
  {
    hide Plus;
  }

  lemma TargetMoves(st: State, base: bv64, d: bv64, ks: set<int>, fx: Fixup)
    requires FixupOk(st, fx) && Resolvable(st, fx)
    ensures FixupOk(MovedState(st, d, ks), fx) && Resolvable(MovedState(st, d, ks), fx)
    ensures Target(MovedState(st, d, ks), Plus(base, d), fx) ==
            if Follows(st, ks, fx) then Plus(Target(st, base, fx), d) else Target(st, base, fx)
  {
    hide U64, Plus, Moved;
    MovedPlace(st, d, ks, fx.sym);
    match st.symbols[fx.sym].place
    case InText(f, off) => TargetMoved(base, U64(st.chain.frags[f].address + off), fx.offset, d);
    case Absolute(v) => TargetMoved(base, v, fx.offset, d);
  }

  /** The value for the field stays if it is a displacement to a target that moves along, or the
      address of a target that stays. */
  lemma ValueInvariant(gas: Gas, st: State, base: bv64, d: bv64, ks: set<int>, fx: Fixup, h: Howto)
    requires FixupOk(st, fx) && Resolvable(st, fx) && h.pcRelative == Follows(st, ks, fx)
    ensures FixupOk(MovedState(st, d, ks), fx) && Resolvable(MovedState(st, d, ks), fx)
    ensures ValueFor(gas, MovedState(st, d, ks), Plus(base, d), fx, h) == ValueFor(gas, st, base, fx, h)
  {
    hide Target, Plus, Minus, Follows;
    TargetMoves(st, base, d, ks, fx);
    if h.pcRelative {
      PlusSwap(base, d, gas.pcrelFrom(st.chain, fx));
      MoveCancels(Target(st, base, fx), Site(gas, st, base, fx), d);
    }
  }

  /** Of the references that get encoded, exactly those whose target moves along are pc-relative. */
  ghost predicate Movable(st: State, ks: set<int>)
    requires Linked(st)
  {
    forall i :: 0 <= i < |st.fixes| && Fielded(st, i) ==>
      st.fixes[i].howto.value.pcRelative == Follows(st, ks, st.fixes[i])
  }

  lemma MovedFixup(st: State, d: bv64, ks: set<int>, fx: Fixup)
    requires FixupOk(st, fx)
    ensures FixupOk(MovedState(st, d, ks), fx) && Resolvable(MovedState(st, d, ks), fx) == Resolvable(st, fx)
  {
  }

  lemma MovedLinked(st: State, d: bv64, ks: set<int>)
    requires Linked(st)
    ensures Linked(MovedState(st, d, ks))
  {
    forall i | 0 <= i < |st.fixes|
      ensures FixupOk(MovedState(st, d, ks), st.fixes[i])
    {
      assert FixupOk(st, st.fixes[i]);
      MovedFixup(st, d, ks, st.fixes[i]);
    }
  }

  lemma EncodeOneMoved(gas: Gas, st: State, base: bv64, d: bv64, ks: set<int>, e: Encoding, fx: Fixup)
    requires FixupOk(st, fx) && (HasField(st, fx) ==> fx.howto.value.pcRelative == Follows(st, ks, fx))
    ensures FixupOk(MovedState(st, d, ks), fx)
    ensures EncodeOne(gas, MovedState(st, d, ks), Plus(base, d), e, fx) == EncodeOne(gas, st, base, e, fx)
  {
    hide ValueFor, Encoded, Plus, Follows, Moved, Resolvable;
    MovedFixup(st, d, ks, fx);
    if HasField(st, fx) {
      ValueInvariant(gas, st, base, d, ks, fx, fx.howto.value);
    } else if Resolvable(st, fx) && fx.howto.Some? {
      var h := fx.howto.value;
      EncodedNameless(e.img, Pos(st, fx), h, ValueFor(gas, st, base, fx, h));
      EncodedNameless(e.img, Pos(st, fx), h, ValueFor(gas, MovedState(st, d, ks), Plus(base, d), fx, h));
    }
  }

  lemma {:induction false} EncodingInvariant(gas: Gas, st: State, base: bv64, d: bv64, ks: set<int>, img: seq<bv8>,
    n: nat)
    requires Linked(st) && Movable(st, ks) && n <= |st.fixes|
    ensures Linked(MovedState(st, d, ks))
    ensures EncodeFirst(gas, MovedState(st, d, ks), Plus(base, d), img, n) == EncodeFirst(gas, st, base, img, n)
  {
    hide EncodeOne, Plus, Moved, HasField, Follows;
    MovedLinked(st, d, ks);
    if n > 0 {
      EncodingInvariant(gas, st, base, d, ks, img, n - 1);
      assert FixupOk(st, st.fixes[n - 1]);
      assert Fielded(st, n - 1) == HasField(st, st.fixes[n - 1]);
      EncodeOneMoved(gas, st, base, d, ks, EncodeFirst(gas, st, base, img, n - 1), st.fixes[n - 1]);
    }
  }

  lemma {:induction false} UnresolvedMoved(st: State, d: bv64, ks: set<int>, n: nat)
    requires Linked(st) && n <= |st.fixes|
    ensures Linked(MovedState(st, d, ks))
    ensures Unresolved(MovedState(st, d, ks), n) == Unresolved(st, n)
  {
    hide Moved, Resolvable;
    MovedLinked(st, d, ks);
    if n > 0 {
      UnresolvedMoved(st, d, ks, n - 1);
      assert FixupOk(st, st.fixes[n - 1]);
      MovedFixup(st, d, ks, st.fixes[n - 1]);
      assert Pending(MovedState(st, d, ks), st.fixes[n - 1]) == Pending(st, st.fixes[n - 1]);
    }
  }

  lemma RecordedMoved(gas: Gas, st: State, d: bv64, ks: set<int>, fx: Fixup)
    requires FixupOk(st, fx)
    ensures FixupOk(MovedState(st, d, ks), fx) && Recorded(gas, MovedState(st, d, ks), fx) == Recorded(gas, st, fx)
  {
    hide Plus, Minus;
    MovedFixup(st, d, ks, fx);
  }

  lemma AllRecordedMoved(gas: Gas, st: State, d: bv64, ks: set<int>)
    requires Linked(st)
    ensures Linked(MovedState(st, d, ks))
    ensures RecordedAll(gas, MovedState(st, d, ks)) == MovedState(RecordedAll(gas, st), d, ks)
  {
    hide Moved, Recorded, RecordedAll;
    MovedLinked(st, d, ks);
    forall i | 0 <= i < |st.fixes|
      ensures RecordedAll(gas, MovedState(st, d, ks)).fixes[i] == RecordedAll(gas, st).fixes[i]
    {
      RecordedAt(gas, st, i);
      RecordedAt(gas, MovedState(st, d, ks), i);
      RecordedMoved(gas, st, d, ks, st.fixes[i]);
    }
    assert RecordedAll(gas, MovedState(st, d, ks)).fixes == RecordedAll(gas, st).fixes;
  }

  /** Moving the base address and the absolute symbols in `ks` by the same amount changes neither the
      bytes nor the verdict of the pass. */
  lemma BaseInvariance(gas: Gas, st: State, base: bv64, d: bv64, ks: set<int>, bufferOk: bool)
    requires Linked(st) && WellFormed(st.chain) && Movable(st, ks)
    ensures Linked(MovedState(st, d, ks))
    ensures
      var (after, n) := Applied(gas, st, base, bufferOk);
      Applied(gas, MovedState(st, d, ks), Plus(base, d), bufferOk) == (MovedState(after, d, ks), n)
  {
    hide EncodeFirst, Image, CopiedBack, Moved, RecordedAll, Unresolved, Plus;
    EncodingInvariant(gas, st, base, d, ks, Image(st.chain, |st.chain.frags|), |st.fixes|);
    AllRecordedMoved(gas, st, d, ks);
    UnresolvedMoved(RecordedAll(gas, st), d, ks, |st.fixes|);
  }
}
