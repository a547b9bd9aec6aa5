/** From printed data to the bytes a call returns: the front end, gas taking the bytes, and the whole
    back end.  Sections of plain bytes pass through the back end unchanged.
 */
module Pipeline {
  import opened Options
  import opened Encode
  import opened Frags
  import opened Fixups
  import opened Passes
  import opened TextSection
  import opened Directives
  import opened PrintParse
  import opened Driver
  import Guarantees
  import Scanner

  /** A character of the source as the byte it is. */
  function ByteOf(c: char): bv8 {
    (c as int % 256) as bv8
  }

  function BytesOf(s: string): (b: seq<bv8>)
    ensures |b| == |s|
  {
    seq(|s|, i requires 0 <= i < |s| => ByteOf(s[i]))
  }

  /** The bytes in the fixed parts of the first `n` frags. */
  function Fixed(c: Chain, n: nat): seq<bv8>
    requires AllRoomy(c) && n <= |c.frags|
  {
    if n == 0 then []
    else
      assert Roomy(c, n - 1);
      Fixed(c, n - 1) + c.frags[n - 1].literal[..FixSize(c, n - 1)]
  }

  /** A frag that holds nothing but its bytes. */
  predicate PlainFrag(f: Frag) {
    (f.kind.Fill? || f.kind.Zeroed?) && f.offset == 0
  }

  predicate PlainChain(c: Chain) {
    forall i :: 0 <= i < |c.frags| ==> PlainFrag(c.frags[i])
  }

  /** A section of plain bytes: no reference, no symbol, no error. */
  predicate PlainBytes(p: State, data: seq<bv8>) {
    && AllRoomy(p.chain) && PlainChain(p.chain)
    && p.errors == 0 && p.fixes == [] && Fixed(p.chain, |p.chain.frags|) == data
  }

  predicate OnlyBytes(events: seq<Event>) {
    forall i :: 0 <= i < |events| ==> events[i].Bytes?
  }

  /** gas puts bytes it is handed into the section, however it cuts them into frags. */
  ghost predicate TakesBytes(a: Assembler) {
    forall events: seq<Event> :: OnlyBytes(events) ==> PlainBytes(a.parse(events), BytesOf(Emitted(events)))
  }

  // ----- the back end on plain bytes --------------------------------------------------------------------

  /** The chain after layout: same bytes, sizes in `fix`, nothing left open. */
  predicate Steady(c: Chain, d: Chain) {
    && |d.frags| == |c.frags| && d.live == c.live
    && forall i :: 0 <= i < |c.frags| ==>
         && d.frags[i].kind.Fill? && d.frags[i].offset == 0 && d.frags[i].literal == c.frags[i].literal
         && d.frags[i].fix == FixSize(c, i)
  }

  lemma SteadyKept(c: Chain, d: Chain, e: Chain)
    requires Steady(c, d) && |e.frags| == |d.frags| && e.live == d.live
    requires forall i :: 0 <= i < |d.frags| ==> e.frags[i] == d.frags[i].(address := e.frags[i].address)
    ensures Steady(c, e)
  {
  }

  lemma StartSteady(m: Machine, symbols: seq<Symbol>, c: Chain)
    requires SubtypesOk(m.table, c) && PlainChain(c)
    ensures Steady(c, Start(m.table, symbols, c))
  {
    hide Addr;
    PreparedSubtypes(m.table, c);
    var d := Start(m.table, symbols, c);
    forall i | 0 <= i < |c.frags|
      ensures d.frags[i].kind.Fill? && d.frags[i].offset == 0 && d.frags[i].literal == c.frags[i].literal
      ensures d.frags[i].fix == FixSize(c, i)
    {
      assert PlainFrag(c.frags[i]);
      assert SubtypeOk(m.table, LaidOut(Prepared(c)).frags[i]);
    }
  }

  lemma NothingRelaxes(m: Machine, symbols: seq<Symbol>, c: Chain, d: Chain)
    requires SubtypesOk(m.table, d) && Steady(c, d)
    ensures RelaxLoop(m, symbols, d, 0) == d
  {
    var e := RelaxPass(m, symbols, d, 0);
    forall i | 0 <= i < |d.frags|
      ensures e.frags[i] == d.frags[i]
    {
      assert SubtypeOk(m.table, d.frags[i]);
    }
    assert e.frags == d.frags;
  }

  lemma {:induction false} NothingConverts(m: Machine, c: Chain, d: Chain, n: nat)
    requires Steady(c, d) && n <= |d.frags|
    ensures ConvertFirst(m, d, n) == (d, [])
  {
    if n > 0 {
      NothingConverts(m, c, d, n - 1);
    }
  }

  lemma FinalizedSteady(c: Chain, d: Chain)
    requires Steady(c, d)
    ensures Steady(c, LaidOut(Finalized(d))) && OrgErrors(d, |d.frags|) == 0
  {
    hide Settled, Addr;
    forall i | 0 <= i < |d.frags|
      ensures Finalized(d).frags[i] == d.frags[i].(address := Finalized(d).frags[i].address)
    {
      FinalizedAt(d, i);
    }
    SteadyKept(c, d, LaidOut(Finalized(d)));
    NoOrgFrags(d, |d.frags|);
  }

  lemma {:induction false} NoOrgFrags(c: Chain, n: nat)
    requires n <= |c.frags| && forall i :: 0 <= i < |c.frags| ==> c.frags[i].kind.Fill?
    ensures OrgErrors(c, n) == 0
  {
    if n > 0 {
      NoOrgFrags(c, n - 1);
    }
  }

  /** Nothing happens to plain bytes before the fixups. */
  lemma PlainBeforeFixups(m: Machine, st: State)
    requires Parsed(m, st) && PlainChain(st.chain) && st.fixes == []
    ensures Steady(st.chain, BeforeFixups(m, st).chain)
    ensures BeforeFixups(m, st).fixes == [] && BeforeFixups(m, st).errors == st.errors
  {
    hide Start, Finalized, OrgErrors, Steady, PlainChain, RelaxLoop, ConvertFirst;
    var c := st.chain;
    StartSteady(m, st.symbols, c);
    var d := Start(m.table, st.symbols, c);
    NothingRelaxes(m, st.symbols, c, d);
    NothingConverts(m, c, d, |d.frags|);
    FinalizedSteady(c, d);
  }

  lemma {:induction false} SteadyImage(c: Chain, d: Chain, n: nat)
    requires AllRoomy(c) && Steady(c, d) && WellFormed(d) && n <= |c.frags|
    ensures Image(d, n) == Fixed(c, n)
  {
    if n > 0 {
      hide Fixed, Image;
      SteadyImage(c, d, n - 1);
      assert Roomy(c, n - 1);
      ImageStep(d, n);
      FixedStep(c, n);
      assert Filler(d.frags[n - 1]) == [];
      assert Image(d, n - 1) + d.frags[n - 1].literal[..d.frags[n - 1].fix] + [] ==
        Image(d, n - 1) + d.frags[n - 1].literal[..d.frags[n - 1].fix];
    }
  }

  lemma FixedStep(c: Chain, n: nat)
    requires AllRoomy(c) && 0 < n <= |c.frags|
    ensures Roomy(c, n - 1) && Fixed(c, n) == Fixed(c, n - 1) + c.frags[n - 1].literal[..FixSize(c, n - 1)]
  {
    assert Roomy(c, n - 1);
  }

  /** Without fixups, applying them changes neither the image nor the counters. */
  lemma NothingApplied(gas: Gas, st: State, base: bv64, bufferOk: bool)
    requires Linked(st) && WellFormed(st.chain) && st.fixes == []
    ensures
      var (after, n) := Applied(gas, st, base, bufferOk);
      && n == 0 && after.errors == st.errors && after.unsupported.None? && after.fixes == []
      && WellFormed(after.chain) && |after.chain.frags| == |st.chain.frags|
      && Image(after.chain, |after.chain.frags|) == Image(st.chain, |st.chain.frags|)
  {
    hide Image, CopiedBack, FillsAgree;
    var img := Image(st.chain, |st.chain.frags|);
    OwnFills(st.chain);
    CopyBackExtracts(st.chain, img);
    AppliedFixups(gas, st, base, bufferOk);
    assert EncodeFirst(gas, st, base, img, 0) == Encoding(img, None, 0);
  }

  lemma OwnFills(c: Chain)
    requires WellFormed(c)
    ensures FillsAgree(c, Image(c, |c.frags|))
  {
  }

  /** A section of plain bytes is returned as it is, at any address. */
  lemma PlainBytesReturned(m: Machine, st: State, base: bv64, bufferOk: bool)
    requires Parsed(m, st) && ConvertsWell(m) && PlainChain(st.chain) && st.fixes == []
    ensures
      var (after, n) := Resolve(m, st, base, bufferOk);
      && n == 0 && after.errors == st.errors && after.unsupported.None? && after.fixes == []
      && WellFormed(after.chain) && Image(after.chain, |after.chain.frags|) == Fixed(st.chain, |st.chain.frags|)
  {
    hide BeforeFixups, Applied, Image, Fixed, Steady, PlainChain, ConvertsWell;
    ReadyForFixups(m, st);
    PlainBeforeFixups(m, st);
    var s := BeforeFixups(m, st);
    NothingApplied(m.gas, s, base, bufferOk);
    SteadySame(st.chain, s.chain);
    SteadyImage(st.chain, s.chain, |st.chain.frags|);
  }

  lemma SteadySame(c: Chain, d: Chain)
    requires Steady(c, d)
    ensures |d.frags| == |c.frags|
  {
  }

  // ----- the whole way ---------------------------------------------------------------------------------------

  lemma {:induction false} ListIsBytes(f: Front, values: seq<int>, width: nat)
    requires OnlyBytes(f.events)
    ensures OnlyBytes(EmitValues(f, values, width).events)
    decreases |values|
  {
    if values != [] {
      hide LittleEndian;
      ListIsBytes(f.EmitBytes(LittleEndian(values[0], width)), values[1..], width);
    }
  }

  lemma {:induction false} MeaningIsOnlyBytes(f: Front, ds: seq<Datum>)
    requires OnlyBytes(f.events)
    ensures OnlyBytes(MeaningAll(f, ds).events)
    decreases |ds|
  {
    if ds != [] {
      hide EmitValues;
      match ds[0] {
        case Text(bytes, zero) =>
        case Numbers(values, width) => ListIsBytes(f, values, width);
      }
      MeaningIsOnlyBytes(Meaning(f, ds[0]), ds[1..]);
    }
  }

  /** Data survives the whole assembler: print any strings and integers, assemble the text at any
      address, and the call returns exactly their bytes. */
  lemma PrintedDataIsReturned(a: Assembler, st: State, ds: seq<Datum>, address: bv64, bufferOk: bool)
    requires Sound(a) && TakesBytes(a)
    requires forall i :: 0 <= i < |ds| ==> Printable(ds[i])
    ensures
      Assembled(a, st, Call(PrintAll(ds), address, [], false, bufferOk)).1 ==
      Success(AssembleCore(BytesOf(AllBytes(ds)), []))
  {
    hide Sound, Source, Resolve, ConvertsWell, Parsed, PrintAll, Image, Fixed, Printable, AllBytes, BytesOf, Emitted,
      OnlyBytes;
    var c := Call(PrintAll(ds), address, [], false, bufferOk);
    PrintedProgramAssembles(ds);
    SourceIsBytes(ds);
    var events := Source(c.source).events;
    var p := a.parse(events);
    assert PlainBytes(p, BytesOf(Emitted(events)));
    AfterParseParsed(a, st, c);
    SoundConverts(a);
    var q := AfterParse(a, st, c);
    assert q == Loaded(st, p);
    PlainBytesReturned(a.machine, q, address, bufferOk);
    ResolvedReadable(a.machine, q, address, bufferOk);
  }

  lemma SourceIsBytes(ds: seq<Datum>)
    requires forall i :: 0 <= i < |ds| ==> Printable(ds[i])
    ensures OnlyBytes(Source(PrintAll(ds)).events)
  {
    hide Scanner.Statements, AllStatements, MeaningAll, Print, Scanner.Clean, PrintAll, Printable;
    PrintedIsMeaning(ds);
    MeaningIsOnlyBytes(START, ds);
  }
}
