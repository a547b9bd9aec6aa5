/** What a caller of the library may rely on, whatever was assembled before: calls do not influence
    each other, success is never silent about a failure, label definitions take effect or are
    rejected, bytes do not depend on the base address, disassembly covers its input.
 */
module Guarantees {
  import opened Options
  import opened Encode
  import opened Frags
  import opened Fixups
  import opened RelaxChain
  import opened Passes
  import opened TextSection
  import opened Directives
  import DirectiveLaws
  import opened Driver
  import opened Disassembler

  // ----- history independence -----------------------------------------------------------------------

  /** The same section, but for what was reported. */
  predicate SameSection(st: State, s: State) {
    s == st.(errors := s.errors, unsupported := s.unsupported)
  }

  lemma {:induction false} DefiningIgnoresReports(st: State, s: State, labels: seq<LabelDefinition>)
    requires SameSection(st, s)
    ensures SameSection(DefinedAll(st, labels), DefinedAll(s, labels))
    ensures DefinedAll(st, labels).errors - st.errors == DefinedAll(s, labels).errors - s.errors
    decreases |labels|
  {
    if labels != [] {
      var n, v := labels[0].name, labels[0].address;
      DefiningIgnoresReports(DefinedAbs(st, n, v), DefinedAbs(s, n, v), labels[1..]);
    }
  }

  lemma ParseForgets(a: Assembler, st: State, s: State, c: Call)
    ensures SameSection(AfterParse(a, st, c), AfterParse(a, s, c))
    ensures AfterParse(a, st, c).errors - st.errors == AfterParse(a, s, c).errors - s.errors
  {
    hide DefinedAll, Source;
    var p := a.parse(Source(c.source).events);
    DefiningIgnoresReports(Loaded(st, p), Loaded(s, p), c.labels);
  }

  lemma {:induction false} ReportsIgnoreErrors(st: State, s: State, n: nat)
    requires SameSection(st, s) && Linked(st) && Linked(s) && n <= |st.fixes|
    ensures Reported(s, n) == Reported(st, n)
  {
    if n > 0 {
      ReportsIgnoreErrors(st, s, n - 1);
      assert FixupOk(st, st.fixes[n - 1]) && FixupOk(s, s.fixes[n - 1]);
    }
  }

  lemma VerdictForgets(c: Call, e: nat, f: nat, st: State, s: State, n: nat)
    requires Linked(st) && WellFormed(st.chain) && Linked(s)
    requires SameSection(st, s) && s.unsupported == st.unsupported && st.errors - e == s.errors - f
    ensures Verdict(c, e, st, n) == Verdict(c, f, s, n)
  {
    hide Reported, Image, Infos, Names;
    ReportsIgnoreErrors(st, s, |st.fixes|);
  }

  /** The result of a call does not depend on the state in which it finds the library: not on the
      error counter, not on `g_unsupported_reloc`, not on the last section. */
  lemma HistoryIndependence(a: Assembler, st: State, s: State, c: Call)
    requires Sound(a)
    ensures Assembled(a, st, c).1 == Assembled(a, s, c).1
  {
    hide Sound, Source, Resolve, Verdict, AfterParse, ConvertsWell, Parsed;
    ParseForgets(a, st, s, c);
    AfterParseParsed(a, st, c);
    AfterParseParsed(a, s, c);
    SoundConverts(a);
    var p, q := AfterParse(a, st, c), AfterParse(a, s, c);
    ResolutionIgnoresReports(a.machine, p, q, c.address, c.bufferOk);
    ResolvedReadable(a.machine, p, c.address, c.bufferOk);
    ResolvedReadable(a.machine, q, c.address, c.bufferOk);
    var (x, n) := Resolve(a.machine, p, c.address, c.bufferOk);
    var (y, m) := Resolve(a.machine, q, c.address, c.bufferOk);
    if p.errors == st.errors {
      VerdictForgets(c, st.errors, s.errors, x, y, n);
    }
  }

  /** The results of a sequence of calls. */
  function Session(a: Assembler, st: State, calls: seq<Call>): (r: seq<Result<AssembleCore>>)
    requires Sound(a)
    ensures |r| == |calls|
    decreases |calls|
  {
    if calls == [] then []
    else
      var (s, r) := Assembled(a, st, calls[0]);
      [r] + Session(a, s, calls[1..])
  }

  /** In a sequence of calls, failed ones included, each call gets the result it would get on a
      freshly started library. */
  lemma {:induction false} SessionForgets(a: Assembler, st: State, other: State, calls: seq<Call>, i: nat)
    requires Sound(a) && i < |calls|
    ensures Session(a, st, calls)[i] == Assembled(a, other, calls[i]).1
    decreases |calls|
  {
    hide Sound, Assembled;
    if i == 0 {
      HistoryIndependence(a, st, other, calls[0]);
    } else {
      SessionForgets(a, Assembled(a, st, calls[0]).0, other, calls[1..], i - 1);
    }
  }

  // ----- no silent failure ---------------------------------------------------------------------------

  /** Nothing is left for a linker to fill in. */
  ghost predicate NothingPending(s: State)
    requires Linked(s)
  {
    forall i :: 0 <= i < |s.fixes| ==> FixupOk(s, s.fixes[i]) && !Pending(s, s.fixes[i])
  }

  lemma {:induction false} NoneUnresolved(s: State, n: nat, i: nat)
    requires Linked(s) && i < n <= |s.fixes| && Unresolved(s, n) == 0
    ensures FixupOk(s, s.fixes[i]) && !Pending(s, s.fixes[i])
  {
    assert FixupOk(s, s.fixes[n - 1]);
    if i < n - 1 {
      NoneUnresolved(s, n - 1, i);
    }
  }

  /** A call that succeeds met no error of any kind, and in plain mode left nothing unresolved. */
  lemma SuccessIsClean(a: Assembler, st: State, c: Call)
    requires Sound(a) && Assembled(a, st, c).1.Success?
    ensures Source(c.source).error.NoError? && !Source(c.source).violation
    ensures a.parse(Source(c.source).events).errors == 0 && AfterParse(a, st, c).errors == st.errors
    ensures Parsed(a.machine, AfterParse(a, st, c)) && ConvertsWell(a.machine)
    ensures
      var (s, r) := Assembled(a, st, c);
      && s == Resolve(a.machine, AfterParse(a, st, c), c.address, c.bufferOk).0
      && s.errors == st.errors && s.unsupported.None?
      && Linked(s) && WellFormed(s.chain) && r.value.bytes == Image(s.chain, |s.chain.frags|)
      && (c.withRelocs ==> r.value.relocations == Infos(c, Reported(s, |s.fixes|)))
      && (!c.withRelocs ==> NothingPending(s))
  {
    hide Sound, Source, Resolve, Image, DefinedAll, Reported, ConvertsWell, Parsed, Unresolved;
    AfterParseParsed(a, st, c);
    SoundConverts(a);
    var p := AfterParse(a, st, c);
    ParsedGrows(a, st, c);
    ResolvedReadable(a.machine, p, c.address, c.bufferOk);
    var s := Assembled(a, st, c).0;
    ReportedLength(s);
    if !c.withRelocs {
      forall i | 0 <= i < |s.fixes|
        ensures FixupOk(s, s.fixes[i]) && !Pending(s, s.fixes[i])
      {
        NoneUnresolved(s, |s.fixes|, i);
      }
    }
  }

  lemma ParsedGrows(a: Assembler, st: State, c: Call)
    requires Sound(a)
    ensures AfterParse(a, st, c).errors >= st.errors + a.parse(Source(c.source).events).errors
  {
    hide ConvertsWell, DefinedAll, Source;
    var p := a.parse(Source(c.source).events);
    assert Parsed(a.machine, p) && Parsed(a.machine, Loaded(st, p));
    DefinedAllParsed(a.machine, Loaded(st, p), c.labels);
  }

  /** The state in which the fixups of a call get applied. */
  function Laid(a: Assembler, st: State, c: Call): (s: State)
    requires Sound(a)
    ensures Linked(s) && WellFormed(s.chain)
  {
    AfterParseParsed(a, st, c);
    SoundConverts(a);
    ReadyForFixups(a.machine, AfterParse(a, st, c));
    BeforeFixups(a.machine, AfterParse(a, st, c))
  }

  /** From source to bytes: after a call that succeeds, every fixup with a defined symbol carries
      its value in the bytes the call returns. */
  lemma SuccessIsResolved(a: Assembler, st: State, c: Call)
    requires Sound(a) && Assembled(a, st, c).1.Success? && c.bufferOk
    ensures AllLanded(a.machine.gas, Laid(a, st, c), c.address, Assembled(a, st, c).0)
    ensures AtAddresses(Laid(a, st, c).chain) && WellFormed(Assembled(a, st, c).0.chain)
    ensures Assembled(a, st, c).1.value.bytes == Image(Assembled(a, st, c).0.chain, |Assembled(a, st, c).0.chain.frags|)
  {
    hide Sound, Source, Resolve, Image, DefinedAll, ConvertsWell, Parsed, AllLanded, BeforeFixups, AfterParse,
      Assembled, AtAddresses;
    SuccessIsClean(a, st, c);
    ResolveEndToEnd(a.machine, AfterParse(a, st, c), c.address);
  }

  lemma LandedIsResolved(gas: Gas, s: State, base: bv64, after: State, i: nat)
    requires Linked(s) && WellFormed(s.chain) && AllLanded(gas, s, base, after)
    requires i < |s.fixes| && Defined(s, i)
    ensures WellFormed(after.chain) && FixupOk(s, s.fixes[i])
    ensures Resolved(gas, s, base, Image(after.chain, |after.chain.frags|), i)
  {
    hide Image, Resolved, FieldLen;
    var img, out := Image(s.chain, |s.chain.frags|), Image(after.chain, |after.chain.frags|);
    assert Landed(gas, s, base, img, out, i);
  }

  /** The section a call leaves behind is laid out as its fixups saw it. */
  lemma LeftAsLaid(a: Assembler, st: State, c: Call)
    requires Sound(a) && Assembled(a, st, c).1.Success?
    ensures
      var s, after := Laid(a, st, c), Assembled(a, st, c).0;
      && WellFormed(after.chain) && Linked(after)
      && |after.chain.frags| == |s.chain.frags| && |after.fixes| == |s.fixes| && after.symbols == s.symbols
      && (forall k :: 0 <= k <= |s.chain.frags| ==> Addr(after.chain, k) == Addr(s.chain, k))
      && AtAddresses(s.chain) && AtAddresses(after.chain) && FixesPlaced(s.chain, s.fixes)
      && (forall i :: 0 <= i < |s.fixes| ==>
            FixupOk(s, s.fixes[i]) && after.fixes[i] == Recorded(a.machine.gas, s, s.fixes[i]))
  {
    hide Sound, Source, ConvertsWell, Parsed, BeforeFixups, AfterParse, Assembled, Applied, Recorded, Image, Addr,
      FixesPlaced, AtAddresses;
    SuccessIsClean(a, st, c);
    FieldsArePlaced(a.machine, AfterParse(a, st, c));
    FixesArePlaced(a.machine, AfterParse(a, st, c));
    AppliedFixups(a.machine.gas, Laid(a, st, c), c.address, c.bufferOk);
    AppliedShape(a.machine.gas, Laid(a, st, c), c.address, c.bufferOk);
  }

  lemma AppliedShape(gas: Gas, st: State, base: bv64, bufferOk: bool)
    requires Linked(st) && WellFormed(st.chain)
    ensures
      var c := Applied(gas, st, base, bufferOk).0.chain;
      && WellFormed(c) && |c.frags| == |st.chain.frags|
      && (forall k :: 0 <= k <= |st.chain.frags| ==> Addr(c, k) == Addr(st.chain, k))
      && (AtAddresses(st.chain) ==> AtAddresses(c))
  {
    hide EncodeFirst, CopiedBack, Image, WellFormed, Unresolved, RecordedAll, Addr;
    var img := EncodeFirst(gas, st, base, Image(st.chain, |st.chain.frags|), |st.fixes|).img;
    CopiedBackShape(st.chain, img);
    CopiedAddresses(st.chain, img);
  }

  lemma CopiedAddresses(c: Chain, img: seq<bv8>)
    requires WellFormed(c)
    ensures forall i :: 0 <= i < |c.frags| ==> CopiedBack(c, img).frags[i].address == c.frags[i].address
  {
    forall i | 0 <= i < |c.frags|
      ensures CopiedBack(c, img).frags[i].address == c.frags[i].address
    {
      assert Backed(c, i);
    }
  }

  /** From source to targets: whoever reads a reference to a defined symbol in the bytes that a call
      returns arrives at the symbol. */
  lemma ReferencesArrive(a: Assembler, st: State, c: Call, i: nat)
    requires Sound(a) && Assembled(a, st, c).1.Success? && c.bufferOk
    requires i < |Laid(a, st, c).fixes| && Defined(Laid(a, st, c), i)
    ensures
      var s, after, bytes := Laid(a, st, c), Assembled(a, st, c).0.chain, Assembled(a, st, c).1.value.bytes;
      && WellFormed(after) && |after.frags| == |s.chain.frags| && bytes == Image(after, |after.frags|)
      && Arrives(a.machine.gas, s, c.address, after, bytes, i)
  {
    hide Sound, Image, AllLanded, Assembled, AtAddresses, Resolved, Laid, Arrives, Landed, Recorded, Addr;
    SuccessIsResolved(a, st, c);
    LeftAsLaid(a, st, c);
    var s, after := Laid(a, st, c), Assembled(a, st, c).0;
    LandedIsResolved(a.machine.gas, s, c.address, after, i);
    ResolvedArrives(a.machine.gas, s, c.address, after.chain, Image(after.chain, |after.chain.frags|), i);
  }

  /** A call that succeeds has encoded a reference that was not right already if and only if the image
      buffer could be allocated. */
  lemma EncodedExactlyWithBuffer(a: Assembler, st: State, c: Call, i: nat)
    requires Sound(a) && Assembled(a, st, c).1.Success?
    requires i < |Laid(a, st, c).fixes| && Defined(Laid(a, st, c), i)
    requires
      var s := Laid(a, st, c);
      !Resolved(a.machine.gas, s, c.address, Image(s.chain, |s.chain.frags|), i)
    ensures Resolved(a.machine.gas, Laid(a, st, c), c.address, Assembled(a, st, c).1.value.bytes, i) <==> c.bufferOk
  {
    hide Sound, Source, Resolve, Image, DefinedAll, ConvertsWell, Parsed, BeforeFixups, AfterParse, Assembled, Resolved;
    SuccessIsClean(a, st, c);
    ResolvedIffBuffer(a.machine, AfterParse(a, st, c), c.address, c.bufferOk, i);
  }

  /** What `md_apply_fix` makes of a fixup against an undefined symbol: it is handed the offset, counted
      from the place of the fixup if that is pc-relative. */
  function Completion(gas: Gas, s: State, fx: Fixup): Recording {
    gas.applyFix(fx, if fx.pcrel then Minus(fx.offset, gas.pcrelFrom(s.chain, fx)) else fx.offset)
  }

  /** Fixup `i` is against an undefined symbol, and gas does not complete it: the linker has to. */
  predicate LeftOpen(gas: Gas, s: State, i: nat)
    requires Linked(s) && i < |s.fixes|
  {
    var fx := s.fixes[i];
    && FixupOk(s, fx) && fx.sym >= 0 && s.symbols[fx.sym].place.Undefined?
    && !fx.done && !Completion(gas, s, fx).done
  }

  /** The first label of that name; the number of labels if there is none. */
  function FirstLabel(labels: seq<LabelDefinition>, name: string): (j: nat)
    ensures j <= |labels| && (j < |labels| ==> labels[j].name == name)
    ensures forall k :: 0 <= k < j ==> labels[k].name != name
    decreases |labels|
  {
    if labels == [] || labels[0].name == name then 0 else 1 + FirstLabel(labels[1..], name)
  }

  /** The relocation for fixup `i`: at the base address plus the bytes before the fixup, which lie in
      `bytes`, the image of chain `after`; with the name of the symbol, the addend gas has recorded, the
      ELF type of the howto, and the address of the first label of that name. */
  ghost predicate EntryOf(gas: Gas, s: State, c: Call, after: Chain, bytes: seq<bv8>, e: RelocationInfo, i: nat)
    requires Linked(s) && i < |s.fixes| && WellFormed(after) && |after.frags| == |s.chain.frags|
  {
    var fx := s.fixes[i];
    && LeftOpen(gas, s, i)
    && var n, j := |Image(after, fx.frag)| + fx.at, FirstLabel(c.labels, s.symbols[fx.sym].name);
       && n < |bytes| && e.offset == Plus(c.address, U64(n))
       && e.symbol == s.symbols[fx.sym].name
       && e.addend == Completion(gas, s, fx).addNumber
       && e.elfType == (if fx.howto.Some? then fx.howto.value.elfType else 0)
       && e.address == if j < |c.labels| then c.labels[j].address else 0
  }

  lemma {:induction false} HintIsFirst(labels: seq<LabelDefinition>, name: string)
    ensures
      var j := FirstLabel(labels, name);
      Hint(labels, name) == if j < |labels| then labels[j].address else 0
    decreases |labels|
  {
    if labels != [] {
      HintIsFirst(labels[1..], name);
    }
  }

  /** What the first loop leaves pending is what is left open. */
  lemma PendingIsOpen(gas: Gas, s: State, after: State, i: nat)
    requires Linked(s) && i < |s.fixes| && FixupOk(s, s.fixes[i]) && after.symbols == s.symbols
    requires FixupOk(after, Recorded(gas, s, s.fixes[i]))
    ensures Pending(after, Recorded(gas, s, s.fixes[i])) <==> LeftOpen(gas, s, i)
    ensures LeftOpen(gas, s, i) ==>
              Recorded(gas, s, s.fixes[i]).addNumber == Completion(gas, s, s.fixes[i]).addNumber
  {
    hide Minus;
  }

  /** The entry of a fixup is its relocation. */
  lemma InfoIsEntry(gas: Gas, s: State, c: Call, after: State, i: nat)
    requires Linked(s) && WellFormed(s.chain) && AtAddresses(s.chain) && FixesPlaced(s.chain, s.fixes)
    requires WellFormed(after.chain) && |after.chain.frags| == |s.chain.frags| && after.symbols == s.symbols
    requires forall k :: 0 <= k <= |s.chain.frags| ==> Addr(after.chain, k) == Addr(s.chain, k)
    requires AtAddresses(after.chain)
    requires i < |s.fixes| && LeftOpen(gas, s, i) && FixupOk(after, Recorded(gas, s, s.fixes[i]))
    ensures
      var img := Image(after.chain, |after.chain.frags|);
      EntryOf(gas, s, c, after.chain, img, Info(c, RelocOf(after, Recorded(gas, s, s.fixes[i]))), i)
  {
    hide Image, Addr, Recorded, Completion, Plus, U64, FirstLabel, Hint, AtAddresses, WellFormed, FixSize, LeftOpen;
    var fx := s.fixes[i];
    PendingIsOpen(gas, s, after, i);
    HintIsFirst(c.labels, s.symbols[fx.sym].name);
    AddressIs(after.chain, fx.frag);
    OpenIsSymbolic(gas, s, i);
    assert FixupPlaced(s.chain, fx);
    FixedByte(s.chain, fx.frag, fx.at);
  }

  lemma OpenIsSymbolic(gas: Gas, s: State, i: nat)
    requires Linked(s) && i < |s.fixes| && LeftOpen(gas, s, i)
    ensures FixupOk(s, s.fixes[i]) && Symbolic(s.fixes[i])
  {
  }

  /** The relocations of a call in relocation mode are exactly the fixups left open: each has its
      entry, at the number of fixups left open before it. */
  lemma RelocationOfFixup(a: Assembler, st: State, c: Call, i: nat)
    requires Sound(a) && Assembled(a, st, c).1.Success? && c.withRelocs
    requires i < |Laid(a, st, c).fixes| && LeftOpen(a.machine.gas, Laid(a, st, c), i)
    ensures
      var s, after, core := Laid(a, st, c), Assembled(a, st, c).0, Assembled(a, st, c).1.value;
      && Linked(after) && i < |after.fixes| && Unresolved(after, i) < |core.relocations|
      && WellFormed(after.chain) && |after.chain.frags| == |s.chain.frags|
      && EntryOf(a.machine.gas, s, c, after.chain, core.bytes, core.relocations[Unresolved(after, i)], i)
  {
    hide Sound, Source, Resolve, Image, AfterParse, ConvertsWell, Parsed, Assembled, Info, RelocOf, Reported, Laid,
      Unresolved, EntryOf, LeftOpen, Recorded, Addr, AtAddresses, FixesPlaced, WellFormed, Pending;
    SuccessIsClean(a, st, c);
    LeftAsLaid(a, st, c);
    var s, after := Laid(a, st, c), Assembled(a, st, c).0;
    PendingIsOpen(a.machine.gas, s, after, i);
    ReportedLength(after);
    ReportedAt(after, |after.fixes|, i);
    InfoIsEntry(a.machine.gas, s, c, after, i);
  }

  /** And each entry is the entry of one fixup left open. */
  lemma FixupOfRelocation(a: Assembler, st: State, c: Call, k: nat) returns (i: nat)
    requires Sound(a) && Assembled(a, st, c).1.Success? && c.withRelocs
    requires k < |Assembled(a, st, c).1.value.relocations|
    ensures
      var s, after, core := Laid(a, st, c), Assembled(a, st, c).0, Assembled(a, st, c).1.value;
      && Linked(after) && i < |s.fixes| == |after.fixes| && k == Unresolved(after, i)
      && WellFormed(after.chain) && |after.chain.frags| == |s.chain.frags|
      && EntryOf(a.machine.gas, s, c, after.chain, core.bytes, core.relocations[k], i)
  {
    hide Sound, Source, Resolve, Image, AfterParse, ConvertsWell, Parsed, Assembled, Info, RelocOf, Reported, Laid,
      Unresolved, EntryOf, LeftOpen, Recorded, Addr, AtAddresses, FixesPlaced, WellFormed, Pending;
    SuccessIsClean(a, st, c);
    LeftAsLaid(a, st, c);
    var s, after := Laid(a, st, c), Assembled(a, st, c).0;
    i := ReportedFrom(after, |after.fixes|, k);
    PendingIsOpen(a.machine.gas, s, after, i);
    InfoIsEntry(a.machine.gas, s, c, after, i);
  }

  // ----- errors of the front end ---------------------------------------------------------------------------

  lemma {:induction false} NoFirstError(lines: seq<string>, i: nat)
    requires DirectiveLaws.FirstError(lines).NoError? && i < |lines|
    ensures Statement(START, lines[i]).error.NoError?
    decreases |lines|
  {
    hide Statement;
    if i > 0 {
      NoFirstError(lines[1..], i - 1);
    }
  }

  /** A call that succeeds had no statement in error, and none that asks for another section. */
  lemma SuccessStaysInText(a: Assembler, st: State, c: Call, i: nat)
    requires Sound(a) && Assembled(a, st, c).1.Success? && i < |DirectiveLaws.Lines(c.source)|
    ensures !DirectiveLaws.LeavesSection(DirectiveLaws.Core(DirectiveLaws.Lines(c.source)[i]))
    ensures Statement(START, DirectiveLaws.Lines(c.source)[i]).error.NoError?
  {
    hide Sound, Source, Assembled, Statement, DirectiveLaws.LeavesSection, DirectiveLaws.Core, DirectiveLaws.Lines,
      DirectiveLaws.Violates;
    SuccessIsClean(a, st, c);
    DirectiveLaws.FirstErrorWins(c.source);
    var lines := DirectiveLaws.Lines(c.source);
    DirectiveLaws.ViolatesIff(lines[i]);
    NoFirstError(lines, i);
  }

  /** The error a call reports for its directives is that of the first statement in error, and only
      without one a section directive is reported; either comes before anything gas has to say. */
  lemma FirstErrorIsReported(a: Assembler, st: State, c: Call)
    requires Sound(a)
    ensures
      var lines := DirectiveLaws.Lines(c.source);
      var first := DirectiveLaws.FirstError(lines);
      && (!first.NoError? ==> Assembled(a, st, c).1 == Failed(DirectiveFailed(first)))
      && (first.NoError? && (exists i :: 0 <= i < |lines| && DirectiveLaws.Violates(lines[i])) ==>
            Assembled(a, st, c).1 == Failed(SectionSwitched))
  {
    hide Sound, Source, Resolve, Verdict, AfterParse, DirectiveLaws.Violates, DirectiveLaws.FirstError,
      DirectiveLaws.Lines;
    DirectiveLaws.FirstErrorWins(c.source);
  }

  // ----- label definitions ------------------------------------------------------------------------------

  /** Where a name is defined. */
  function Place(st: State, name: string): Location {
    var i := SymbolIndex(st.symbols, name, 0);
    if i < 0 then Undefined else st.symbols[i].place
  }

  lemma {:induction false} IndexKept(a: seq<Symbol>, b: seq<Symbol>, name: string, k: nat)
    requires k <= |a| <= |b| && forall i :: 0 <= i < |a| ==> a[i].name == b[i].name
    requires forall i :: |a| <= i < |b| ==> b[i].name != name
    ensures SymbolIndex(a, name, k) == SymbolIndex(b, name, k)
    decreases |a| - k
  {
    if k < |a| {
      IndexKept(a, b, name, k + 1);
    } else {
      NoIndex(b, name, k);
    }
  }

  lemma {:induction false} NoIndex(b: seq<Symbol>, name: string, k: nat)
    requires k <= |b| && forall i :: k <= i < |b| ==> b[i].name != name
    ensures SymbolIndex(b, name, k) == -1
    decreases |b| - k
  {
    if k < |b| {
      NoIndex(b, name, k + 1);
    }
  }

  lemma {:induction false} IndexAppended(a: seq<Symbol>, x: Symbol, k: nat)
    requires k <= |a| && SymbolIndex(a, x.name, k) == -1
    ensures SymbolIndex(a + [x], x.name, k) == |a|
    decreases |a| - k
  {
    if k < |a| {
      IndexAppended(a, x, k + 1);
    }
  }

  lemma PlaceAfter(st: State, name: string, v: bv64, other: string)
    ensures Place(DefinedAbs(st, name, v), other) ==
            if other == name && Place(st, name).Undefined? then Absolute(v) else Place(st, other)
  {
    hide SymbolIndex;
    var t := DefinedAbs(st, name, v);
    if SymbolIndex(st.symbols, name, 0) < 0 {
      if other == name {
        IndexAppended(st.symbols, Symbol(name, Absolute(v)), 0);
      } else {
        IndexKept(st.symbols, t.symbols, other, 0);
      }
    } else {
      IndexKept(st.symbols, t.symbols, other, 0);
    }
  }

  /** No label names a symbol that the source defines, and no two labels have the same name. */
  ghost predicate Definable(st: State, labels: seq<LabelDefinition>) {
    && (forall j :: 0 <= j < |labels| ==> Place(st, labels[j].name).Undefined?)
    && (forall j, k :: 0 <= j < k < |labels| ==> labels[j].name != labels[k].name)
  }

  /** Labels are accepted if and only if they can all be defined. */
  lemma {:induction false} LabelsAreAccepted(st: State, labels: seq<LabelDefinition>)
    ensures DefinedAll(st, labels).errors >= st.errors
    ensures DefinedAll(st, labels).errors == st.errors <==> Definable(st, labels)
    decreases |labels|
  {
    hide Place, SymbolIndex;
    if labels != [] {
      var name, rest := labels[0].name, labels[1..];
      var t := DefinedAbs(st, name, labels[0].address);
      LabelsAreAccepted(t, rest);
      DefinedAbsErrors(st, name, labels[0].address);
      forall j | 0 <= j < |rest|
        ensures rest[j] == labels[j + 1]
        ensures Place(t, rest[j].name).Undefined? <==> rest[j].name != name && Place(st, rest[j].name).Undefined?
      {
        PlaceAfter(st, name, labels[0].address, rest[j].name);
        PlaceAfter(st, name, labels[0].address, name);
      }
      DefinableStep(st, t, labels);
    }
  }

  lemma DefinedAbsErrors(st: State, name: string, v: bv64)
    ensures DefinedAbs(st, name, v).errors == st.errors + if Place(st, name).Undefined? then 0 else 1
  {
  }

  lemma DefinableStep(st: State, t: State, labels: seq<LabelDefinition>)
    requires labels != []
    requires forall j :: 0 <= j < |labels[1..]| ==>
               labels[1..][j] == labels[j + 1]
               && (Place(t, labels[1..][j].name).Undefined? <==>
                     labels[1..][j].name != labels[0].name && Place(st, labels[1..][j].name).Undefined?)
    ensures Definable(st, labels) <==> Place(st, labels[0].name).Undefined? && Definable(t, labels[1..])
  {
    hide Place;
    var rest := labels[1..];
    if Definable(st, labels) {
      forall j | 0 <= j < |rest|
        ensures Place(t, rest[j].name).Undefined?
      {
        assert labels[j + 1] == rest[j];
      }
      forall j, k | 0 <= j < k < |rest|
        ensures rest[j].name != rest[k].name
      {
        assert labels[j + 1] == rest[j] && labels[k + 1] == rest[k];
      }
    }
    if Place(st, labels[0].name).Undefined? && Definable(t, rest) {
      forall j | 0 <= j < |labels|
        ensures Place(st, labels[j].name).Undefined? && (j > 0 ==> labels[j].name != labels[0].name)
      {
        if j > 0 {
          assert labels[j] == rest[j - 1];
        }
      }
      forall j, k | 0 <= j < k < |labels|
        ensures labels[j].name != labels[k].name
      {
        if j > 0 {
          assert labels[j] == rest[j - 1] && labels[k] == rest[k - 1];
        }
      }
    }
  }

  /** Accepted labels hold their addresses; every other name is where it was. */
  lemma {:induction false} LabelsTakeEffect(st: State, labels: seq<LabelDefinition>, name: string)
    requires Definable(st, labels)
    ensures forall j :: 0 <= j < |labels| && labels[j].name == name ==>
              Place(DefinedAll(st, labels), name) == Absolute(labels[j].address)
    ensures (forall j :: 0 <= j < |labels| ==> labels[j].name != name) ==>
              Place(DefinedAll(st, labels), name) == Place(st, name)
    decreases |labels|
  {
    hide Place, DefinedAbs;
    if labels != [] {
      var first, rest := labels[0], labels[1..];
      var t := DefinedAbs(st, first.name, first.address);
      PlaceAfter(st, first.name, first.address, name);
      forall j | 0 <= j < |rest|
        ensures rest[j] == labels[j + 1]
        ensures Place(t, rest[j].name).Undefined? <==> rest[j].name != first.name && Place(st, rest[j].name).Undefined?
      {
        PlaceAfter(st, first.name, first.address, rest[j].name);
      }
      DefinableStep(st, t, labels);
      LabelsTakeEffect(t, rest, name);
    }
  }

  // ----- the base address ------------------------------------------------------------------------------------

  function MovedLabels(labels: seq<LabelDefinition>, d: bv64): seq<LabelDefinition> {
    if labels == [] then []
    else [LabelDefinition(labels[0].name, Plus(labels[0].address, d))] + MovedLabels(labels[1..], d)
  }

  /** The same call at another base, every label moved along. */
  function MovedCall(c: Call, d: bv64): Call {
    c.(address := Plus(c.address, d), labels := MovedLabels(c.labels, d))
  }

  /** The number of the symbol that a label defines. */
  function LabelKey(st: State, name: string): set<int> {
    var i := SymbolIndex(st.symbols, name, 0);
    if i < 0 then {|st.symbols|} else if st.symbols[i].place.Undefined? then {i} else {}
  }

  /** The numbers of the symbols that the labels define. */
  function LabelKeys(st: State, labels: seq<LabelDefinition>): set<int>
    decreases |labels|
  {
    if labels == [] then {}
    else LabelKey(st, labels[0].name) + LabelKeys(DefinedAbs(st, labels[0].name, labels[0].address), labels[1..])
  }

  predicate Below(ks: set<int>, n: nat) {
    forall k :: k in ks ==> k < n
  }

  lemma MovedShape(symbols: seq<Symbol>, d: bv64, ks: set<int>)
    ensures forall i :: 0 <= i < |symbols| ==> Moved(symbols, d, ks)[i].name == symbols[i].name
    ensures forall i :: 0 <= i < |symbols| ==> Moved(symbols, d, ks)[i].place.Undefined? == symbols[i].place.Undefined?
    ensures ks + {} == ks
  {
    hide Plus;
  }

  lemma MovedAppend(symbols: seq<Symbol>, d: bv64, ks: set<int>, name: string, v: bv64)
    requires Below(ks, |symbols|)
    ensures Moved(symbols + [Symbol(name, Absolute(v))], d, ks + {|symbols|}) ==
            Moved(symbols, d, ks) + [Symbol(name, Absolute(Plus(v, d)))]
  {
    hide Plus;
  }

  lemma MovedReplace(symbols: seq<Symbol>, d: bv64, ks: set<int>, i: nat, name: string, v: bv64)
    requires i < |symbols| && symbols[i].place.Undefined?
    ensures Moved(symbols[i := Symbol(name, Absolute(v))], d, ks + {i}) ==
            Moved(symbols, d, ks)[i := Symbol(name, Absolute(Plus(v, d)))]
  {
    hide Plus;
  }

  lemma DefinedAbsMoves(st: State, name: string, v: bv64, d: bv64, ks: set<int>)
    requires Below(ks, |st.symbols|)
    ensures Below(ks + LabelKey(st, name), |DefinedAbs(st, name, v).symbols|)
    ensures DefinedAbs(MovedState(st, d, ks), name, Plus(v, d)) ==
            MovedState(DefinedAbs(st, name, v), d, ks + LabelKey(st, name))
  {
    hide SymbolIndex, Plus, Moved;
    MovedShape(st.symbols, d, ks);
    IndexKept(st.symbols, Moved(st.symbols, d, ks), name, 0);
    var i := SymbolIndex(st.symbols, name, 0);
    if i < 0 {
      MovedAppend(st.symbols, d, ks, name, v);
    } else if st.symbols[i].place.Undefined? {
      MovedReplace(st.symbols, d, ks, i, name, v);
    }
  }

  lemma {:induction false} LabelsMove(st: State, labels: seq<LabelDefinition>, d: bv64, ks: set<int>)
    requires Below(ks, |st.symbols|)
    ensures DefinedAll(MovedState(st, d, ks), MovedLabels(labels, d)) ==
            MovedState(DefinedAll(st, labels), d, ks + LabelKeys(st, labels))
    decreases |labels|
  {
    hide Plus, DefinedAbs, MovedState, LabelKey, Below;
    if labels == [] {
      assert ks + LabelKeys(st, labels) == ks;
    } else {
      var name, v, rest := labels[0].name, labels[0].address, labels[1..];
      var t, more := DefinedAbs(st, name, v), ks + LabelKey(st, name);
      DefinedAbsMoves(st, name, v, d, ks);
      LabelsMove(t, rest, d, more);
      assert MovedLabels(labels, d)[1..] == MovedLabels(rest, d);
      assert more + LabelKeys(t, rest) == ks + LabelKeys(st, labels);
    }
  }

  /** The symbols that move along with the base: those the labels of a plain call define. */
  function MovingSymbols(a: Assembler, st: State, c: Call): set<int> {
    if c.withRelocs then {} else LabelKeys(Loaded(st, a.parse(Source(c.source).events)), c.labels)
  }

  lemma NothingMoved(s: State, d: bv64)
    ensures MovedState(s, d, {}) == s
  {
    assert MovedState(s, d, {}).symbols == s.symbols;
  }

  lemma ParseMoves(a: Assembler, st: State, c: Call, d: bv64)
    ensures AfterParse(a, st, MovedCall(c, d)) == MovedState(AfterParse(a, st, c), d, MovingSymbols(a, st, c))
  {
    hide Plus, DefinedAll, Source, MovedLabels, MovedState, LabelKeys;
    var s := Loaded(st, a.parse(Source(c.source).events));
    NothingMoved(s, d);
    if !c.withRelocs {
      LabelsMove(s, c.labels, d, {});
      assert {} + LabelKeys(s, c.labels) == LabelKeys(s, c.labels);
    }
  }

  lemma RelocMoved(st: State, d: bv64, ks: set<int>, fx: Fixup)
    requires FixupOk(st, fx) && FixupOk(MovedState(st, d, ks), fx) && Symbolic(fx)
    ensures RelocOf(MovedState(st, d, ks), fx) == RelocOf(st, fx)
  {
    hide Moved, U64;
    MovedPlace(st, d, ks, fx.sym);
  }

  lemma {:induction false} ReportsDoNotMove(st: State, d: bv64, ks: set<int>, n: nat)
    requires Linked(st) && Linked(MovedState(st, d, ks)) && n <= |st.fixes|
    ensures Reported(MovedState(st, d, ks), n) == Reported(st, n)
  {
    hide Moved, RelocOf, Resolvable;
    if n > 0 {
      ReportsDoNotMove(st, d, ks, n - 1);
      assert FixupOk(st, st.fixes[n - 1]);
      MovedFixup(st, d, ks, st.fixes[n - 1]);
      if Pending(st, st.fixes[n - 1]) {
        RelocMoved(st, d, ks, st.fixes[n - 1]);
      }
    }
  }

  /** Some label has the name. */
  predicate Hinted(labels: seq<LabelDefinition>, name: string) {
    exists i :: 0 <= i < |labels| && labels[i].name == name
  }

  /** The relocation at the other base: its site moves, and its hint unless it has none. */
  function MovedInfo(c: Call, d: bv64, r: RelocationInfo): RelocationInfo {
    r.(offset := Plus(r.offset, d), address := if Hinted(c.labels, r.symbol) then Plus(r.address, d) else r.address)
  }

  function MovedResult(c: Call, d: bv64, r: Result<AssembleCore>): Result<AssembleCore> {
    match r
    case Failed(_) => r
    case Success(core) =>
      Success(AssembleCore(core.bytes,
        seq(|core.relocations|, i requires 0 <= i < |core.relocations| => MovedInfo(c, d, core.relocations[i]))))
  }

  lemma {:induction false} HintMoves(labels: seq<LabelDefinition>, d: bv64, name: string)
    ensures Hint(MovedLabels(labels, d), name) == if Hinted(labels, name) then Plus(Hint(labels, name), d) else 0
    ensures !Hinted(labels, name) ==> Hint(labels, name) == 0
    decreases |labels|
  {
    hide Plus;
    if labels != [] {
      HintMoves(labels[1..], d, name);
      assert MovedLabels(labels, d)[1..] == MovedLabels(labels[1..], d);
      HintedStep(labels, name);
    }
  }

  lemma HintedStep(labels: seq<LabelDefinition>, name: string)
    requires labels != []
    ensures Hinted(labels, name) <==> labels[0].name == name || Hinted(labels[1..], name)
  {
    if Hinted(labels, name) {
      var i :| 0 <= i < |labels| && labels[i].name == name;
      assert i > 0 ==> labels[1..][i - 1].name == name;
    }
    if Hinted(labels[1..], name) {
      var i :| 0 <= i < |labels[1..]| && labels[1..][i].name == name;
      assert labels[i + 1].name == name;
    }
  }

  lemma InfoMoves(c: Call, d: bv64, r: Reloc)
    ensures Info(MovedCall(c, d), r) == MovedInfo(c, d, Info(c, r))
  {
    hide Plus, U64, Hint, MovedLabels, Hinted;
    HintMoves(c.labels, d, r.symbol);
    PlusSwap(c.address, d, U64(r.offset));
  }

  lemma VerdictMoves(c: Call, e: nat, s: State, d: bv64, ks: set<int>, n: nat)
    requires Linked(s) && WellFormed(s.chain) && Linked(MovedState(s, d, ks))
    ensures Verdict(MovedCall(c, d), e, MovedState(s, d, ks), n) == MovedResult(c, d, Verdict(c, e, s, n))
  {
    hide Reported, Image, Names, Moved, MovedLabels, Plus, Info, MovedInfo;
    ReportsDoNotMove(s, d, ks, |s.fixes|);
    var relocs := Reported(s, |s.fixes|);
    forall i | 0 <= i < |relocs|
      ensures Info(MovedCall(c, d), relocs[i]) == MovedInfo(c, d, Info(c, relocs[i]))
    {
      InfoMoves(c, d, relocs[i]);
    }
    if Verdict(c, e, s, n).Success? {
      var x, y := Verdict(MovedCall(c, d), e, MovedState(s, d, ks), n), MovedResult(c, d, Verdict(c, e, s, n));
      assert x.Success? && x.value.relocations == y.value.relocations;
    }
  }

  /** Assembling the same source at another base, with the labels moved along, in either mode.  If of
      the references that get encoded exactly those to the section and to the labels are pc-relative
      (constants of the source may be used as plain values), the result is the same, byte for byte,
      with relocations at the moved sites and with moved hints. */
  lemma AssembleIsBaseInvariant(a: Assembler, st: State, c: Call, d: bv64)
    requires Sound(a) && Acyclic(a.machine.table)
    requires Relaxable(a.machine.table, AfterParse(a, st, c).chain)
    requires Movable(Laid(a, st, c), MovingSymbols(a, st, c))
    ensures Assembled(a, st, MovedCall(c, d)).1 == MovedResult(c, d, Assembled(a, st, c).1)
  {
    hide Sound, Source, Resolve, Image, AfterParse, ConvertsWell, Parsed, BeforeFixups;
    hide Verdict, Movable, Plus, Moved, MovedLabels, Acyclic, Relaxable, MovingSymbols;
    var ks := MovingSymbols(a, st, c);
    ParseMoves(a, st, c, d);
    AfterParseParsed(a, st, c);
    AfterParseParsed(a, st, MovedCall(c, d));
    SoundConverts(a);
    var p := AfterParse(a, st, c);
    ResolutionIsBaseInvariant(a.machine, p, c.address, d, ks, c.bufferOk);
    ResolvedReadable(a.machine, p, c.address, c.bufferOk);
    ResolvedReadable(a.machine, MovedState(p, d, ks), Plus(c.address, d), c.bufferOk);
    var (s, n) := Resolve(a.machine, p, c.address, c.bufferOk);
    VerdictMoves(c, st.errors, s, d, ks, n);
  }

  // ----- instructions ------------------------------------------------------------------------------------------

  datatype Listing = Listing(instructions: seq<Instruction>, relocations: seq<RelocationInfo>)

  /** `assemble_to_instructions` and its relocation form: assemble, then disassemble the bytes. */
  function AssembledListing(a: Assembler, d: Decoder, st: State, c: Call): Result<Listing>
    requires Sound(a)
  {
    match Assembled(a, st, c).1
    case Failed(e) => Failed(e)
    case Success(core) =>
      match Disassembled(d, core.bytes, c.address, 0, 0, 0)
      case Failed(e) => Failed(e)
      case Success(instructions) => Success(Listing(instructions, core.relocations))
  }

  /** The instructions of a listing are the bytes that plain assembling returns, none missing and
      none twice, each at its address, and each what the decoder makes of its place. */
  lemma ListingIsTheBytes(a: Assembler, d: Decoder, st: State, c: Call)
    requires Sound(a) && AssembledListing(a, d, st, c).Success?
    ensures Assembled(a, st, c).1.Success?
    ensures
      var core, listing := Assembled(a, st, c).1.value, AssembledListing(a, d, st, c).value;
      && Cuts(listing.instructions, core.bytes, c.address, 0, |core.bytes|)
      && Contents(listing.instructions) == core.bytes
      && listing.relocations == core.relocations
      && forall k :: 0 <= k < |listing.instructions| ==>
           DecodedHere(d, core.bytes, c.address, 0, listing.instructions, k)
  {
    hide Sound, Assembled, Disassembled, Contents, Contiguous, DecodedHere;
    var core := Assembled(a, st, c).1.value;
    forall k | 0 <= k < |AssembledListing(a, d, st, c).value.instructions|
      ensures DecodedHere(d, core.bytes, c.address, 0, AssembledListing(a, d, st, c).value.instructions, k)
    {
      InstructionsDecode(d, core.bytes, c.address, 0, 0, 0, k);
    }
    var end := InstructionsCover(d, core.bytes, c.address, 0, 0, 0);
    assert core.bytes[0..] == core.bytes;
  }
}
