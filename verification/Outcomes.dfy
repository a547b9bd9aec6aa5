/** What a call of the library comes to: label definitions at work in a call, which bytes are gas's own,
    and for every call the kind of result it has.
 */
module Outcomes {
  import opened Options
  import opened Encode
  import opened Frags
  import opened Fixups
  import opened Passes
  import opened TextSection
  import opened Directives
  import DirectiveLaws
  import opened Driver
  import opened Guarantees

  /** The section as gas has parsed it. */
  function ParsedSource(a: Assembler, c: Call): State {
    a.parse(Source(c.source).events)
  }

  // ----- label definitions in a call ----------------------------------------------------------------------

  /** Where names stand depends on the symbols only. */
  lemma SamePlaces(st: State, s: State, labels: seq<LabelDefinition>)
    requires s.symbols == st.symbols
    ensures forall name :: Place(s, name) == Place(st, name)
    ensures Definable(s, labels) <==> Definable(st, labels)
  {
  }

  lemma LaidSymbols(a: Assembler, st: State, c: Call)
    requires Sound(a)
    ensures Laid(a, st, c).symbols == AfterParse(a, st, c).symbols
  {
    hide Sound, Parsed, ConvertsWell, AfterParse, Relaxed, ConvertFirst, Finalized;
  }

  /** In plain mode, when the fixups of a call get applied, the name of a label definition stands for its
      address, and every other name stands where gas's parser has put it. */
  lemma LabelsStand(a: Assembler, st: State, c: Call, name: string)
    requires Sound(a) && !c.withRelocs && Definable(ParsedSource(a, c), c.labels)
    ensures forall j :: 0 <= j < |c.labels| && c.labels[j].name == name ==>
              Place(Laid(a, st, c), name) == Absolute(c.labels[j].address)
    ensures (forall j :: 0 <= j < |c.labels| ==> c.labels[j].name != name) ==>
              Place(Laid(a, st, c), name) == Place(ParsedSource(a, c), name)
  {
    hide Sound, Source, DefinedAll, Definable, Laid, Place;
    var p := ParsedSource(a, c);
    var q := Loaded(st, p);
    SamePlaces(p, q, c.labels);
    LabelsTakeEffect(q, c.labels, name);
    LaidSymbols(a, st, c);
    SamePlaces(AfterParse(a, st, c), Laid(a, st, c), c.labels);
  }

  /** In relocation mode every name stands where the parser has put it. */
  lemma RelocationModeDefinesNothing(a: Assembler, st: State, c: Call)
    requires Sound(a) && c.withRelocs
    ensures Laid(a, st, c).symbols == ParsedSource(a, c).symbols
  {
    hide Sound, Source, Laid;
    LaidSymbols(a, st, c);
  }

  /** A reference to a label of a plain call is encoded: whoever reads it arrives at the address of the
      label definition. */
  lemma LabelReferencesArrive(a: Assembler, st: State, c: Call, i: nat, j: nat)
    requires Sound(a) && Assembled(a, st, c).1.Success? && !c.withRelocs && c.bufferOk
    requires i < |Laid(a, st, c).fixes| && j < |c.labels|
    requires
      var s := Laid(a, st, c);
      s.fixes[i].sym == SymbolIndex(s.symbols, c.labels[j].name, 0) >= 0
    ensures
      var s, after, bytes := Laid(a, st, c), Assembled(a, st, c).0.chain, Assembled(a, st, c).1.value.bytes;
      var fx := s.fixes[i];
      && WellFormed(after) && |after.frags| == |s.chain.frags| && fx.frag < |after.frags| && fx.howto.Some?
      && ReadsAs(bytes, |Image(after, fx.frag)| + fx.at, fx.howto.value,
           Plus(c.address, a.machine.gas.pcrelFrom(s.chain, fx)), Plus(c.labels[j].address, fx.offset))
  {
    hide Sound, Source, Laid, Assembled, Definable, ReadsAs, Image, Plus, SymbolIndex;
    SuccessDefines(a, st, c);
    LabelsStand(a, st, c, c.labels[j].name);
    var s := Laid(a, st, c);
    assert FixupOk(s, s.fixes[i]);
    ReferencesArrive(a, st, c, i);
  }

  /** A call that succeeds in plain mode could define its labels. */
  lemma SuccessDefines(a: Assembler, st: State, c: Call)
    requires Sound(a) && Assembled(a, st, c).1.Success? && !c.withRelocs
    ensures Definable(ParsedSource(a, c), c.labels)
  {
    hide Sound, Source, Assembled, Definable, DefinedAll;
    SuccessIsClean(a, st, c);
    var q := Loaded(st, ParsedSource(a, c));
    LabelsAreAccepted(q, c.labels);
    SamePlaces(ParsedSource(a, c), q, c.labels);
  }

  // ----- the bytes that are gas's own ---------------------------------------------------------------------

  /** Byte `k` of frag `f` is in no field that gets encoded. */
  predicate OutsideFields(s: State, f: nat, k: nat)
    requires Linked(s) && f < |s.chain.frags|
  {
    forall i :: 0 <= i < |s.fixes| && s.fixes[i].frag == f && Fielded(s, i) ==>
      var fx, literal := s.fixes[i], s.chain.frags[f].literal;
      fx.at < |literal| ==> k < fx.at || fx.at + FieldLen(literal, fx.at, KindOf(fx.howto.value)) <= k
  }

  lemma OutsideIsUntouched(s: State, f: nat, k: nat)
    requires Linked(s) && WellFormed(s.chain) && AtAddresses(s.chain) && FixesPlaced(s.chain, s.fixes)
    requires WellPlaced(s, Image(s.chain, |s.chain.frags|))
    requires f < |s.chain.frags| && k < FixSize(s.chain, f) && OutsideFields(s, f, k)
    ensures !Touched(s, Image(s.chain, |s.chain.frags|), |s.fixes|, Addr(s.chain, f) + k)
  {
    hide Image, Addr, KindOf, WellPlaced, WellFormed, AtAddresses, FixSize, FixupPlaced, PairPlaced;
    var c, img := s.chain, Image(s.chain, |s.chain.frags|);
    forall i | 0 <= i < |s.fixes| && Fielded(s, i)
      ensures Pos(s, s.fixes[i]) < |img| && !Covers(s, img, s.fixes[i], Addr(c, f) + k)
    {
      FieldInImage(s, s.fixes[i]);
      if s.fixes[i].frag < f {
        AddrMonotone(c, s.fixes[i].frag, f);
      } else if f < s.fixes[i].frag {
        AddrMonotone(c, f, s.fixes[i].frag);
      }
    }
  }

  /** Padding is in no field. */
  lemma PaddingIsUntouched(s: State, f: nat, k: nat)
    requires Linked(s) && WellFormed(s.chain) && WellPlaced(s, Image(s.chain, |s.chain.frags|))
    requires f < |s.chain.frags| && InFill(s.chain, f, k)
    ensures !Touched(s, Image(s.chain, |s.chain.frags|), |s.fixes|, k)
  {
    hide Image, Addr, KindOf, FixSize, FieldLen, WellFormed;
    var img := Image(s.chain, |s.chain.frags|);
    forall i | 0 <= i < |s.fixes| && Fielded(s, i)
      ensures Pos(s, s.fixes[i]) < |img| && !Covers(s, img, s.fixes[i], k)
    {
      assert Seated(s, img, s.fixes[i]);
      if Covers(s, img, s.fixes[i], k) {
        FixedIsNotFill(s.chain, s.fixes[i].frag, f, k);
      }
    }
  }

  /** A byte outside every field is, in the bytes a call returns, what it was before the fixups. */
  lemma UntouchedIsReturned(a: Assembler, st: State, c: Call, k: nat)
    requires Sound(a) && Assembled(a, st, c).1.Success?
    requires
      var s := Laid(a, st, c);
      var img := Image(s.chain, |s.chain.frags|);
      k < |img| && WellPlaced(s, img) && !Touched(s, img, |s.fixes|, k)
    ensures
      var s, bytes := Laid(a, st, c), Assembled(a, st, c).1.value.bytes;
      var img := Image(s.chain, |s.chain.frags|);
      |bytes| == |img| && bytes[k] == img[k]
  {
    hide Sound, Source, ConvertsWell, Parsed, BeforeFixups, AfterParse, Assembled, Applied, Image, WellPlaced, Touched;
    SuccessIsClean(a, st, c);
    ErrorsOnlyGrow(a.machine, AfterParse(a, st, c), c.address, c.bufferOk);
    var s, after := Laid(a, st, c), Assembled(a, st, c).0;
    if c.bufferOk {
      EndToEnd(a.machine.gas, s, c.address, after);
    } else {
      NoBufferNoReport(a.machine.gas, s, c.address);
    }
  }

  /** What a call returns at byte `k` of frag `f`, outside the fields: of the fixed part, the byte gas has
      put there; of the padding, the byte of the pattern behind the fixed part. */
  lemma BytesAreGas(a: Assembler, st: State, c: Call, f: nat, k: nat)
    requires Sound(a) && Assembled(a, st, c).1.Success?
    requires f < |Laid(a, st, c).chain.frags|
    requires
      var chain := Laid(a, st, c).chain;
      Addr(chain, f) + k < Addr(chain, f + 1) && (k < chain.frags[f].fix ==> OutsideFields(Laid(a, st, c), f, k))
    ensures
      var after, bytes, g := Assembled(a, st, c).0.chain, Assembled(a, st, c).1.value.bytes,
        Laid(a, st, c).chain.frags[f];
      && WellFormed(after) && f <= |after.frags| && |Image(after, f)| + k < |bytes|
      && if k < g.fix then k < |g.literal| && bytes[|Image(after, f)| + k] == g.literal[k]
         else
           && g.rep > 0 && g.fix + (k - g.fix) % g.rep < |g.literal|
           && bytes[|Image(after, f)| + k] == g.literal[g.fix + (k - g.fix) % g.rep]
  {
    hide Sound, Source, ConvertsWell, Parsed, AfterParse, Assembled, Image, WellPlaced, Touched, Laid, FixesPlaced,
      OutsideFields, Addr, Recorded, AtAddresses, FieldLen, BeforeFixups;
    LeftAsLaid(a, st, c);
    LaidIsPlaced(a, st, c);
    var s := Laid(a, st, c);
    ImageAt(s.chain, f);
    if k < s.chain.frags[f].fix {
      OutsideIsUntouched(s, f, k);
      FixedByte(s.chain, f, k);
    } else {
      PaddingIsUntouched(s, f, Addr(s.chain, f) + k);
      PaddingByte(s.chain, f, k - s.chain.frags[f].fix);
    }
    UntouchedIsReturned(a, st, c, Addr(s.chain, f) + k);
  }

  lemma LaidIsPlaced(a: Assembler, st: State, c: Call)
    requires Sound(a)
    ensures WellPlaced(Laid(a, st, c), Image(Laid(a, st, c).chain, |Laid(a, st, c).chain.frags|))
  {
    hide Sound, ConvertsWell, Parsed, AfterParse, BeforeFixups, WellPlaced, Image;
    AfterParseParsed(a, st, c);
    SoundConverts(a);
    FieldsArePlaced(a.machine, AfterParse(a, st, c));
  }

  // ----- the kind of result -------------------------------------------------------------------------------

  /** gas rejects something of the source, or a label cannot be defined. */
  ghost predicate ParsingFails(a: Assembler, c: Call) {
    ParsedSource(a, c).errors > 0 || (!c.withRelocs && !Definable(ParsedSource(a, c), c.labels))
  }

  /** The encoder has no form for a reference it has to encode. */
  ghost predicate FormMissing(a: Assembler, st: State, c: Call)
    requires Sound(a)
  {
    c.bufferOk && exists i :: 0 <= i < |Laid(a, st, c).fixes| && Formless(Laid(a, st, c), i)
  }

  /** An `.org` moves backwards, or a value does not fit its form. */
  ghost predicate LayoutFails(a: Assembler, st: State, c: Call)
    requires Sound(a) && Parsed(a.machine, AfterParse(a, st, c))
  {
    var d, s := Converted(a.machine, AfterParse(a, st, c)), Laid(a, st, c);
    || (exists i :: 0 <= i < |d.frags| && OrgBackwards(d, i))
    || (c.bufferOk && exists i :: 0 <= i < |s.fixes| && OutOfRange(a.machine.gas, s, c.address, i))
  }

  /** A reference is left for a linker, and there will be none. */
  ghost predicate LinkingNeeded(a: Assembler, st: State, c: Call)
    requires Sound(a)
  {
    !c.withRelocs && exists i :: 0 <= i < |Laid(a, st, c).fixes| && LeftOpen(a.machine.gas, Laid(a, st, c), i)
  }

  lemma ParseErrors(a: Assembler, st: State, c: Call)
    requires Sound(a)
    ensures Parsed(a.machine, AfterParse(a, st, c))
    ensures AfterParse(a, st, c).errors == st.errors <==> !ParsingFails(a, c)
  {
    hide Sound, Source, DefinedAll, Definable, Parsed;
    AfterParseParsed(a, st, c);
    var p := ParsedSource(a, c);
    LabelsAreAccepted(Loaded(st, p), c.labels);
    SamePlaces(p, Loaded(st, p), c.labels);
  }

  lemma {:induction false} SomeOpen(gas: Gas, s: State, after: State, n: nat)
    requires Linked(s) && Linked(after) && n <= |s.fixes| == |after.fixes| && after.symbols == s.symbols
    requires forall i :: 0 <= i < |s.fixes| ==>
               FixupOk(s, s.fixes[i]) && after.fixes[i] == Recorded(gas, s, s.fixes[i])
    ensures Unresolved(after, n) == 0 <==> forall i :: 0 <= i < n ==> !LeftOpen(gas, s, i)
  {
    hide Recorded, LeftOpen, Pending;
    if n > 0 {
      SomeOpen(gas, s, after, n - 1);
      assert FixupOk(after, after.fixes[n - 1]);
      PendingIsOpen(gas, s, after, n - 1);
    }
  }

  lemma ResolvedOpen(a: Assembler, st: State, c: Call)
    requires Sound(a) && Parsed(a.machine, AfterParse(a, st, c)) && ConvertsWell(a.machine)
    ensures
      var (s, n) := Resolve(a.machine, AfterParse(a, st, c), c.address, c.bufferOk);
      LinkingNeeded(a, st, c) <==> !c.withRelocs && n > 0
  {
    hide Sound, Parsed, ConvertsWell, AfterParse, BeforeFixups, Applied, Recorded, LeftOpen, Unresolved;
    var s := Laid(a, st, c);
    AppliedFixups(a.machine.gas, s, c.address, c.bufferOk);
    UnresolvedAreReported(a.machine.gas, s, c.address, c.bufferOk);
    var after := Applied(a.machine.gas, s, c.address, c.bufferOk).0;
    ReportedLength(after);
    SomeOpen(a.machine.gas, s, after, |s.fixes|);
  }

  lemma ResolvedErrors(a: Assembler, st: State, c: Call)
    requires Sound(a) && Parsed(a.machine, AfterParse(a, st, c)) && ConvertsWell(a.machine)
    ensures
      var p := AfterParse(a, st, c);
      var s := Resolve(a.machine, p, c.address, c.bufferOk).0;
      && (s.unsupported.Some? <==> FormMissing(a, st, c))
      && (s.errors != p.errors <==> LayoutFails(a, st, c))
  {
    hide Sound, Resolve, AfterParse, Parsed, ConvertsWell, OrgBackwards, Formless, OutOfRange, BeforeFixups, Converted,
      FormName;
    ResolveReports(a.machine, AfterParse(a, st, c), c.address, c.bufferOk);
    assert Laid(a, st, c) == BeforeFixups(a.machine, AfterParse(a, st, c));
  }

  lemma VerdictKind(c: Call, errors: nat, s: State, n: nat)
    requires Linked(s) && WellFormed(s.chain)
    ensures
      var r := Verdict(c, errors, s, n);
      if s.unsupported.Some? then r == Failed(UnsupportedRelocation(s.unsupported.value))
      else if s.errors != errors then r == Failed(ResolveFailed)
      else if !c.withRelocs && n > 0 then r.Failed? && r.failure.UndefinedLabels?
      else r.Success?
  {
    hide Image, Infos, Names, Reported;
  }

  /** What a call comes to, for every source, set of labels, mode and history.  The first error of the
      front end is reported, then a section switch, then errors of parsing and of defining labels, then a
      form the encoder does not know, then a backward `.org` or a value that does not fit, then, in plain
      mode, references to undefined symbols; and a call succeeds if there is none of these. */
  lemma OutcomeIs(a: Assembler, st: State, c: Call)
    requires Sound(a)
    ensures Parsed(a.machine, AfterParse(a, st, c))
    ensures
      var lines, r := DirectiveLaws.Lines(c.source), Assembled(a, st, c).1;
      if !DirectiveLaws.FirstError(lines).NoError? then r == Failed(DirectiveFailed(DirectiveLaws.FirstError(lines)))
      else if exists i :: 0 <= i < |lines| && DirectiveLaws.Violates(lines[i]) then r == Failed(SectionSwitched)
      else if ParsingFails(a, c) then r == Failed(ParseFailed)
      else if FormMissing(a, st, c) then r.Failed? && r.failure.UnsupportedRelocation?
      else if LayoutFails(a, st, c) then r == Failed(ResolveFailed)
      else if LinkingNeeded(a, st, c) then r.Failed? && r.failure.UndefinedLabels?
      else r.Success?
  {
    hide Sound, Source, Resolve, AfterParse, Parsed, ConvertsWell, ParsingFails, FormMissing, LayoutFails,
      LinkingNeeded, DirectiveLaws.Violates, DirectiveLaws.FirstError, DirectiveLaws.Lines, Image, Infos, Names,
      Reported;
    DirectiveLaws.FirstErrorWins(c.source);
    ParseErrors(a, st, c);
    SoundConverts(a);
    ResolvedOpen(a, st, c);
    ResolvedErrors(a, st, c);
    ResolvedReadable(a.machine, AfterParse(a, st, c), c.address, c.bufferOk);
    if AfterParse(a, st, c).errors == st.errors {
      var (s, n) := Resolve(a.machine, AfterParse(a, st, c), c.address, c.bufferOk);
      VerdictKind(c, st.errors, s, n);
    }
  }

  /** A call that gets as far as the fixups leaves the section they were applied to. */
  lemma ReachesFixups(a: Assembler, st: State, c: Call)
    requires Sound(a) && Assembled(a, st, c).1.Failed?
    requires Assembled(a, st, c).1.failure.UndefinedLabels? || Assembled(a, st, c).1.failure.UnsupportedRelocation?
    ensures Parsed(a.machine, AfterParse(a, st, c)) && ConvertsWell(a.machine)
    ensures
      var (r, n) := Resolve(a.machine, AfterParse(a, st, c), c.address, c.bufferOk);
      && Assembled(a, st, c).0 == r && Linked(r) && WellFormed(r.chain)
      && Assembled(a, st, c).1 == Verdict(c, st.errors, r, n)
  {
    hide Sound, Source, Resolve, AfterParse, Parsed, ConvertsWell, Verdict;
    AfterParseParsed(a, st, c);
    SoundConverts(a);
    ResolvedReadable(a.machine, AfterParse(a, st, c), c.address, c.bufferOk);
  }

  /** The form that is reported is that of the last reference without one. */
  lemma UnsupportedIsLast(a: Assembler, st: State, c: Call) returns (i: nat)
    requires Sound(a) && Assembled(a, st, c).1.Failed? && Assembled(a, st, c).1.failure.UnsupportedRelocation?
    ensures
      var s := Laid(a, st, c);
      && i < |s.fixes| && Formless(s, i) && Assembled(a, st, c).1.failure.name == FormName(s.fixes[i])
      && forall k :: i < k < |s.fixes| ==> !Formless(s, k)
  {
    hide Sound, Assembled, Resolve, AfterParse, Parsed, ConvertsWell, Formless, FormName, BeforeFixups, OutOfRange,
      OrgBackwards, Converted;
    ReachesFixups(a, st, c);
    ResolveReports(a.machine, AfterParse(a, st, c), c.address, c.bufferOk);
    var r, n := Resolve(a.machine, AfterParse(a, st, c), c.address, c.bufferOk).0,
      Resolve(a.machine, AfterParse(a, st, c), c.address, c.bufferOk).1;
    VerdictKind(c, st.errors, r, n);
    assert Laid(a, st, c) == BeforeFixups(a.machine, AfterParse(a, st, c));
    var s := Laid(a, st, c);
    i :| 0 <= i < |s.fixes| && Formless(s, i) && r.unsupported.value == FormName(s.fixes[i])
         && forall k :: i < k < |s.fixes| ==> !Formless(s, k);
  }

  lemma ResolvedFixups(a: Assembler, st: State, c: Call)
    requires Sound(a) && Parsed(a.machine, AfterParse(a, st, c)) && ConvertsWell(a.machine)
    ensures
      var s, after := Laid(a, st, c), Resolve(a.machine, AfterParse(a, st, c), c.address, c.bufferOk).0;
      && Linked(after) && |after.fixes| == |s.fixes| && after.symbols == s.symbols
      && forall i :: 0 <= i < |s.fixes| ==>
           FixupOk(s, s.fixes[i]) && after.fixes[i] == Recorded(a.machine.gas, s, s.fixes[i])
  {
    hide Sound, Parsed, ConvertsWell, AfterParse, BeforeFixups, Applied, Recorded;
    AppliedFixups(a.machine.gas, Laid(a, st, c), c.address, c.bufferOk);
  }

  /** The labels reported as undefined are the symbols of the references left open, in their order. */
  lemma UndefinedAreOpen(a: Assembler, st: State, c: Call, i: nat)
    requires Sound(a) && Assembled(a, st, c).1.Failed? && Assembled(a, st, c).1.failure.UndefinedLabels?
    requires i < |Laid(a, st, c).fixes| && LeftOpen(a.machine.gas, Laid(a, st, c), i)
    ensures
      var s, after, names := Laid(a, st, c), Assembled(a, st, c).0, Assembled(a, st, c).1.failure.names;
      && Linked(after) && i < |after.fixes| && Unresolved(after, i) < |names|
      && names[Unresolved(after, i)] == s.symbols[s.fixes[i].sym].name
  {
    hide Sound, Assembled, Resolve, AfterParse, Parsed, ConvertsWell, Recorded, LeftOpen, Laid, Unresolved, Reported,
      Pending, Image, Infos;
    ReachesFixups(a, st, c);
    ResolvedFixups(a, st, c);
    var s, after := Laid(a, st, c), Assembled(a, st, c).0;
    PendingIsOpen(a.machine.gas, s, after, i);
    ReportedLength(after);
    ReportedAt(after, |after.fixes|, i);
  }

  /** And each of them is the symbol of a reference left open. */
  lemma OpenIsUndefined(a: Assembler, st: State, c: Call, k: nat) returns (i: nat)
    requires Sound(a) && Assembled(a, st, c).1.Failed? && Assembled(a, st, c).1.failure.UndefinedLabels?
    requires k < |Assembled(a, st, c).1.failure.names|
    ensures
      var s, after, names := Laid(a, st, c), Assembled(a, st, c).0, Assembled(a, st, c).1.failure.names;
      && Linked(after) && i < |after.fixes| == |s.fixes| && LeftOpen(a.machine.gas, s, i) && k == Unresolved(after, i)
      && names[k] == s.symbols[s.fixes[i].sym].name
  {
    hide Sound, Assembled, Resolve, AfterParse, Parsed, ConvertsWell, Recorded, LeftOpen, Laid, Unresolved, Reported,
      Pending, Image, Infos;
    ReachesFixups(a, st, c);
    ResolvedFixups(a, st, c);
    var s, after := Laid(a, st, c), Assembled(a, st, c).0;
    i := ReportedFrom(after, |after.fixes|, k);
    PendingIsOpen(a.machine.gas, s, after, i);
  }
}
