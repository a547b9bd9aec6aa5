/** `do_assemble` and `do_disassemble` (src/nyxstone.cpp): one call of the library from its arguments
    to bytes, relocations or an error.  The library keeps state from call to call; a call neither
    depends on what earlier calls left there nor succeeds when anything was reported.
 */
module Driver {
  import opened Options
  import opened Encode
  import opened Frags
  import opened Fixups
  import opened Passes
  import opened TextSection
  import Scanner
  import opened Directives
  import opened FrontEnd

  datatype LabelDefinition = LabelDefinition(name: string, address: bv64)

  /** gas: what the requests of the front end make of an empty section (`errors` counts what was
      reported on the way), and the machine behind the passes. */
  datatype Assembler = Assembler(machine: Machine, parse: seq<Event> -> State)

  /** The assumptions about gas. */
  ghost predicate Sound(a: Assembler) {
    ConvertsWell(a.machine) && forall events: seq<Event> :: Parsed(a.machine, a.parse(events))
  }

  datatype Failure =
    | DirectiveFailed(error: DirectiveError)
    | SectionSwitched
    | ParseFailed
    | UnsupportedRelocation(name: string)
    | ResolveFailed
    | UndefinedLabels(names: seq<string>)
    | DecodeFailed(offset: nat)

  datatype Result<+T> = Success(value: T) | Failed(failure: Failure)

  datatype RelocationInfo = RelocationInfo(offset: bv64, addend: bv64, elfType: bv32, symbol: string, address: bv64)

  datatype AssembleCore = AssembleCore(bytes: seq<bv8>, relocations: seq<RelocationInfo>)

  /** The arguments of `do_assemble`; `bufferOk` says whether malloc serves the image buffer. */
  datatype Call = Call(source: string, address: bv64, labels: seq<LabelDefinition>, withRelocs: bool, bufferOk: bool)

  // ----- the phases of a call ------------------------------------------------------------------------

  function DefinedAll(st: State, labels: seq<LabelDefinition>): State
    decreases |labels|
  {
    if labels == [] then st else DefinedAll(DefinedAbs(st, labels[0].name, labels[0].address), labels[1..])
  }

  /** The section once the source is parsed and, in plain mode, the labels are defined. */
  function AfterParse(a: Assembler, st: State, c: Call): State {
    var s := Loaded(st, a.parse(Source(c.source).events));
    if c.withRelocs then s else DefinedAll(s, c.labels)
  }

  lemma {:induction false} DefinedAllParsed(m: Machine, st: State, labels: seq<LabelDefinition>)
    requires Parsed(m, st)
    ensures Parsed(m, DefinedAll(st, labels)) && DefinedAll(st, labels).errors >= st.errors
    decreases |labels|
  {
    hide SubtypesOk, AllRoomy, TailOk;
    if labels != [] {
      DefinedAllParsed(m, DefinedAbs(st, labels[0].name, labels[0].address), labels[1..]);
    }
  }

  lemma AfterParseParsed(a: Assembler, st: State, c: Call)
    requires Sound(a)
    ensures Parsed(a.machine, AfterParse(a, st, c)) && AfterParse(a, st, c).errors >= st.errors
  {
    hide ConvertsWell, DefinedAll, Source;
    var p := a.parse(Source(c.source).events);
    assert Parsed(a.machine, p);
    assert Parsed(a.machine, Loaded(st, p));
    DefinedAllParsed(a.machine, Loaded(st, p), c.labels);
  }

  function Names(relocs: seq<Reloc>): seq<string> {
    seq(|relocs|, i requires 0 <= i < |relocs| => relocs[i].symbol)
  }

  /** The address of the first label of that name, 0 if there is none. */
  function Hint(labels: seq<LabelDefinition>, name: string): bv64
    decreases |labels|
  {
    if labels == [] then 0 else if labels[0].name == name then labels[0].address else Hint(labels[1..], name)
  }

  function Info(c: Call, r: Reloc): RelocationInfo {
    RelocationInfo(Plus(c.address, U64(r.offset)), r.addend, r.elfType, r.symbol, Hint(c.labels, r.symbol))
  }

  function Infos(c: Call, relocs: seq<Reloc>): (infos: seq<RelocationInfo>)
    ensures |infos| == |relocs|
  {
    seq(|relocs|, i requires 0 <= i < |relocs| => Info(c, relocs[i]))
  }

  /** The section can be read out once it has been resolved. */
  lemma ResolvedReadable(m: Machine, st: State, base: bv64, bufferOk: bool)
    requires Parsed(m, st) && ConvertsWell(m)
    ensures
      var (s, n) := Resolve(m, st, base, bufferOk);
      Linked(s) && WellFormed(s.chain) && n == |Reported(s, |s.fixes|)|
  {
    hide BeforeFixups, ConvertsWell, Parsed;
    ReadyForFixups(m, st);
    UnresolvedAreReported(m.gas, BeforeFixups(m, st), base, bufferOk);
    AppliedReadable(m.gas, BeforeFixups(m, st), base, bufferOk);
  }

  lemma AppliedReadable(gas: Gas, st: State, base: bv64, bufferOk: bool)
    requires Linked(st) && WellFormed(st.chain)
    ensures
      var s := Applied(gas, st, base, bufferOk).0;
      Linked(s) && WellFormed(s.chain)
  {
    hide EncodeFirst, CopiedBack, Image, WellFormed, Unresolved;
    AppliedFixups(gas, st, base, bufferOk);
    CopiedBackShape(st.chain, EncodeFirst(gas, st, base, Image(st.chain, |st.chain.frags|), |st.fixes|).img);
  }

  /** The outcome of a call whose fixups have been resolved; `errors` is the counter before the call. */
  function Verdict(c: Call, errors: nat, s: State, unresolved: nat): Result<AssembleCore>
    requires Linked(s) && WellFormed(s.chain)
  {
    if s.unsupported.Some? then Failed(UnsupportedRelocation(s.unsupported.value))
    else if s.errors != errors then Failed(ResolveFailed)
    else if !c.withRelocs && unresolved > 0 then Failed(UndefinedLabels(Names(Reported(s, |s.fixes|))))
    else Success(AssembleCore(Image(s.chain, |s.chain.frags|), if c.withRelocs then Infos(c, Reported(s, |s.fixes|))
      else []))
  }

  /** One call: the section it leaves behind and its result. */
  function Assembled(a: Assembler, st: State, c: Call): (State, Result<AssembleCore>)
    requires Sound(a)
  {
    var f := Source(c.source);
    var parsed := AfterParse(a, st, c);
    if !f.error.NoError? then (parsed, Failed(DirectiveFailed(f.error)))
    else if f.violation then (parsed, Failed(SectionSwitched))
    else if parsed.errors != st.errors then (parsed, Failed(ParseFailed))
    else
      AfterParseParsed(a, st, c);
      ResolvedReadable(a.machine, parsed, c.address, c.bufferOk);
      var (s, n) := Resolve(a.machine, parsed, c.address, c.bufferOk);
      (s, Verdict(c, st.errors, s, n))
  }

  // ----- the library object --------------------------------------------------------------------------

  /** The process-wide state: the section with its error counter and its stale
      `g_unsupported_reloc`, and the front end with its two flags. */
  class Library {
    const assembler: Assembler
    const section: Section
    const reader: Reader

    ghost predicate Valid()
      reads this, section
    {
      Sound(assembler) && section.machine == assembler.machine
    }

    constructor (assembler: Assembler)
      requires Sound(assembler)
      ensures Valid() && fresh(section) && fresh(reader) && this.assembler == assembler
    {
      this.assembler := assembler;
      section := new Section(assembler.machine, State(Chain([], -1), [], [], 0, None));
      reader := new Reader();
    }

    /** `do_assemble` */
    method Assemble(c: Call) returns (r: Result<AssembleCore>)
      requires Valid()
      modifies section, reader
      ensures Valid()
      ensures (section.View(), r) == Assembled(assembler, old(section.View()), c)
    {
      hide Sound, Source, Resolve, Image, DefinedAll, Reported, ConvertsWell, Parsed;
      ghost var st := section.View();
      reader.Set(START);
      var errorsBefore := section.errors;
      reader.Read(c.source);
      assert reader.View() == Source(c.source) by { SourceUnfolds(c.source); }
      section.Load(assembler.parse(reader.events));
      if !c.withRelocs {
        DefineLabels(c.labels);
      }
      assert section.View() == AfterParse(assembler, st, c);
      AfterParseParsed(assembler, st, c);
      SoundConverts(assembler);
      var parseError := section.errors != errorsBefore;
      var unresolved := 0;
      if !parseError && !reader.violation && reader.error.NoError? {
        ghost var parsed := section.View();
        unresolved := section.ResolveTextFixups(c.address, c.bufferOk);
        ResolvedReadable(assembler.machine, parsed, c.address, c.bufferOk);
      }
      if !reader.error.NoError? {
        return Failed(DirectiveFailed(reader.error));
      }
      if reader.violation {
        return Failed(SectionSwitched);
      }
      if parseError {
        return Failed(ParseFailed);
      }
      if section.unsupported.Some? {
        return Failed(UnsupportedRelocation(section.unsupported.value));
      }
      if section.errors != errorsBefore {
        return Failed(ResolveFailed);
      }
      if !c.withRelocs && unresolved > 0 {
        var names := CollectNames();
        return Failed(UndefinedLabels(names));
      }
      var bytes := ExtractBytes();
      var infos := [];
      if c.withRelocs {
        infos := CollectInfos(c);
      }
      r := Success(AssembleCore(bytes, infos));
    }

    method DefineLabels(labels: seq<LabelDefinition>)
      modifies section
      ensures section.View() == DefinedAll(old(section.View()), labels)
    {
      hide DefinedAbs;
      var i := 0;
      assert labels[0..] == labels;
      while i < |labels|
        invariant i <= |labels|
        invariant DefinedAll(section.View(), labels[i..]) == DefinedAll(old(section.View()), labels)
      {
        assert labels[i..][1..] == labels[i + 1..];
        section.DefineAbs(labels[i].name, labels[i].address);
        i := i + 1;
      }
    }

    /** The size query and the read-out. */
    method ExtractBytes() returns (bytes: seq<bv8>)
      requires WellFormed(section.ChainView())
      ensures bytes == Image(section.ChainView(), |section.frags|)
    {
      hide Image;
      var n := section.ExtractTextBytes(null, 0);
      var out := new bv8[n](_ => 0);
      var filled := section.ExtractTextBytes(out, n);
      bytes := out[..n];
    }

    /** The count query and the read-out of the relocations. */
    method Collect() returns (relocs: seq<Reloc>)
      requires Linked(section.View())
      ensures relocs == Reported(section.View(), |section.fixes|)
    {
      hide Reported, Unresolved;
      var count := section.CollectRelocs(null, 0);
      ReportedLength(section.View());
      var raw := new Reloc[count](_ => Reloc(0, 0, [], 0));
      var filled := section.CollectRelocs(raw, count);
      relocs := raw[..];
    }

    method CollectNames() returns (names: seq<string>)
      requires Linked(section.View())
      ensures names == Names(Reported(section.View(), |section.fixes|))
    {
      hide Reported;
      var raw := Collect();
      names := [];
      for i := 0 to |raw|
        invariant names == Names(raw)[..i]
      {
        names := names + [raw[i].symbol];
      }
    }

    method CollectInfos(c: Call) returns (infos: seq<RelocationInfo>)
      requires Linked(section.View())
      ensures infos == Infos(c, Reported(section.View(), |section.fixes|))
    {
      hide Reported, Info;
      var raw := Collect();
      infos := [];
      for i := 0 to |raw|
        invariant infos == Infos(c, raw)[..i]
      {
        var info := ToInfo(c, raw[i]);
        infos := infos + [info];
      }
    }

    /** One entry of the result; the address hint comes from the first label of that name. */
    static method ToInfo(c: Call, r: Reloc) returns (info: RelocationInfo)
      ensures info == Info(c, r)
    {
      var address: bv64 := 0;
      var i := 0;
      assert c.labels[0..] == c.labels;
      while i < |c.labels|
        invariant i <= |c.labels| && address == 0
        invariant Hint(c.labels[i..], r.symbol) == Hint(c.labels, r.symbol)
      {
        if c.labels[i].name == r.symbol {
          address := c.labels[i].address;
          break;
        }
        assert c.labels[i..][1..] == c.labels[i + 1..];
        i := i + 1;
      }
      info := RelocationInfo(Plus(c.address, U64(r.offset)), r.addend, r.elfType, r.symbol, address);
    }
  }

  lemma SourceUnfolds(src: string)
    ensures Source(src) == AllStatements(START, Scanner.Statements(Scanner.Out, Scanner.Stripped(Scanner.Out, src), []))
  {
    hide AllStatements;
  }

  lemma SoundConverts(a: Assembler)
    requires Sound(a)
    ensures ConvertsWell(a.machine)
  {
  }

  lemma ReportedLength(st: State)
    requires Linked(st)
    ensures |Reported(st, |st.fixes|)| == Unresolved(st, |st.fixes|)
  {
  }
}
