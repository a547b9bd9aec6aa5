/** The passes of `nyxstone_glue_resolve_text_fixups` (src/nyxstone_glue.c) as functions on the
    state of the section: relax the branches, convert the branch frags, settle the padding, lay
    out, apply the fixups.
 */
module Passes {
  import opened Options
  import opened Encode
  import opened Frags
  import opened Fixups
  import opened RelaxChain

  /** A branch frag after `md_convert_frag`, with the fixups it emitted. */
  datatype Conversion = Conversion(frag: Frag, fixes: seq<Fixup>)

  /** What the passes need from gas besides the fixup functions: the relax table, `relax_segment`
      (how many links it moves branch frag `i` in a pass, given where the branch leads) and
      `md_convert_frag`. */
  datatype Machine = Machine(
    table: Table,
    moves: (Chain, nat, Option<Location>, nat) -> nat,
    convert: Frag -> Conversion,
    gas: Gas)

  function Destination(symbols: seq<Symbol>, f: Frag): Option<Location> {
    if 0 <= f.symbol < |symbols| then Some(symbols[f.symbol].place) else None
  }

  predicate SubtypeOk(t: Table, f: Frag) {
    f.kind.Machine? ==> f.subtype < |t|
  }

  predicate SubtypesOk(t: Table, c: Chain) {
    forall i :: 0 <= i < |c.frags| ==> SubtypeOk(t, c.frags[i])
  }

  // ----- relax_branches ----------------------------------------------------------------------------

  /** The open tail frag learns its size; a frag without a type becomes a fill frag. */
  function PreparedFrag(c: Chain, i: nat): Frag
    requires i < |c.frags|
  {
    var f := c.frags[i].(fix := FixSize(c, i));
    if f.kind.Zeroed? then f.(kind := Fill, rep := 0) else f
  }

  function Prepared(c: Chain): (d: Chain)
    ensures |d.frags| == |c.frags| && d.live == c.live
  {
    c.(frags := seq(|c.frags|, i requires 0 <= i < |c.frags| => PreparedFrag(c, i)))
  }

  /** A branch starts from the shortest form if it leads into this section, else from the longest. */
  function SeededFrag(t: Table, symbols: seq<Symbol>, f: Frag): Frag
    requires SubtypeOk(t, f)
  {
    if !f.kind.Machine? then f
    else match Destination(symbols, f)
      case None => f
      case Some(InText(_, _)) => f.(subtype := Head(t, f.subtype))
      case _ => f.(subtype := Terminal(t, f.subtype))
  }

  function Seeded(t: Table, symbols: seq<Symbol>, c: Chain): (d: Chain)
    requires SubtypesOk(t, c)
    ensures |d.frags| == |c.frags| && d.live == c.live && SubtypesOk(t, d)
  {
    c.(frags := seq(|c.frags|, i requires 0 <= i < |c.frags| =>
      assert SubtypeOk(t, c.frags[i]); SeededFrag(t, symbols, c.frags[i])))
  }

  function GrownFrag(m: Machine, symbols: seq<Symbol>, c: Chain, i: nat, pass: nat): Frag
    requires i < |c.frags| && SubtypeOk(m.table, c.frags[i])
  {
    var f := c.frags[i];
    if f.kind.Machine? then f.(subtype := Grown(m.table, f.subtype, m.moves(c, i, Destination(symbols, f), pass)))
      else f
  }

  /** One call of `relax_segment`. */
  function RelaxPass(m: Machine, symbols: seq<Symbol>, c: Chain, pass: nat): (d: Chain)
    requires SubtypesOk(m.table, c)
    ensures |d.frags| == |c.frags| && d.live == c.live && SubtypesOk(m.table, d)
  {
    c.(frags := seq(|c.frags|, i requires 0 <= i < |c.frags| =>
      assert SubtypeOk(m.table, c.frags[i]); GrownFrag(m, symbols, c, i, pass)))
  }

  /** `relax_segment` is called again as long as it reports a change, with a bound of 32. */
  function RelaxLoop(m: Machine, symbols: seq<Symbol>, c: Chain, pass: nat): (d: Chain)
    requires SubtypesOk(m.table, c) && pass <= 32
    ensures |d.frags| == |c.frags| && d.live == c.live && SubtypesOk(m.table, d)
    decreases 32 - pass
  {
    var d := RelaxPass(m, symbols, c, pass);
    if d != c && pass < 32 then RelaxLoop(m, symbols, d, pass + 1) else d
  }

  lemma PreparedSubtypes(t: Table, c: Chain)
    requires SubtypesOk(t, c)
    ensures SubtypesOk(t, LaidOut(Prepared(c)))
  {
    forall i | 0 <= i < |c.frags|
      ensures SubtypeOk(t, LaidOut(Prepared(c)).frags[i])
    {
      assert SubtypeOk(t, c.frags[i]);
    }
  }

  function Start(t: Table, symbols: seq<Symbol>, c: Chain): (d: Chain)
    requires SubtypesOk(t, c)
    ensures |d.frags| == |c.frags| && d.live == c.live && SubtypesOk(t, d)
  {
    PreparedSubtypes(t, c);
    Seeded(t, symbols, LaidOut(Prepared(c)))
  }

  function Relaxed(m: Machine, symbols: seq<Symbol>, c: Chain): (d: Chain)
    requires SubtypesOk(m.table, c)
    ensures |d.frags| == |c.frags| && d.live == c.live && SubtypesOk(m.table, d)
  {
    RelaxLoop(m, symbols, Start(m.table, symbols, c), 0)
  }

  /** What relaxing may change about a frag: its subtype, and only along the chain of the table. */
  ghost predicate OnlyGrew(t: Table, f: Frag, g: Frag) {
    && g == f.(subtype := g.subtype)
    && (!f.kind.Machine? ==> g == f)
    && (f.kind.Machine? ==> f.subtype < |t| && g.subtype < |t| && Reaches(t, f.subtype, g.subtype))
  }

  lemma OnlyGrewTrans(t: Table, f: Frag, g: Frag, h: Frag)
    requires OnlyGrew(t, f, g) && OnlyGrew(t, g, h)
    ensures OnlyGrew(t, f, h)
  {
    if f.kind.Machine? {
      ReachesTrans(t, f.subtype, g.subtype, h.subtype);
    }
  }

  lemma {:induction false} LoopOnlyGrows(m: Machine, symbols: seq<Symbol>, c: Chain, pass: nat, i: nat)
    requires SubtypesOk(m.table, c) && pass <= 32 && i < |c.frags|
    ensures OnlyGrew(m.table, c.frags[i], RelaxLoop(m, symbols, c, pass).frags[i])
    decreases 32 - pass
  {
    var d := RelaxPass(m, symbols, c, pass);
    assert SubtypeOk(m.table, c.frags[i]);
    if c.frags[i].kind.Machine? {
      GrownReaches(m.table, c.frags[i].subtype, m.moves(c, i, Destination(symbols, c.frags[i]), pass));
    }
    assert OnlyGrew(m.table, c.frags[i], d.frags[i]);
    if d != c && pass < 32 {
      LoopOnlyGrows(m, symbols, d, pass + 1, i);
      OnlyGrewTrans(m.table, c.frags[i], d.frags[i], RelaxLoop(m, symbols, d, pass + 1).frags[i]);
    }
  }

  lemma {:induction false} EndOfChainStays(t: Table, a: nat, b: nat)
    requires a < |t| && t[a] == 0 && Reaches(t, a, b)
    ensures a == b
  {
    var k: nat :| Leads(t, a, b, k);
  }

  /** However `relax_segment` decides, a branch that leaves the section ends in the longest form of
      its chain, and a branch within the section ends between the shortest and the longest; nothing
      but the subtype of the prepared frag changes. */
  lemma BranchesRelaxed(m: Machine, symbols: seq<Symbol>, c: Chain, i: nat)
    requires SubtypesOk(m.table, c) && Acyclic(m.table)
    requires i < |c.frags| && c.frags[i].kind.Machine? && 0 <= c.frags[i].symbol < |symbols|
    requires 0 < c.frags[i].subtype < |m.table|
    ensures
      var s, r := c.frags[i].subtype, Relaxed(m, symbols, c).frags[i].subtype;
      && r < |m.table|
      && if symbols[c.frags[i].symbol].place.InText? then
           Reaches(m.table, Head(m.table, s), r) && Reaches(m.table, r, Terminal(m.table, s))
         else r == Terminal(m.table, s)
    ensures
      var p, g := LaidOut(Prepared(c)).frags[i], Relaxed(m, symbols, c).frags[i];
      g == p.(subtype := g.subtype)
  {
    hide RelaxLoop, Addr, Head, Terminal;
    var t, s := m.table, c.frags[i].subtype;
    StartSubtype(t, symbols, c, i);
    LoopOnlyGrows(m, symbols, Start(t, symbols, c), 0, i);
    var r := Relaxed(m, symbols, c).frags[i].subtype;
    if symbols[c.frags[i].symbol].place.InText? {
      Between(t, s, r);
    } else {
      TerminalIsTerminal(t, s);
      EndOfChainStays(t, Terminal(t, s), r);
    }
  }

  lemma StartSubtype(t: Table, symbols: seq<Symbol>, c: Chain, i: nat)
    requires SubtypesOk(t, c) && i < |c.frags| && c.frags[i].kind.Machine? && 0 <= c.frags[i].symbol < |symbols|
    requires c.frags[i].subtype < |t|
    ensures Start(t, symbols, c).frags[i].kind.Machine?
    ensures Start(t, symbols, c).frags[i].subtype ==
            if symbols[c.frags[i].symbol].place.InText? then Head(t, c.frags[i].subtype)
              else Terminal(t, c.frags[i].subtype)
  {
    hide Addr, Head, Terminal;
  }

  // ----- md_convert_frag ------------------------------------------------------------------------------

  /** New fixups belong to the frag that was converted. */
  function Tagged(fixes: seq<Fixup>, frag: nat): (r: seq<Fixup>)
    ensures |r| == |fixes|
  {
    seq(|fixes|, k requires 0 <= k < |fixes| => fixes[k].(frag := frag))
  }

  /** The chain with the first `n` frags converted, and the fixups that emitted. */
  function ConvertFirst(m: Machine, c: Chain, n: nat): (r: (Chain, seq<Fixup>))
    requires n <= |c.frags|
    ensures |r.0.frags| == |c.frags| && r.0.live == c.live
    ensures forall i :: n <= i < |c.frags| ==> r.0.frags[i] == c.frags[i]
  {
    if n == 0 then (c, [])
    else
      var (d, fixes) := ConvertFirst(m, c, n - 1);
      if c.frags[n - 1].kind.Machine? then
        var r := m.convert(c.frags[n - 1]);
        (d.(frags := d.frags[n - 1 := r.frag]), fixes + Tagged(r.fixes, n - 1))
      else (d, fixes)
  }

  // ----- the whole resolution ---------------------------------------------------------------------------

  /** The bytes of padding pattern a frag has, or will have once its padding is settled. */
  function Pattern(f: Frag): nat {
    if (f.kind.Align? || f.kind.AlignCode? || f.kind.Org?) && f.rep == 0 then 1 else f.rep
  }

  /** The frag's literal holds its fixed part and its padding pattern. */
  predicate Roomy(c: Chain, i: nat)
    requires i < |c.frags|
  {
    FixSize(c, i) + Pattern(c.frags[i]) <= |c.frags[i].literal|
  }

  predicate AllRoomy(c: Chain) {
    forall i :: 0 <= i < |c.frags| ==> Roomy(c, i)
  }

  /** The frag gas still emits into holds plain bytes. */
  predicate TailOk(c: Chain) {
    c.live >= 0 && |c.frags| > 0 ==> c.frags[|c.frags| - 1].kind.Fill? || c.frags[|c.frags| - 1].kind.Zeroed?
  }

  /** What gas guarantees about `md_convert_frag` on a frag: it only adds to the fixed part, and the
      literal is large enough; the fixups it emits name the frag's own symbol or none, and sit with
      their fields in what was added, without overlap. */
  predicate ConvertsFrag(m: Machine, f: Frag) {
    var g, fixes := m.convert(f).frag, m.convert(f).fixes;
    && f.fix <= g.fix && g.fix + Pattern(g) <= |g.literal|
    && f.fix <= |f.literal| && g.literal[..f.fix] == f.literal[..f.fix]
    && (forall k :: 0 <= k < |fixes| ==> fixes[k].sym < 0 || fixes[k].sym == f.symbol)
    && (forall k :: 0 <= k < |fixes| && Symbolic(fixes[k]) ==> f.fix <= fixes[k].at && SeatedIn(g, g.fix, fixes[k]))
    && (forall j, k :: 0 <= j < k < |fixes| && Symbolic(fixes[j]) && Symbolic(fixes[k]) ==>
      ApartIn(g, fixes[j], fixes[k]))
  }

  predicate SymbolsOk(st: State) {
    forall i :: 0 <= i < |st.symbols| && st.symbols[i].place.InText? ==> st.symbols[i].place.frag < |st.chain.frags|
  }

  /** What gas guarantees about the section it parsed. */
  predicate Parsed(m: Machine, st: State) {
    && SubtypesOk(m.table, st.chain)
    && AllRoomy(st.chain)
    && TailOk(st.chain)
    && SymbolsOk(st)
    && (forall i :: 0 <= i < |st.chain.frags| ==> st.chain.frags[i].symbol < |st.symbols|)
    && FixesOk(st.fixes, |st.chain.frags|, |st.symbols|)
    && FixesPlaced(st.chain, st.fixes)
  }

  ghost predicate ConvertsWell(m: Machine) {
    forall f: Frag :: f.fix <= |f.literal| ==> ConvertsFrag(m, f)
  }

  /** The state when the fixups are about to be applied. */
  function BeforeFixups(m: Machine, st: State): State
    requires Parsed(m, st)
  {
    var c := Relaxed(m, st.symbols, st.chain);
    var (d, more) := ConvertFirst(m, c, |c.frags|);
    State(LaidOut(Finalized(d)), st.fixes + more, st.symbols, st.errors + OrgErrors(d, |d.frags|), st.unsupported)
  }

  /** Relaxing leaves every frag with its true size in `fix`. */
  lemma RelaxedRoomy(m: Machine, symbols: seq<Symbol>, c: Chain, i: nat)
    requires SubtypesOk(m.table, c) && i < |c.frags| && Roomy(c, i)
    ensures var d := Relaxed(m, symbols, c);
      Roomy(d, i) && FixSize(d, i) == d.frags[i].fix == FixSize(c, i) && d.frags[i].symbol == c.frags[i].symbol
      && d.frags[i].literal == c.frags[i].literal
      && (TailOk(c) && i == |c.frags| - 1 && c.live >= 0 ==> d.frags[i].kind.Fill?)
  {
    hide RelaxLoop, Addr, Head, Terminal;
    LoopOnlyGrows(m, symbols, Start(m.table, symbols, c), 0, i);
  }

  lemma {:induction false} ConvertedAt(m: Machine, c: Chain, n: nat, i: nat)
    requires i < n <= |c.frags|
    ensures ConvertFirst(m, c, n).0.frags[i] == if c.frags[i].kind.Machine? then m.convert(c.frags[i]).frag
      else c.frags[i]
  {
    if i < n - 1 {
      ConvertedAt(m, c, n - 1, i);
    }
  }

  /** Every fixup belongs to a frag of the chain and names a symbol of the table, or none. */
  predicate FixesOk(fixes: seq<Fixup>, frags: nat, symbols: nat) {
    forall k :: 0 <= k < |fixes| ==> fixes[k].frag < frags && fixes[k].sym < symbols
  }

  /** A chain ready for conversion: sizes are in `fix`, and the open tail is no branch. */
  predicate Convertible(c: Chain) {
    && (forall i :: 0 <= i < |c.frags| ==> FixSize(c, i) == c.frags[i].fix <= |c.frags[i].literal|)
    && (c.live >= 0 && |c.frags| > 0 ==> !c.frags[|c.frags| - 1].kind.Machine?)
  }

  /** The chain with frag `i` converted. */
  function OneConverted(m: Machine, c: Chain, i: nat): (d: Chain)
    requires i < |c.frags|
    ensures |d.frags| == |c.frags| && d.live == c.live
  {
    c.(frags := c.frags[i := m.convert(c.frags[i]).frag])
  }

  lemma TaggedOk(m: Machine, f: Frag, n: nat, frags: nat, symbols: nat)
    requires ConvertsFrag(m, f) && f.symbol < symbols && n < frags
    ensures FixesOk(Tagged(m.convert(f).fixes, n), frags, symbols)
  {
    hide Pattern, SeatedIn, ApartIn;
    var fixes := m.convert(f).fixes;
    assert forall k :: 0 <= k < |fixes| ==> fixes[k].sym < 0 || fixes[k].sym == f.symbol;
  }

  lemma {:induction false} ConvertedFixes(m: Machine, c: Chain, n: nat, symbols: nat)
    requires n <= |c.frags| && ConvertsWell(m) && Convertible(c)
    requires forall i :: 0 <= i < |c.frags| ==> c.frags[i].symbol < symbols
    ensures FixesOk(ConvertFirst(m, c, n).1, |c.frags|, symbols)
  {
    hide ConvertsFrag, Tagged;
    if n > 0 {
      ConvertedFixes(m, c, n - 1, symbols);
      assert FixSize(c, n - 1) == c.frags[n - 1].fix;
      TaggedOk(m, c.frags[n - 1], n - 1, |c.frags|, symbols);
    }
  }

  /** What is known about a fixup stays true in a frag whose fixed part grows. */
  lemma SeatKept(f: Frag, g: Frag, a: Fixup, b: Fixup)
    requires f.fix <= g.fix <= |g.literal| && f.fix <= |f.literal| && g.literal[..f.fix] == f.literal[..f.fix]
    requires SeatedIn(f, f.fix, a) && SeatedIn(f, f.fix, b)
    ensures SeatedIn(g, g.fix, a) && SeatedIn(g, g.fix, b)
    ensures ApartIn(f, a, b) ==> ApartIn(g, a, b)
  {
    hide KindOf, MarkerFits, InsnLen;
    assert g.literal[a.at] == g.literal[..f.fix][a.at] == f.literal[a.at];
    assert g.literal[b.at] == g.literal[..f.fix][b.at] == f.literal[b.at];
  }

  /** An old fixup and a new one of the same frag. */
  lemma OldAndNew(f: Frag, g: Frag, a: Fixup, b: Fixup)
    requires f.fix <= g.fix <= |g.literal| && f.fix <= |f.literal| && g.literal[..f.fix] == f.literal[..f.fix]
    requires SeatedIn(f, f.fix, a) && f.fix <= b.at
    ensures ApartIn(g, a, b)
  {
    hide KindOf, MarkerFits, InsnLen;
    assert g.literal[a.at] == g.literal[..f.fix][a.at] == f.literal[a.at];
  }

  lemma StepPlacedOne(m: Machine, c: Chain, i: nat, fx: Fixup)
    requires Convertible(c) && i < |c.frags| && c.frags[i].kind.Machine? && ConvertsFrag(m, c.frags[i])
    requires FixupPlaced(c, fx)
    ensures FixupPlaced(OneConverted(m, c, i), fx)
  {
    hide SeatedIn, ApartIn, Pattern;
    if Symbolic(fx) && fx.frag == i {
      SeatKept(c.frags[i], m.convert(c.frags[i]).frag, fx, fx);
    }
  }

  lemma StepPlacedPair(m: Machine, c: Chain, i: nat, a: Fixup, b: Fixup)
    requires Convertible(c) && i < |c.frags| && c.frags[i].kind.Machine? && ConvertsFrag(m, c.frags[i])
    requires FixupPlaced(c, a) && FixupPlaced(c, b) && PairPlaced(c, a, b)
    ensures PairPlaced(OneConverted(m, c, i), a, b)
  {
    hide SeatedIn, ApartIn, Pattern;
    if Symbolic(a) && Symbolic(b) && a.frag == b.frag == i {
      SeatKept(c.frags[i], m.convert(c.frags[i]).frag, a, b);
    }
  }

  lemma StepPlacedNew(m: Machine, c: Chain, i: nat, k: nat)
    requires Convertible(c) && i < |c.frags| && c.frags[i].kind.Machine? && ConvertsFrag(m, c.frags[i])
    requires k < |m.convert(c.frags[i]).fixes|
    ensures FixupPlaced(OneConverted(m, c, i), Tagged(m.convert(c.frags[i]).fixes, i)[k])
  {
    hide ApartIn, Pattern, KindOf, MarkerFits, InsnLen;
    var fx := m.convert(c.frags[i]).fixes[k];
    assert Symbolic(fx) ==> SeatedIn(m.convert(c.frags[i]).frag, m.convert(c.frags[i]).frag.fix, fx);
  }

  lemma StepPlacedMixed(m: Machine, c: Chain, i: nat, a: Fixup, k: nat)
    requires Convertible(c) && i < |c.frags| && c.frags[i].kind.Machine? && ConvertsFrag(m, c.frags[i])
    requires FixupPlaced(c, a) && k < |m.convert(c.frags[i]).fixes|
    ensures PairPlaced(OneConverted(m, c, i), a, Tagged(m.convert(c.frags[i]).fixes, i)[k])
  {
    hide SeatedIn, ApartIn, Pattern;
    var fx := m.convert(c.frags[i]).fixes[k];
    if Symbolic(a) && Symbolic(fx) && a.frag == i {
      OldAndNew(c.frags[i], m.convert(c.frags[i]).frag, a, fx.(frag := i));
    }
  }

  lemma StepPlacedNewPair(m: Machine, c: Chain, i: nat, j: nat, k: nat)
    requires Convertible(c) && i < |c.frags| && c.frags[i].kind.Machine? && ConvertsFrag(m, c.frags[i])
    requires j < k < |m.convert(c.frags[i]).fixes|
    ensures
      var more := Tagged(m.convert(c.frags[i]).fixes, i);
      PairPlaced(OneConverted(m, c, i), more[j], more[k])
  {
    hide Pattern, SeatedIn, KindOf, FieldLen;
    var g, fixes := m.convert(c.frags[i]).frag, m.convert(c.frags[i]).fixes;
    assert Symbolic(fixes[j]) && Symbolic(fixes[k]) ==> ApartIn(g, fixes[j], fixes[k]);
  }

  /** Converting a branch keeps every field in its place and adds the branch's own. */
  lemma StepPlaced(m: Machine, c: Chain, i: nat, fixes: seq<Fixup>)
    requires Convertible(c) && i < |c.frags| && c.frags[i].kind.Machine? && ConvertsFrag(m, c.frags[i])
    requires FixesPlaced(c, fixes)
    ensures FixesPlaced(OneConverted(m, c, i), fixes + Tagged(m.convert(c.frags[i]).fixes, i))
  {
    hide FixupPlaced, PairPlaced, ConvertsFrag, Tagged, OneConverted, Convertible;
    var d, more := OneConverted(m, c, i), Tagged(m.convert(c.frags[i]).fixes, i);
    var all, n := fixes + more, |fixes|;
    forall k | 0 <= k < |all|
      ensures FixupPlaced(d, all[k])
    {
      if k < n {
        StepPlacedOne(m, c, i, fixes[k]);
      } else {
        StepPlacedNew(m, c, i, k - n);
      }
    }
    forall j, k | 0 <= j < k < |all|
      ensures PairPlaced(d, all[j], all[k])
    {
      if k < n {
        StepPlacedPair(m, c, i, fixes[j], fixes[k]);
      } else if j < n {
        StepPlacedMixed(m, c, i, fixes[j], k - n);
      } else {
        StepPlacedNewPair(m, c, i, j - n, k - n);
      }
    }
  }

  /** All branches converted: every field, old or new, is in its place. */
  lemma {:induction false} ConvertedPlaced(m: Machine, c: Chain, n: nat, fixes: seq<Fixup>)
    requires n <= |c.frags| && ConvertsWell(m) && Convertible(c) && FixesPlaced(c, fixes)
    ensures FixesPlaced(ConvertFirst(m, c, n).0, fixes + ConvertFirst(m, c, n).1)
    ensures Convertible(ConvertFirst(m, c, n).0)
  {
    hide FixesPlaced, ConvertsFrag, Tagged;
    if n == 0 {
      assert fixes + [] == fixes;
    } else {
      ConvertedPlaced(m, c, n - 1, fixes);
      var (d, more) := ConvertFirst(m, c, n - 1);
      if c.frags[n - 1].kind.Machine? {
        assert FixSize(d, n - 1) == d.frags[n - 1].fix;
        StepPlaced(m, d, n - 1, fixes + more);
        StepConvertible(m, d, n - 1);
        assert fixes + more + Tagged(m.convert(c.frags[n - 1]).fixes, n - 1) ==
          fixes + (more + Tagged(m.convert(c.frags[n - 1]).fixes, n - 1));
      }
    }
  }

  lemma StepConvertible(m: Machine, c: Chain, i: nat)
    requires Convertible(c) && i < |c.frags| && c.frags[i].kind.Machine? && ConvertsFrag(m, c.frags[i])
    ensures Convertible(OneConverted(m, c, i))
  {
    hide SeatedIn, ApartIn;
    var d := OneConverted(m, c, i);
    forall k | 0 <= k < |d.frags|
      ensures FixSize(d, k) == d.frags[k].fix <= |d.frags[k].literal|
    {
      assert FixSize(c, k) == c.frags[k].fix;
    }
  }

  /** Fields stay in their place while literals and sizes do. */
  lemma PlacedSame(c: Chain, d: Chain, fixes: seq<Fixup>)
    requires FixesPlaced(c, fixes) && |d.frags| == |c.frags|
    requires forall i :: 0 <= i < |c.frags| ==>
               d.frags[i].literal == c.frags[i].literal && FixSize(d, i) == FixSize(c, i)
    ensures FixesPlaced(d, fixes)
  {
    hide KindOf, MarkerFits, FieldLen;
    forall k | 0 <= k < |fixes|
      ensures FixupPlaced(d, fixes[k])
    {
      assert FixupPlaced(c, fixes[k]);
    }
    forall j, k | 0 <= j < k < |fixes|
      ensures PairPlaced(d, fixes[j], fixes[k])
    {
      assert PairPlaced(c, fixes[j], fixes[k]);
    }
  }

  lemma FinalizedBacked(c: Chain, i: nat)
    requires i < |c.frags| && Roomy(c, i) && FixSize(c, i) == c.frags[i].fix
    ensures Backed(LaidOut(Finalized(c)), i)
  {
    hide Settled, AlignPad, Pow2, Addr;
    FinalizedAt(c, i);
    var f, g := c.frags[i], LaidOut(Finalized(c)).frags[i];
    assert g.fix == f.fix && g.literal == f.literal && g.rep <= Pattern(f);
    assert FixSize(LaidOut(Finalized(c)), i) == FixSize(Finalized(c), i);
  }

  /** The fixup pass finds what it relies on. */
  lemma ReadyForFixups(m: Machine, st: State)
    requires Parsed(m, st) && ConvertsWell(m)
    ensures Linked(BeforeFixups(m, st)) && WellFormed(BeforeFixups(m, st).chain)
  {
    hide Relaxed, ConvertFirst, Finalized, FixesPlaced, ConvertsFrag;
    var c := Relaxed(m, st.symbols, st.chain);
    var (d, more) := ConvertFirst(m, c, |c.frags|);
    RelaxedConvertible(m, st);
    forall i | 0 <= i < |d.frags|
      ensures Backed(LaidOut(Finalized(d)), i) && c.frags[i].symbol < |st.symbols|
    {
      assert Roomy(st.chain, i);
      RelaxedRoomy(m, st.symbols, st.chain, i);
      ConvertedAt(m, c, |c.frags|, i);
      ConvertedRoomy(m, c.frags[i]);
      FinalizedBacked(d, i);
    }
    var after := BeforeFixups(m, st);
    ConvertedFixes(m, c, |c.frags|, |st.symbols|);
    forall i | 0 <= i < |after.fixes|
      ensures FixupOk(after, after.fixes[i])
    {
    }
  }

  lemma ConvertedRoomy(m: Machine, f: Frag)
    requires ConvertsWell(m) && f.fix <= |f.literal|
    ensures m.convert(f).frag.fix + Pattern(m.convert(f).frag) <= |m.convert(f).frag.literal|
  {
    hide SeatedIn, ApartIn;
    assert ConvertsFrag(m, f);
  }

  lemma RelaxedConvertible(m: Machine, st: State)
    requires Parsed(m, st)
    ensures Convertible(Relaxed(m, st.symbols, st.chain))
  {
    hide Relaxed, FixesPlaced;
    var c := Relaxed(m, st.symbols, st.chain);
    forall i | 0 <= i < |c.frags|
      ensures FixSize(c, i) == c.frags[i].fix <= |c.frags[i].literal|
      ensures c.live >= 0 && i == |c.frags| - 1 ==> !c.frags[i].kind.Machine?
    {
      assert Roomy(st.chain, i);
      RelaxedRoomy(m, st.symbols, st.chain, i);
    }
  }

  /** `nyxstone_glue_resolve_text_fixups` */
  function Resolve(m: Machine, st: State, base: bv64, bufferOk: bool): (State, nat)
    requires Parsed(m, st) && ConvertsWell(m)
  {
    ReadyForFixups(m, st);
    Applied(m.gas, BeforeFixups(m, st), base, bufferOk)
  }

  lemma SymbolsStay(gas: Gas, st: State, base: bv64, bufferOk: bool)
    requires Linked(st) && WellFormed(st.chain)
    ensures Applied(gas, st, base, bufferOk).0.symbols == st.symbols
  {
    hide CopiedBack, EncodeFirst, Image;
  }

  /** Relaxing, converting, settling and laying out leave every field in the fixed part of its frag. */
  lemma FixesArePlaced(m: Machine, st: State)
    requires Parsed(m, st) && ConvertsWell(m)
    ensures FixesPlaced(BeforeFixups(m, st).chain, BeforeFixups(m, st).fixes)
  {
    hide Relaxed, ConvertFirst, Finalized, FixesPlaced, ConvertsFrag, Convertible;
    var c := Relaxed(m, st.symbols, st.chain);
    forall i | 0 <= i < |c.frags|
      ensures c.frags[i].literal == st.chain.frags[i].literal && FixSize(c, i) == FixSize(st.chain, i)
    {
      assert Roomy(st.chain, i);
      RelaxedRoomy(m, st.symbols, st.chain, i);
    }
    RelaxedConvertible(m, st);
    PlacedSame(st.chain, c, st.fixes);
    ConvertedPlaced(m, c, |c.frags|, st.fixes);
    var (d, more) := ConvertFirst(m, c, |c.frags|);
    var e := LaidOut(Finalized(d));
    forall i | 0 <= i < |d.frags|
      ensures e.frags[i].literal == d.frags[i].literal && FixSize(e, i) == FixSize(d, i)
    {
      FinalizedAt(d, i);
      SettledKeeps(d.frags[i], Addr(Finalized(d), i), FixSize(d, i));
    }
    PlacedSame(d, e, st.fixes + more);
  }

  lemma SettledKeeps(f: Frag, addr: nat, fix: nat)
    ensures Settle(f, addr, fix).literal == f.literal && Settle(f, addr, fix).fix == f.fix
  {
    hide AlignPad, Pow2;
  }

  /** What the fixup pass relies on holds of what the passes before it leave, at the addresses of the
      final layout. */
  lemma FieldsArePlaced(m: Machine, st: State)
    requires Parsed(m, st) && ConvertsWell(m)
    ensures
      var s := BeforeFixups(m, st);
      && Linked(s) && WellFormed(s.chain) && AtAddresses(s.chain)
      && WellPlaced(s, Image(s.chain, |s.chain.frags|))
  {
    hide FixesPlaced, WellPlaced, Image, Linked, WellFormed, ConvertsWell, Parsed, Relaxed, ConvertFirst, Finalized;
    ReadyForFixups(m, st);
    FixesArePlaced(m, st);
    var s := BeforeFixups(m, st);
    forall i | 0 <= i < |s.chain.frags|
      ensures s.chain.frags[i].address == Addr(s.chain, i)
    {
      FixupsSeeFinalLayout(m, st, i);
    }
    PlacedByFrag(s);
  }

  /** In the bytes extracted at the end every fixup with a defined symbol carries its value. */
  ghost predicate AllLanded(gas: Gas, s: State, base: bv64, after: State)
    requires Linked(s) && WellFormed(s.chain)
  {
    && WellFormed(after.chain)
    && var img, out := Image(s.chain, |s.chain.frags|), Image(after.chain, |after.chain.frags|);
       && |out| == |img|
       && forall i :: 0 <= i < |s.fixes| && Defined(s, i) ==> Landed(gas, s, base, img, out, i)
  }

  lemma SilentIsLanded(gas: Gas, s: State, base: bv64, after: State)
    requires Linked(s) && WellFormed(s.chain) && WellPlaced(s, Image(s.chain, |s.chain.frags|))
    requires FixesPlaced(s.chain, s.fixes) && Silent(gas, s, base, true, after)
    ensures AllLanded(gas, s, base, after)
  {
    hide Landed, WellPlaced, Image, EncodeFirst, CopiedBack, Applied, Untouched, FixesPlaced, Addr;
    if End(s.chain) > 0 {
      EndToEnd(gas, s, base, after);
    } else {
      EmptySilent(gas, s, base);
      NothingDefined(s);
    }
  }

  lemma NothingDefined(s: State)
    requires Linked(s) && WellFormed(s.chain) && FixesPlaced(s.chain, s.fixes) && End(s.chain) == 0
    ensures forall i :: 0 <= i < |s.fixes| ==> !Defined(s, i)
  {
    hide FixesPlaced;
    forall i | 0 <= i < |s.fixes|
      ensures !Defined(s, i)
    {
      if Defined(s, i) {
        FixupsNeedBytes(s, i);
      }
    }
  }

  lemma EmptySilent(gas: Gas, s: State, base: bv64)
    requires Linked(s) && WellFormed(s.chain) && End(s.chain) == 0
    ensures Applied(gas, s, base, true).0.chain == s.chain
  {
    hide RecordedAll, Unresolved;
  }

  lemma ErrorsOnlyGrow(m: Machine, st: State, base: bv64, bufferOk: bool)
    requires Parsed(m, st) && ConvertsWell(m)
    ensures st.errors <= BeforeFixups(m, st).errors <= Resolve(m, st, base, bufferOk).0.errors
  {
    hide Relaxed, ConvertFirst, Finalized, EncodeFirst, CopiedBack, Image, OrgErrors, ConvertsWell;
    ReadyForFixups(m, st);
  }

  /** End to end, for the whole resolution, converted branches included: if it reports nothing,
      every fixup with a defined symbol carries its value in the bytes extracted afterwards, at the
      addresses of the final layout. */
  lemma ResolveEndToEnd(m: Machine, st: State, base: bv64)
    requires Parsed(m, st) && ConvertsWell(m)
    requires Resolve(m, st, base, true).0.errors == st.errors && Resolve(m, st, base, true).0.unsupported.None?
    ensures Linked(BeforeFixups(m, st)) && WellFormed(BeforeFixups(m, st).chain)
      && AtAddresses(BeforeFixups(m, st).chain)
    ensures AllLanded(m.gas, BeforeFixups(m, st), base, Resolve(m, st, base, true).0)
  {
    hide BeforeFixups, Applied, AllLanded, WellPlaced, Image, ConvertsWell, Parsed, FixesPlaced, AtAddresses;
    FieldsArePlaced(m, st);
    FixesArePlaced(m, st);
    ErrorsOnlyGrow(m, st, base, true);
    SilentIsLanded(m.gas, BeforeFixups(m, st), base, Resolve(m, st, base, true).0);
  }

  /** A silent resolution has encoded a field that was not right already if and only if the image
      buffer could be allocated. */
  lemma ResolvedIffBuffer(m: Machine, st: State, base: bv64, bufferOk: bool, i: nat)
    requires Parsed(m, st) && ConvertsWell(m)
    requires Resolve(m, st, base, bufferOk).0.errors == st.errors && Resolve(m, st, base, bufferOk).0.unsupported.None?
    requires Linked(BeforeFixups(m, st)) && WellFormed(BeforeFixups(m, st).chain)
    requires i < |BeforeFixups(m, st).fixes| && Defined(BeforeFixups(m, st), i)
    requires
      var s := BeforeFixups(m, st);
      !Resolved(m.gas, s, base, Image(s.chain, |s.chain.frags|), i)
    ensures
      var s, after := BeforeFixups(m, st), Resolve(m, st, base, bufferOk).0;
      && WellFormed(after.chain)
      && (Resolved(m.gas, s, base, Image(after.chain, |after.chain.frags|), i) <==> bufferOk)
  {
    hide BeforeFixups, Applied, Resolved, WellPlaced, Image, ConvertsWell, Parsed, FixesPlaced, AtAddresses, End;
    FieldsArePlaced(m, st);
    FixesArePlaced(m, st);
    ErrorsOnlyGrow(m, st, base, bufferOk);
    FixupsNeedBytes(BeforeFixups(m, st), i);
    EncodedIffBuffer(m.gas, BeforeFixups(m, st), base, bufferOk, i);
  }

  lemma {:induction false} EncodingIgnoresReports(gas: Gas, st: State, s: State, base: bv64, img: seq<bv8>, n: nat)
    requires Linked(st) && Linked(s) && s == st.(errors := s.errors, unsupported := s.unsupported) && n <= |st.fixes|
    ensures EncodeFirst(gas, s, base, img, n) == EncodeFirst(gas, st, base, img, n)
  {
    hide ValueFor, Encoded, Resolvable, Pos;
    if n > 0 {
      EncodingIgnoresReports(gas, st, s, base, img, n - 1);
      SameValue(gas, st, s, base, st.fixes[n - 1]);
    }
  }

  lemma ApplyingIgnoresReports(gas: Gas, st: State, s: State, base: bv64, bufferOk: bool)
    requires Linked(st) && WellFormed(st.chain) && s == st.(errors := s.errors, unsupported := s.unsupported)
    ensures Linked(s)
    ensures
      var (a, n) := Applied(gas, st, base, bufferOk);
      && a.errors >= st.errors
      && Applied(gas, s, base, bufferOk) == (a.(errors := a.errors - st.errors + s.errors), n)
  {
    hide EncodeFirst, CopiedBack, Image, Recorded, End;
    ReportsDoNotMatter(gas, st, s);
    EncodingIgnoresReports(gas, st, s, base, Image(st.chain, |st.chain.frags|), |st.fixes|);
    assert Applied(gas, s, base, bufferOk).0.fixes == Applied(gas, st, base, bufferOk).0.fixes;
  }

  /** The resolution only adds to the error counter, and what it adds depends neither on the
      counter nor on what an earlier resolution left in `g_unsupported_reloc`. */
  lemma ResolutionIgnoresReports(m: Machine, st: State, s: State, base: bv64, bufferOk: bool)
    requires Parsed(m, st) && ConvertsWell(m) && s == st.(errors := s.errors, unsupported := s.unsupported)
    ensures Parsed(m, s)
    ensures
      var (a, n) := Resolve(m, st, base, bufferOk);
      && a.errors >= st.errors && a.symbols == st.symbols
      && Resolve(m, s, base, bufferOk) == (a.(errors := a.errors - st.errors + s.errors), n)
  {
    hide Relaxed, ConvertFirst, Finalized, OrgErrors, Applied;
    ReadyForFixups(m, st);
    var t, u := BeforeFixups(m, st), BeforeFixups(m, s);
    assert u == t.(errors := u.errors, unsupported := u.unsupported);
    ApplyingIgnoresReports(m.gas, t, u, base, bufferOk);
    SymbolsStay(m.gas, t, base, bufferOk);
  }

  /** The addresses the fixups are resolved at are those of the final layout, whatever padding was
      inserted: the sum of what lies before. */
  lemma FixupsSeeFinalLayout(m: Machine, st: State, i: nat)
    requires Parsed(m, st) && i < |st.chain.frags|
    ensures BeforeFixups(m, st).chain.frags[i].address == Addr(BeforeFixups(m, st).chain, i)
  {
    hide Relaxed, ConvertFirst;
    var c := Relaxed(m, st.symbols, st.chain);
    var d := ConvertFirst(m, c, |c.frags|).0;
    LayoutAgrees(d);
    FinalizedAt(d, i);
  }

  // ----- what a resolution reports ---------------------------------------------------------------------------

  /** The chain once its branches are relaxed and converted, the padding still to be settled. */
  function Converted(m: Machine, st: State): Chain
    requires Parsed(m, st)
  {
    var c := Relaxed(m, st.symbols, st.chain);
    ConvertFirst(m, c, |c.frags|).0
  }

  /** Nothing is encoded without the buffer, nor in an empty section. */
  lemma AppliedReports(gas: Gas, s: State, base: bv64, bufferOk: bool)
    requires Linked(s) && WellFormed(s.chain) && WellPlaced(s, Image(s.chain, |s.chain.frags|))
    requires FixesPlaced(s.chain, s.fixes)
    ensures
      var r := Applied(gas, s, base, bufferOk).0;
      && (r.unsupported.None? <==> bufferOk ==> forall i :: 0 <= i < |s.fixes| ==> !Formless(s, i))
      && (r.unsupported.Some? ==> exists i ::
            0 <= i < |s.fixes| && Formless(s, i) && r.unsupported.value == FormName(s.fixes[i])
            && forall k :: i < k < |s.fixes| ==> !Formless(s, k))
      && r.errors >= s.errors
      && (r.errors == s.errors <==> bufferOk ==> forall i :: 0 <= i < |s.fixes| ==> !OutOfRange(gas, s, base, i))
  {
    hide EncodeFirst, Image, CopiedBack, RecordedAll, Unresolved, WellPlaced, FixesPlaced, FormName, WellFormed;
    LoopReports(gas, s, base, Image(s.chain, |s.chain.frags|), |s.fixes|);
    if End(s.chain) == 0 {
      NothingDefined(s);
      forall i | 0 <= i < |s.fixes|
        ensures !Formless(s, i) && !OutOfRange(gas, s, base, i)
      {
        assert !Defined(s, i);
      }
    }
  }

  /** What a resolution reports: a form if and only if a fixup to be encoded has none, and then that of
      the last of them; an error if and only if an `.org` moves backwards or a value is out of range. */
  lemma ResolveReports(m: Machine, st: State, base: bv64, bufferOk: bool)
    requires Parsed(m, st) && ConvertsWell(m)
    ensures Linked(BeforeFixups(m, st))
    ensures
      var s, r := BeforeFixups(m, st), Resolve(m, st, base, bufferOk).0;
      && (r.unsupported.None? <==> bufferOk ==> forall i :: 0 <= i < |s.fixes| ==> !Formless(s, i))
      && (r.unsupported.Some? ==> exists i ::
            0 <= i < |s.fixes| && Formless(s, i) && r.unsupported.value == FormName(s.fixes[i])
            && forall k :: i < k < |s.fixes| ==> !Formless(s, k))
    ensures
      var s, r := BeforeFixups(m, st), Resolve(m, st, base, bufferOk).0;
      r.errors == st.errors <==>
        && (forall i :: 0 <= i < |Converted(m, st).frags| ==> !OrgBackwards(Converted(m, st), i))
        && (bufferOk ==> forall i :: 0 <= i < |s.fixes| ==> !OutOfRange(m.gas, s, base, i))
  {
    hide BeforeFixups, Applied, WellPlaced, Image, ConvertsWell, Parsed, FixesPlaced, AtAddresses, OrgBackwards,
      Formless, OutOfRange, FormName, Linked, WellFormed;
    FieldsArePlaced(m, st);
    FixesArePlaced(m, st);
    OrgReports(m, st);
    AppliedReports(m.gas, BeforeFixups(m, st), base, bufferOk);
  }

  lemma OrgReports(m: Machine, st: State)
    requires Parsed(m, st)
    ensures BeforeFixups(m, st).errors >= st.errors
    ensures BeforeFixups(m, st).errors == st.errors <==>
            forall i :: 0 <= i < |Converted(m, st).frags| ==> !OrgBackwards(Converted(m, st), i)
  {
    hide Relaxed, ConvertFirst, Finalized, OrgErrors, OrgBackwards, Parsed;
    NoOrgErrors(Converted(m, st), |Converted(m, st).frags|);
  }

  // ----- what gas has made arrives at the fixup pass ----------------------------------------------------------

  /** The fixups that converting the first `n` frags emits are those of the branches among them, each
      in its own frag. */
  lemma {:induction false} EmittedFirst(m: Machine, c: Chain, n: nat, i: nat, k: nat) returns (j: nat)
    requires i < n <= |c.frags| && c.frags[i].kind.Machine? && k < |m.convert(c.frags[i]).fixes|
    ensures j < |ConvertFirst(m, c, n).1|
    ensures ConvertFirst(m, c, n).1[j] == m.convert(c.frags[i]).fixes[k].(frag := i)
  {
    if i == n - 1 {
      j := |ConvertFirst(m, c, n - 1).1| + k;
    } else {
      j := EmittedFirst(m, c, n - 1, i, k);
    }
  }

  lemma {:induction false} EmittedFrom(m: Machine, c: Chain, n: nat, j: nat) returns (i: nat, k: nat)
    requires n <= |c.frags| && j < |ConvertFirst(m, c, n).1|
    ensures i < n && c.frags[i].kind.Machine? && k < |m.convert(c.frags[i]).fixes|
    ensures ConvertFirst(m, c, n).1[j] == m.convert(c.frags[i]).fixes[k].(frag := i)
  {
    if j < |ConvertFirst(m, c, n - 1).1| {
      i, k := EmittedFrom(m, c, n - 1, j);
    } else {
      i, k := n - 1, j - |ConvertFirst(m, c, n - 1).1|;
    }
  }

  /** Every fixup that `md_convert_frag` emits for a branch gets applied, in the frag of the branch. */
  lemma EmittedIsApplied(m: Machine, st: State, i: nat, k: nat) returns (j: nat)
    requires Parsed(m, st) && i < |st.chain.frags|
    requires
      var f := Relaxed(m, st.symbols, st.chain).frags[i];
      f.kind.Machine? && k < |m.convert(f).fixes|
    ensures |st.fixes| <= j < |BeforeFixups(m, st).fixes|
    ensures BeforeFixups(m, st).fixes[j] ==
            m.convert(Relaxed(m, st.symbols, st.chain).frags[i]).fixes[k].(frag := i)
  {
    hide Relaxed, ConvertFirst, Finalized, OrgErrors;
    var c := Relaxed(m, st.symbols, st.chain);
    j := EmittedFirst(m, c, |c.frags|, i, k);
    j := |st.fixes| + j;
  }

  /** And every fixup that gets applied is one of the parser's or one that a branch emitted. */
  lemma AppliedIsEmitted(m: Machine, st: State, j: nat) returns (i: nat, k: nat)
    requires Parsed(m, st) && j < |BeforeFixups(m, st).fixes|
    ensures |st.fixes| <= |BeforeFixups(m, st).fixes|
    ensures j < |st.fixes| ==> BeforeFixups(m, st).fixes[j] == st.fixes[j]
    ensures j >= |st.fixes| ==>
              && i < |st.chain.frags|
              && var f := Relaxed(m, st.symbols, st.chain).frags[i];
                 && f.kind.Machine? && k < |m.convert(f).fixes|
                 && BeforeFixups(m, st).fixes[j] == m.convert(f).fixes[k].(frag := i)
  {
    hide Relaxed, ConvertFirst, Finalized, OrgErrors;
    var c := Relaxed(m, st.symbols, st.chain);
    i, k := 0, 0;
    if j >= |st.fixes| {
      i, k := EmittedFrom(m, c, |c.frags|, j - |st.fixes|);
    }
  }

  /** The bytes of a frag that the fixups are applied to: of a branch, those `md_convert_frag` has put
      there for the form relaxing has chosen; of any other frag, those of the parser. */
  lemma FragBytes(m: Machine, st: State, i: nat)
    requires Parsed(m, st) && i < |st.chain.frags|
    ensures
      var f, g := Relaxed(m, st.symbols, st.chain).frags[i], BeforeFixups(m, st).chain.frags[i];
      if f.kind.Machine? then g.literal == m.convert(f).frag.literal && g.fix == m.convert(f).frag.fix
      else
        && g.literal == st.chain.frags[i].literal
        && g.fix == if i == |st.chain.frags| - 1 && st.chain.live >= 0 then st.chain.live else st.chain.frags[i].fix
  {
    hide Relaxed, ConvertFirst, Finalized, OrgErrors, Settle, Addr;
    var c := Relaxed(m, st.symbols, st.chain);
    var d := ConvertFirst(m, c, |c.frags|).0;
    assert Roomy(st.chain, i);
    RelaxedRoomy(m, st.symbols, st.chain, i);
    ConvertedAt(m, c, |c.frags|, i);
    FinalizedAt(d, i);
    SettledKeeps(d.frags[i], Addr(Finalized(d), i), FixSize(d, i));
  }

  // ----- relaxing goes on until nothing changes ----------------------------------------------------------------

  /** The chain after the first `n` calls of `relax_segment`. */
  function AfterCalls(m: Machine, symbols: seq<Symbol>, c: Chain, n: nat): (d: Chain)
    requires SubtypesOk(m.table, c)
    ensures |d.frags| == |c.frags| && d.live == c.live && SubtypesOk(m.table, d)
  {
    if n == 0 then c else RelaxPass(m, symbols, AfterCalls(m, symbols, c, n - 1), n - 1)
  }

  lemma {:induction false} LoopStops(m: Machine, symbols: seq<Symbol>, c: Chain, pass: nat) returns (n: nat)
    requires SubtypesOk(m.table, c) && pass <= 32
    ensures pass < n <= 33
    ensures RelaxLoop(m, symbols, AfterCalls(m, symbols, c, pass), pass) == AfterCalls(m, symbols, c, n)
    ensures n == 33 || AfterCalls(m, symbols, c, n) == AfterCalls(m, symbols, c, n - 1)
    ensures forall k :: pass < k < n ==> AfterCalls(m, symbols, c, k) != AfterCalls(m, symbols, c, k - 1)
    decreases 32 - pass
  {
    hide RelaxPass;
    var d, e := AfterCalls(m, symbols, c, pass), AfterCalls(m, symbols, c, pass + 1);
    assert e == RelaxPass(m, symbols, d, pass);
    if e != d && pass < 32 {
      n := LoopStops(m, symbols, c, pass + 1);
    } else {
      n := pass + 1;
    }
  }

  /** One call moves each branch along the links of its chain, as far as `relax_segment` says, which is
      told where the branch leads, and moves nothing else. */
  lemma CallFollows(m: Machine, symbols: seq<Symbol>, c: Chain, pass: nat, i: nat) returns (k: nat)
    requires SubtypesOk(m.table, c) && i < |c.frags|
    ensures
      var f, g := c.frags[i], RelaxPass(m, symbols, c, pass).frags[i];
      var place := if 0 <= f.symbol < |symbols| then Some(symbols[f.symbol].place) else None;
      && g == f.(subtype := g.subtype)
      && if f.kind.Machine? then
           && f.subtype < |m.table| && g.subtype < |m.table| && k <= m.moves(c, i, place, pass)
           && Leads(m.table, f.subtype, g.subtype, k)
           && (k == m.moves(c, i, place, pass) || m.table[g.subtype] == 0)
         else g == f
  {
    k := 0;
    assert SubtypeOk(m.table, c.frags[i]);
    if c.frags[i].kind.Machine? {
      k := GrownFollows(m.table, c.frags[i].subtype, m.moves(c, i, Destination(symbols, c.frags[i]), pass));
    }
  }

  /** Where relaxing starts: a branch into the section in the shortest form of its chain, a branch out of
      it in the longest. */
  lemma RelaxingStarts(m: Machine, symbols: seq<Symbol>, c: Chain, i: nat)
    requires SubtypesOk(m.table, c) && Acyclic(m.table)
    requires i < |c.frags| && c.frags[i].kind.Machine? && 0 <= c.frags[i].symbol < |symbols|
    requires 0 < c.frags[i].subtype < |m.table|
    ensures
      var r := Start(m.table, symbols, c).frags[i].subtype;
      && r < |m.table|
      && if symbols[c.frags[i].symbol].place.InText? then
           !HasPredecessor(m.table, r) && Reaches(m.table, r, c.frags[i].subtype)
         else m.table[r] == 0 && Reaches(m.table, c.frags[i].subtype, r)
  {
    hide Addr, Head, Terminal, Start, HasPredecessor;
    StartSubtype(m.table, symbols, c, i);
    HeadIsHead(m.table, c.frags[i].subtype);
    TerminalIsTerminal(m.table, c.frags[i].subtype);
  }

  /** `relax_segment` is called until a call changes nothing, 33 times at most. */
  lemma RelaxingStops(m: Machine, symbols: seq<Symbol>, c: Chain) returns (n: nat)
    requires SubtypesOk(m.table, c)
    ensures
      var d := Start(m.table, symbols, c);
      && 0 < n <= 33 && Relaxed(m, symbols, c) == AfterCalls(m, symbols, d, n)
      && (n == 33 || AfterCalls(m, symbols, d, n) == AfterCalls(m, symbols, d, n - 1))
      && forall k :: 0 < k < n ==> AfterCalls(m, symbols, d, k) != AfterCalls(m, symbols, d, k - 1)
  {
    hide RelaxLoop, RelaxPass, Start;
    n := LoopStops(m, symbols, Start(m.table, symbols, c), 0);
  }

  // ----- base invariance of the whole resolution ------------------------------------------------------------

  /** Branches to absolute symbols are at the end of their chain. */
  ghost predicate Pinned(t: Table, symbols: seq<Symbol>, c: Chain) {
    forall i :: 0 <= i < |c.frags| && c.frags[i].kind.Machine? ==>
      match Destination(symbols, c.frags[i])
      case Some(Absolute(_)) => c.frags[i].subtype < |t| && t[c.frags[i].subtype] == 0
      case _ => true
  }

  lemma GrownPinned(m: Machine, symbols: seq<Symbol>, d: bv64, ks: set<int>, c: Chain, pass: nat, i: nat)
    requires SubtypesOk(m.table, c) && Pinned(m.table, symbols, c) && i < |c.frags| && SubtypeOk(m.table, c.frags[i])
    ensures GrownFrag(m, Moved(symbols, d, ks), c, i, pass) == GrownFrag(m, symbols, c, i, pass)
  {
    hide Plus;
  }

  lemma PassMoved(m: Machine, symbols: seq<Symbol>, d: bv64, ks: set<int>, c: Chain, pass: nat)
    requires SubtypesOk(m.table, c) && Pinned(m.table, symbols, c)
    ensures RelaxPass(m, Moved(symbols, d, ks), c, pass) == RelaxPass(m, symbols, c, pass)
    ensures Pinned(m.table, symbols, RelaxPass(m, symbols, c, pass))
  {
    hide Moved, GrownFrag;
    forall i | 0 <= i < |c.frags|
      ensures GrownFrag(m, Moved(symbols, d, ks), c, i, pass) == GrownFrag(m, symbols, c, i, pass)
    {
      assert SubtypeOk(m.table, c.frags[i]);
      GrownPinned(m, symbols, d, ks, c, pass, i);
    }
    assert RelaxPass(m, Moved(symbols, d, ks), c, pass).frags == RelaxPass(m, symbols, c, pass).frags;
    forall i | 0 <= i < |c.frags| && c.frags[i].kind.Machine?
      ensures GrownFrag(m, symbols, c, i, pass).symbol == c.frags[i].symbol
    {
      assert SubtypeOk(m.table, c.frags[i]);
      GrownKeeps(m, symbols, c, i, pass);
    }
    PassPinned(m, symbols, c, pass);
  }

  lemma GrownKeeps(m: Machine, symbols: seq<Symbol>, c: Chain, i: nat, pass: nat)
    requires i < |c.frags| && SubtypeOk(m.table, c.frags[i])
    ensures GrownFrag(m, symbols, c, i, pass).symbol == c.frags[i].symbol
    ensures c.frags[i].kind.Machine? && m.table[c.frags[i].subtype] == 0 ==>
              GrownFrag(m, symbols, c, i, pass) == c.frags[i]
    ensures GrownFrag(m, symbols, c, i, pass).kind == c.frags[i].kind
  {
  }

  lemma PassPinned(m: Machine, symbols: seq<Symbol>, c: Chain, pass: nat)
    requires SubtypesOk(m.table, c) && Pinned(m.table, symbols, c)
    ensures Pinned(m.table, symbols, RelaxPass(m, symbols, c, pass))
  {
    hide GrownFrag;
    forall i | 0 <= i < |c.frags|
      ensures RelaxPass(m, symbols, c, pass).frags[i].symbol == c.frags[i].symbol
      ensures RelaxPass(m, symbols, c, pass).frags[i].kind == c.frags[i].kind
      ensures c.frags[i].kind.Machine? && m.table[c.frags[i].subtype] == 0 ==>
                RelaxPass(m, symbols, c, pass).frags[i] == c.frags[i]
    {
      assert SubtypeOk(m.table, c.frags[i]);
      GrownKeeps(m, symbols, c, i, pass);
    }
  }

  lemma {:induction false} LoopMoved(m: Machine, symbols: seq<Symbol>, d: bv64, ks: set<int>, c: Chain, pass: nat)
    requires SubtypesOk(m.table, c) && Pinned(m.table, symbols, c) && pass <= 32
    ensures RelaxLoop(m, Moved(symbols, d, ks), c, pass) == RelaxLoop(m, symbols, c, pass)
    decreases 32 - pass
  {
    hide RelaxPass, Moved, Pinned;
    PassMoved(m, symbols, d, ks, c, pass);
    var e := RelaxPass(m, symbols, c, pass);
    if e != c && pass < 32 {
      LoopMoved(m, symbols, d, ks, e, pass + 1);
    }
  }

  /** Every branch frag has a real relax state. */
  predicate Relaxable(t: Table, c: Chain) {
    forall i :: 0 <= i < |c.frags| && c.frags[i].kind.Machine? ==> 0 < c.frags[i].subtype < |t|
  }

  lemma SeedMoved(t: Table, symbols: seq<Symbol>, d: bv64, ks: set<int>, f: Frag)
    requires SubtypeOk(t, f)
    ensures SeededFrag(t, Moved(symbols, d, ks), f) == SeededFrag(t, symbols, f)
  {
    hide Head, Terminal, Plus;
  }

  lemma StartMoved(t: Table, symbols: seq<Symbol>, d: bv64, ks: set<int>, c: Chain)
    requires SubtypesOk(t, c) && Acyclic(t) && Relaxable(t, c)
    ensures Start(t, Moved(symbols, d, ks), c) == Start(t, symbols, c)
    ensures Pinned(t, symbols, Start(t, symbols, c))
  {
    hide Addr, Head, Terminal, Moved;
    PreparedSubtypes(t, c);
    var p := LaidOut(Prepared(c));
    forall i | 0 <= i < |p.frags|
      ensures SubtypeOk(t, p.frags[i])
      ensures SeededFrag(t, Moved(symbols, d, ks), p.frags[i]) == SeededFrag(t, symbols, p.frags[i])
    {
      assert SubtypeOk(t, p.frags[i]);
      SeedMoved(t, symbols, d, ks, p.frags[i]);
    }
    assert Start(t, Moved(symbols, d, ks), c).frags == Start(t, symbols, c).frags;
    forall i | 0 <= i < |p.frags| && p.frags[i].kind.Machine?
      ensures p.frags[i].subtype < |t| && t[Terminal(t, p.frags[i].subtype)] == 0
    {
      assert p.frags[i].subtype == c.frags[i].subtype && c.frags[i].kind.Machine?;
      TerminalIsTerminal(t, p.frags[i].subtype);
    }
  }

  lemma BeforeFixupsMoved(m: Machine, st: State, d: bv64, ks: set<int>)
    requires Parsed(m, st) && Acyclic(m.table) && Relaxable(m.table, st.chain)
    ensures Parsed(m, MovedState(st, d, ks))
    ensures BeforeFixups(m, MovedState(st, d, ks)) == MovedState(BeforeFixups(m, st), d, ks)
  {
    hide RelaxLoop, ConvertFirst, Finalized, Start, Plus;
    StartMoved(m.table, st.symbols, d, ks, st.chain);
    LoopMoved(m, st.symbols, d, ks, Start(m.table, st.symbols, st.chain), 0);
  }

  /** Assembling at another base, with every absolute symbol moved by the same amount: if the
      references that get encoded are all pc-relative, the result is the same, bytes included. */
  lemma ResolutionIsBaseInvariant(m: Machine, st: State, base: bv64, d: bv64, ks: set<int>, bufferOk: bool)
    requires Parsed(m, st) && ConvertsWell(m) && Acyclic(m.table) && Relaxable(m.table, st.chain)
    requires Linked(BeforeFixups(m, st)) && Movable(BeforeFixups(m, st), ks)
    ensures Parsed(m, MovedState(st, d, ks))
    ensures
      var (after, n) := Resolve(m, st, base, bufferOk);
      Resolve(m, MovedState(st, d, ks), Plus(base, d), bufferOk) == (MovedState(after, d, ks), n)
  {
    hide BeforeFixups, Applied, Plus, Moved, Movable;
    BeforeFixupsMoved(m, st, d, ks);
    ReadyForFixups(m, st);
    BaseInvariance(m.gas, BeforeFixups(m, st), base, d, ks, bufferOk);
  }
}
