/** The text section as src/nyxstone_glue.c handles it: an object whose passes rewrite the frag
    chain, the fixups and the error state in place.  Each pass is proved against the function that
    specifies it in Passes, Fixups or Frags.
 */
module TextSection {
  import opened Options
  import opened Encode
  import opened Frags
  import opened Fixups
  import opened Passes
  import opened RelaxChain

  /** The section after a reset and the parse that ends in `p`. */
  function Loaded(st: State, p: State): State {
    p.(errors := st.errors + p.errors, unsupported := st.unsupported)
  }

  class Section {
    const machine: Machine
    var frags: seq<Frag>
    var live: int
    var fixes: seq<Fixup>
    var symbols: seq<Symbol>
    var errors: nat
    var unsupported: Option<string>

    constructor (machine: Machine, st: State)
      ensures this.machine == machine && View() == st
    {
      this.machine := machine;
      frags, live, fixes, symbols, errors, unsupported :=
        st.chain.frags, st.chain.live, st.fixes, st.symbols, st.errors, st.unsupported;
    }

    function ChainView(): Chain
      reads this
    {
      Chain(frags, live)
    }

    function View(): State
      reads this
    {
      State(ChainView(), fixes, symbols, errors, unsupported)
    }

    /** `nyxstone_glue_reset` and gas's work on the statements of a source: a new chain and symbol
        table.  The error counter goes on counting, and `unsupported` keeps its stale value. */
    method Load(p: State)
      modifies this
      ensures View() == Loaded(old(View()), p)
    {
      frags, live, fixes, symbols := p.chain.frags, p.chain.live, p.fixes, p.symbols;
      errors := errors + p.errors;
    }

    /** `nyxstone_glue_define_abs`: a name the source left undefined becomes an absolute symbol in
        place; one the source defines is an error. */
    method DefineAbs(name: string, value: bv64)
      modifies this`symbols, this`errors
      ensures View() == DefinedAbs(old(View()), name, value)
    {
      var i := 0;
      while i < |symbols|
        invariant i <= |symbols| && SymbolIndex(symbols, name, i) == SymbolIndex(symbols, name, 0)
      {
        if symbols[i].name == name {
          if symbols[i].place.Undefined? {
            symbols := symbols[i := Symbol(name, Absolute(value))];
          } else {
            errors := errors + 1;
          }
          return;
        }
        i := i + 1;
      }
      symbols := symbols + [Symbol(name, Absolute(value))];
    }

    /** `layout` */
    method Layout()
      modifies this`frags
      ensures ChainView() == LaidOut(old(ChainView()))
    {
      hide Addr, FillSize;
      ghost var c := ChainView();
      var addr := 0;
      var i := 0;
      AddrStart(c);
      while i < |frags|
        invariant i <= |frags| == |c.frags| && addr == Addr(c, i)
        invariant forall k :: 0 <= k < i ==> frags[k] == c.frags[k].(address := Addr(c, k))
        invariant forall k :: i <= k < |frags| ==> frags[k] == c.frags[k]
      {
        var size := FixSize(ChainView(), i) + FillSize(frags[i]);
        assert size == FixSize(c, i) + FillSize(c.frags[i]);
        frags := frags[i := frags[i].(address := addr)];
        addr := addr + size;
        AddrStep(c, i);
        i := i + 1;
      }
      assert frags == LaidOut(c).frags;
    }

    /** One frag of `finalize_align_org`; `backwards` when an `.org` target lies behind. */
    static method SettleFrag(f: Frag, addr: nat, fix: nat) returns (g: Frag, backwards: bool)
      ensures g == Settle(f, addr, fix)
      ensures backwards <==> f.kind == Org && f.offset < addr + fix
    {
      var off := addr + fix;
      g := f.(address := addr);
      backwards := false;
      if f.kind == Align || f.kind == AlignCode {
        var pad := AlignPad(off, Pow2(f.offset));
        if f.subtype != 0 && pad > f.subtype {
          pad := 0;
        }
        g := g.(kind := Fill, offset := pad, rep := 1);
      } else if f.kind == Org {
        var pad := 0;
        if f.offset < off {
          backwards := true;
        } else {
          pad := f.offset - off;
        }
        g := g.(kind := Fill, offset := pad, rep := 1);
      }
    }

    /** `finalize_align_org` */
    method FinalizeAlignOrg()
      modifies this`frags, this`errors
      ensures ChainView() == Finalized(old(ChainView()))
      ensures errors == old(errors) + OrgErrors(old(ChainView()), |old(frags)|)
    {
      hide Settle, Addr;
      ghost var c := ChainView();
      var addr := 0;
      var i := 0;
      AddrStart(c);
      while i < |frags|
        invariant i <= |frags| == |c.frags|
        invariant ChainView() == Settled(c, i) && addr == Addr(Settled(c, i), i)
        invariant errors == old(errors) + OrgErrors(c, i)
      {
        var fix := FixSize(ChainView(), i);
        var g, backwards := SettleFrag(frags[i], addr, fix);
        if backwards {
          errors := errors + 1;
        }
        SettledStep(c, i);
        frags := frags[i := g];
        addr := addr + fix + FillSize(g);
        i := i + 1;
      }
    }

    /** The chain walk of `relax_branches` that prepares the frags. */
    method Prepare()
      modifies this`frags
      ensures ChainView() == Prepared(old(ChainView()))
    {
      ghost var c := ChainView();
      var i := 0;
      while i < |frags|
        invariant i <= |frags| == |c.frags|
        invariant forall k :: 0 <= k < i ==> frags[k] == PreparedFrag(c, k)
        invariant forall k :: i <= k < |frags| ==> frags[k] == c.frags[k]
      {
        var f := frags[i];
        if i == |frags| - 1 && live >= 0 {
          f := f.(fix := live);
        }
        if f.kind == Zeroed {
          f := f.(kind := Fill, rep := 0);
        }
        frags := frags[i := f];
        i := i + 1;
      }
      assert frags == Prepared(c).frags;
    }

    /** The chain walk of `relax_branches` that picks the starting form of each branch. */
    method Seed()
      requires SubtypesOk(machine.table, ChainView())
      modifies this`frags
      ensures ChainView() == Seeded(machine.table, symbols, old(ChainView()))
    {
      hide Head, Terminal;
      ghost var c := ChainView();
      var i := 0;
      while i < |frags|
        invariant i <= |frags| == |c.frags|
        invariant forall k :: 0 <= k < i ==>
                    SubtypeOk(machine.table, c.frags[k]) && frags[k] == SeededFrag(machine.table, symbols, c.frags[k])
        invariant forall k :: i <= k < |frags| ==> frags[k] == c.frags[k]
      {
        var f := frags[i];
        assert SubtypeOk(machine.table, c.frags[i]);
        if f.kind.Machine? && 0 <= f.symbol < |symbols| {
          var s;
          if symbols[f.symbol].place.InText? {
            s := ChainHead(machine.table, f.subtype);
          } else {
            s := ChainTerminal(machine.table, f.subtype);
          }
          frags := frags[i := f.(subtype := s)];
        }
        i := i + 1;
      }
      assert frags == Seeded(machine.table, symbols, c).frags;
    }

    /** `relax_segment`: every branch moves along its chain as far as gas decides. */
    method RelaxSegment(pass: nat) returns (grew: bool)
      requires SubtypesOk(machine.table, ChainView())
      modifies this`frags
      ensures ChainView() == RelaxPass(machine, symbols, old(ChainView()), pass)
      ensures grew <==> ChainView() != old(ChainView())
    {
      hide Grown;
      var c := ChainView();
      var i := 0;
      while i < |frags|
        invariant i <= |frags| == |c.frags|
        invariant forall k :: 0 <= k < i ==>
                    SubtypeOk(machine.table, c.frags[k]) && frags[k] == GrownFrag(machine, symbols, c, k, pass)
        invariant forall k :: i <= k < |frags| ==> frags[k] == c.frags[k]
      {
        var f := frags[i];
        assert SubtypeOk(machine.table, c.frags[i]);
        if f.kind.Machine? {
          var moves := machine.moves(c, i, Destination(symbols, f), pass);
          frags := frags[i := f.(subtype := Grown(machine.table, f.subtype, moves))];
        }
        i := i + 1;
      }
      assert frags == RelaxPass(machine, symbols, c, pass).frags;
      grew := frags != c.frags;
    }

    /** `relax_branches` */
    method RelaxBranches()
      requires SubtypesOk(machine.table, ChainView())
      modifies this`frags
      ensures SubtypesOk(machine.table, old(ChainView()))
      ensures ChainView() == Relaxed(machine, symbols, old(ChainView()))
    {
      hide RelaxPass, Prepared, LaidOut, Seeded;
      ghost var c := ChainView();
      PreparedSubtypes(machine.table, c);
      Prepare();
      Layout();
      Seed();
      ghost var start := ChainView();
      var pass := 0;
      var grew := RelaxSegment(pass);
      while grew && pass < 32
        invariant pass <= 32 && SubtypesOk(machine.table, ChainView())
        invariant if grew && pass < 32 then RelaxLoop(machine, symbols, ChainView(), pass + 1) ==
          RelaxLoop(machine, symbols, start, 0)
                  else ChainView() == RelaxLoop(machine, symbols, start, 0)
        decreases 32 - pass
      {
        pass := pass + 1;
        grew := RelaxSegment(pass);
      }
    }

    /** `md_convert_frag` on every branch frag; the fixups it emits join the chain. */
    method ConvertFrags()
      modifies this`frags, this`fixes
      ensures
        var (d, more) := ConvertFirst(machine, old(ChainView()), |old(frags)|);
        ChainView() == d && fixes == old(fixes) + more
    {
      ghost var c := ChainView();
      var i := 0;
      while i < |frags|
        invariant i <= |frags| == |c.frags|
        invariant ChainView() == ConvertFirst(machine, c, i).0
        invariant fixes == old(fixes) + ConvertFirst(machine, c, i).1
      {
        if frags[i].kind.Machine? {
          var r := machine.convert(frags[i]);
          frags := frags[i := r.frag];
          fixes := fixes + Tagged(r.fixes, i);
        }
        i := i + 1;
      }
    }

    /** `nyxstone_glue_extract_text_bytes`: the size of the image, and the image itself if `out` is
        large enough for it. */
    method ExtractTextBytes(out: array?<bv8>, cap: nat) returns (total: nat)
      requires WellFormed(ChainView()) && (out != null ==> cap <= out.Length)
      modifies out
      ensures total == End(ChainView())
      ensures out != null && total <= cap ==> out[..total] == Image(ChainView(), |frags|)
      ensures out != null ==> forall k :: 0 <= k < out.Length && (k >= cap || k >= total) ==> out[k] == old(out[k])
    {
      hide Filler, Written, Image, Addr, FillSize;
      total := 0;
      ghost var c := ChainView();
      ghost var was := if out == null then [] else out[..];
      ImageNone(c);
      NothingWritten(was, 0);
      var i := 0;
      while i < |frags|
        invariant i <= |frags| && ChainView() == c && total == Addr(c, i)
        invariant out != null && total <= cap ==> out[..] == Written(was, 0, Image(c, i))
        invariant out != null && total > cap ==> out[cap..] == was[cap..]
      {
        ImageStep(c, i + 1);
        var f := frags[i];
        assert Backed(c, i);
        var n := FixSize(ChainView(), i);
        ghost var upTo := Image(c, i);
        if out != null && total <= cap {
          WrittenKeeps(was, upTo, cap);
        }
        if out != null && total + n <= cap {
          Copy(out, total, f.literal[..n]);
          WrittenOn(was, 0, upTo, f.literal[..n]);
          upTo := upTo + f.literal[..n];
          WrittenKeeps(was, upTo, cap);
        }
        total := total + n;
        var fill := FillSize(f);
        if out != null && total + fill <= cap {
          FillPattern(out, total, f);
          WrittenOn(was, 0, upTo, Filler(f));
        }
        total := total + fill;
        i := i + 1;
      }
      if out != null && total <= cap {
        WrittenKeeps(was, Image(c, i), total);
      }
    }

    /** `memcpy` */
    static method Copy(out: array<bv8>, at: nat, src: seq<bv8>)
      requires at + |src| <= out.Length
      modifies out
      ensures out[..] == Written(old(out[..]), at, src)
    {
      var i := 0;
      while i < |src|
        invariant i <= |src|
        invariant out[..] == old(out[..at]) + src[..i] + old(out[at + i..])
      {
        out[at + i] := src[i];
        i := i + 1;
      }
    }

    /** The padding of a frag: its pattern, again and again. */
    static method FillPattern(out: array<bv8>, at: nat, f: Frag)
      requires at + FillSize(f) <= out.Length && f.fix + f.rep <= |f.literal|
      modifies out
      ensures out[..] == Written(old(out[..]), at, Filler(f))
    {
      hide Copies;
      var fill := FillSize(f);
      if fill == 0 {
        return;
      }
      var pattern := f.literal[f.fix..f.fix + f.rep];
      Repeat(out, at, pattern, f.offset, fill);
    }

    static method Repeat(out: array<bv8>, at: nat, pattern: seq<bv8>, ghost n: nat, fill: nat)
      requires |pattern| > 0 && fill == |Copies(pattern, n)| && at + fill <= out.Length
      modifies out
      ensures out[..] == Written(old(out[..]), at, Copies(pattern, n))
    {
      hide Copies, Written;
      var i := 0;
      ghost var q := 0;
      ghost var was := out[..];
      CopiesStep(pattern, 0);
      NothingWritten(was, at);
      while i < fill
        invariant q <= n && i == |Copies(pattern, q)| <= fill
        invariant out[..] == Written(was, at, Copies(pattern, q))
      {
        PatternFits(pattern, q, n);
        CopiesStep(pattern, q);
        WrittenOn(was, at, Copies(pattern, q), pattern);
        Copy(out, at + i, pattern);
        i := i + |pattern|;
        q := q + 1;
      }
      CopiesEnd(pattern, q, n);
    }

    /** The body of the first loop for a fixup the linker will see. */
    method ApplyFix(fx: Fixup) returns (r: Fixup)
      requires FixupOk(View(), fx) && Symbolic(fx) && !Resolvable(View(), fx)
      ensures r == Recorded(machine.gas, View(), fx)
    {
      hide Minus;
      var val := fx.offset;
      if fx.pcrel {
        val := Minus(val, machine.gas.pcrelFrom(ChainView(), fx));
      }
      var recording := machine.gas.applyFix(fx, val);
      r := fx.(addNumber := recording.addNumber, done := fx.done || recording.done);
    }

    /** The first loop of `apply_text_fixups`: fixups the linker will see go through `md_apply_fix`,
        and those it does not complete are counted. */
    method RecordAddends() returns (unresolved: nat)
      requires Linked(View())
      modifies this`fixes
      ensures View() == RecordedAll(machine.gas, old(View()))
      ensures unresolved == Unresolved(View(), |fixes|)
    {
      hide RecordedAll, Recorded, Unresolved, Resolvable;
      ghost var st := View();
      ghost var all := RecordedAll(machine.gas, st);
      unresolved := 0;
      UnresolvedNone(all);
      var i := 0;
      while i < |fixes|
        invariant i <= |fixes| == |st.fixes|
        invariant fixes == all.fixes[..i] + st.fixes[i..]
        invariant unresolved == Unresolved(all, i)
      {
        var fx := fixes[i];
        assert fx == st.fixes[i];
        RecordedNext(machine.gas, st, View(), i);
        Advance(all.fixes, st.fixes, i);
        if fx.sym >= 0 && symbols[fx.sym].place.Undefined? {
          fx := ApplyFix(fx);
          fixes := fixes[i := fx];
          if !fx.done {
            unresolved := unresolved + 1;
          }
        }
        i := i + 1;
      }
    }

    /** The second loop: every fixup whose symbol is defined is written into the image. */
    method EncodeDefined(buf: array<bv8>, base: bv64)
      requires Linked(View()) && unsupported.None?
      modifies buf, this`errors, this`unsupported
      ensures
        var e := EncodeFirst(machine.gas, old(View()), base, old(buf[..]), |fixes|);
        buf[..] == e.img && unsupported == e.unsupported && errors == old(errors) + e.errors
    {
      hide ValueFor, Encoded, Pos;
      ghost var st := View();
      ghost var img := buf[..];
      var i := 0;
      while i < |fixes|
        invariant i <= |fixes| && |buf[..]| == |img|
        invariant buf[..] == EncodeFirst(machine.gas, st, base, img, i).img
        invariant unsupported == EncodeFirst(machine.gas, st, base, img, i).unsupported
        invariant errors == st.errors + EncodeFirst(machine.gas, st, base, img, i).errors
      {
        var fx := fixes[i];
        assert FixupOk(st, st.fixes[i]);
        SameValue(machine.gas, st, View(), base, fx);
        if Resolvable(View(), fx) {
          if fx.howto.None? {
            unsupported := Some("<no howto>");
          } else {
            var h := fx.howto.value;
            var rc := EncodeField(buf, Pos(View(), fx), h, ValueFor(machine.gas, View(), base, fx, h));
            if rc == 0 {
              unsupported := Some(if h.name.Some? then h.name.value else "<unknown>");
            } else if rc < 0 {
              errors := errors + 1;
            }
          }
        }
        i := i + 1;
      }
    }

    /** The third loop: the fixed parts of the image go back into the frags. */
    method CopyBack(buf: array<bv8>)
      requires WellFormed(ChainView())
      modifies this`frags
      ensures ChainView() == CopiedBack(old(ChainView()), buf[..])
    {
      hide CopiedFrag, Addr, FillSize;
      ghost var c := ChainView();
      var addr := 0;
      var i := 0;
      AddrStart(c);
      while i < |frags|
        invariant i <= |frags| == |c.frags| && addr == Addr(c, i)
        invariant forall k :: 0 <= k < i ==>
                    Backed(c, k) && frags[k] == CopiedFrag(c.frags[k], buf[..], Addr(c, k), FixSize(c, k))
        invariant forall k :: i <= k < |frags| ==> frags[k] == c.frags[k]
      {
        assert Backed(c, i);
        var n := FixSize(ChainView(), i);
        var size := n + FillSize(frags[i]);
        assert n == FixSize(c, i) && size == n + FillSize(c.frags[i]);
        frags := frags[i := CopiedFrag(frags[i], buf[..], addr, n)];
        addr := addr + size;
        AddrStep(c, i);
        i := i + 1;
      }
      assert frags == CopiedBack(c, buf[..]).frags;
    }

    /** `apply_text_fixups`; `bufferOk` says whether the image buffer could be allocated. */
    method ApplyTextFixups(base: bv64, bufferOk: bool) returns (unresolved: nat)
      requires Linked(View()) && WellFormed(ChainView())
      modifies this`frags, this`fixes, this`errors, this`unsupported
      ensures (View(), unresolved) == Applied(machine.gas, old(View()), base, bufferOk)
    {
      hide Image, CopiedBack, EncodeFirst, Recorded, RecordedAll, Unresolved, Addr;
      ghost var st := View();
      unsupported := None;
      AppliedFixups(machine.gas, st, base, bufferOk);
      unresolved := RecordAddends();
      ReportsDoNotMatter(machine.gas, st, st.(unsupported := None));
      var total := ExtractTextBytes(null, 0);
      if total == 0 || !bufferOk {
        assert fixes == Applied(machine.gas, st, base, bufferOk).0.fixes;
        return;
      }
      var buf := new bv8[total](_ => 0);
      var filled := ExtractTextBytes(buf, total);
      assert buf[..] == buf[..total];
      ghost var mid := View();
      EncodeDefined(buf, base);
      AddendsDoNotMatter(machine.gas, st, mid, base, Image(st.chain, |st.chain.frags|), |fixes|);
      CopyBack(buf);
      assert fixes == Applied(machine.gas, st, base, bufferOk).0.fixes;
    }

    /** `nyxstone_glue_collect_relocs`: how many entries there are, and the first `cap` of them. */
    method CollectRelocs(out: array?<Reloc>, cap: nat) returns (count: nat)
      requires Linked(View()) && (out != null ==> cap <= out.Length)
      modifies out
      ensures count == Unresolved(View(), |fixes|)
      ensures out != null ==> forall k :: 0 <= k < cap && k < count ==> out[k] == Reported(View(), |fixes|)[k]
      ensures out != null ==> forall k :: 0 <= k < out.Length && (k >= cap || k >= count) ==> out[k] == old(out[k])
    {
      count := 0;
      ghost var st := View();
      var i := 0;
      while i < |fixes|
        invariant i <= |fixes| && View() == st && count == Unresolved(st, i)
        invariant out != null ==> forall k :: 0 <= k < cap && k < count ==> out[k] == Reported(st, i)[k]
        invariant out != null ==> forall k :: 0 <= k < out.Length && (k >= cap || k >= count) ==> out[k] == old(out[k])
      {
        var fx := fixes[i];
        assert FixupOk(st, st.fixes[i]);
        if !fx.done && fx.sym >= 0 && symbols[fx.sym].place.Undefined? {
          if out != null && count < cap {
            out[count] := RelocOf(View(), fx);
          }
          count := count + 1;
        }
        i := i + 1;
      }
    }

    /** `nyxstone_glue_resolve_text_fixups` */
    method ResolveTextFixups(base: bv64, bufferOk: bool) returns (unresolved: nat)
      requires Parsed(machine, View()) && ConvertsWell(machine)
      modifies this`frags, this`fixes, this`errors, this`unsupported
      ensures (View(), unresolved) == Resolve(machine, old(View()), base, bufferOk)
    {
      hide Relaxed, ConvertFirst, Applied, OrgErrors, ConvertsWell, AllRoomy, TailOk, SymbolsOk, Finalized, Addr;
      ghost var st := View();
      RelaxBranches();
      ConvertFrags();
      FinalizeAlignOrg();
      Layout();
      assert View() == BeforeFixups(machine, st);
      ReadyForFixups(machine, st);
      unresolved := ApplyTextFixups(base, bufferOk);
    }
  }

  /** What is recorded for a fixup does not depend on the other fixups. */
  lemma RecordedSame(gas: Gas, st: State, s: State, fx: Fixup)
    requires FixupOk(st, fx) && s == st.(fixes := s.fixes)
    ensures FixupOk(s, fx) && Resolvable(s, fx) == Resolvable(st, fx) && Recorded(gas, s, fx) == Recorded(gas, st, fx)
  {
    hide Resolvable, FixupOk, Minus;
    SameValue(gas, st, s, 0, fx);
  }

  /** One more element of `a` in place of one of `b`. */
  lemma Advance<T>(a: seq<T>, b: seq<T>, i: nat)
    requires i < |a| == |b|
    ensures (a[..i] + b[i..])[i := a[i]] == a[..i + 1] + b[i + 1..] && (a[..i] + b[i..])[i] == b[i]
    ensures a[i] == b[i] ==> a[..i] + b[i..] == a[..i + 1] + b[i + 1..]
  {
  }

  /** The step of the first loop on fixup `i`. */
  lemma RecordedNext(gas: Gas, st: State, s: State, i: nat)
    requires Linked(st) && i < |st.fixes|
    requires s == st.(fixes := RecordedAll(gas, st).fixes[..i] + st.fixes[i..])
    ensures
      var all, fx := RecordedAll(gas, st), s.fixes[i];
      && fx == st.fixes[i] && FixupOk(s, fx) && all.fixes[i] == Recorded(gas, s, fx)
      && (fx.sym >= 0 && !s.symbols[fx.sym].place.Undefined? ==> Resolvable(s, fx))
      && (Resolvable(s, fx) ==> Symbolic(fx) && !s.symbols[fx.sym].place.Undefined?)
      && Unresolved(all, i + 1) ==
         Unresolved(all, i) + if Symbolic(fx) && !Resolvable(s, fx) && !all.fixes[i].done then 1 else 0
  {
    hide RecordedAll, Recorded, Unresolved;
    var all := RecordedAll(gas, st);
    Advance(all.fixes, st.fixes, i);
    RecordedAt(gas, st, i);
    RecordedSame(gas, st, s, st.fixes[i]);
    UnresolvedStep(all, i);
  }

  lemma UnresolvedNone(st: State)
    requires Linked(st)
    ensures Unresolved(st, 0) == 0
  {
  }

  lemma UnresolvedStep(st: State, i: nat)
    requires Linked(st) && i < |st.fixes|
    ensures FixupOk(st, st.fixes[i])
    ensures Unresolved(st, i + 1) == Unresolved(st, i) + if Pending(st, st.fixes[i]) then 1 else 0
  {
    assert FixupOk(st, st.fixes[i]);
  }

  /** A buffer with `s` written over it at `at`. */
  function Written(was: seq<bv8>, at: nat, s: seq<bv8>): (r: seq<bv8>)
    requires at + |s| <= |was|
    ensures |r| == |was|
  {
    was[..at] + s + was[at + |s|..]
  }

  lemma NothingWritten(was: seq<bv8>, at: nat)
    requires at <= |was|
    ensures Written(was, at, []) == was
  {
  }

  lemma WrittenOn(was: seq<bv8>, at: nat, a: seq<bv8>, b: seq<bv8>)
    requires at + |a| + |b| <= |was|
    ensures Written(Written(was, at, a), at + |a|, b) == Written(was, at, a + b)
  {
  }

  /** What is written is there, and everything behind it is as before. */
  lemma WrittenKeeps(was: seq<bv8>, s: seq<bv8>, from: nat)
    requires |s| <= from <= |was|
    ensures Written(was, 0, s)[..|s|] == s && Written(was, 0, s)[from..] == was[from..]
  {
  }

  lemma ImageNone(c: Chain)
    requires WellFormed(c)
    ensures Addr(c, 0) == 0 && Image(c, 0) == []
  {
  }

  lemma CopiesStep(pattern: seq<bv8>, q: nat)
    ensures Copies(pattern, 0) == []
    ensures Copies(pattern, q + 1) == Copies(pattern, q) + pattern
  {
  }

  lemma {:induction false} CopiesGrow(pattern: seq<bv8>, q: nat, n: nat)
    requires q <= n
    ensures |Copies(pattern, q)| <= |Copies(pattern, n)|
    decreases n
  {
    if q < n {
      CopiesGrow(pattern, q, n - 1);
    }
  }

  /** There is room for another copy of the pattern. */
  lemma PatternFits(pattern: seq<bv8>, q: nat, n: nat)
    requires q <= n && |Copies(pattern, q)| < |Copies(pattern, n)|
    ensures q < n && |Copies(pattern, q)| + |pattern| == |Copies(pattern, q + 1)| <= |Copies(pattern, n)|
  {
    CopiesGrow(pattern, q + 1, n);
  }

  lemma CopiesEnd(pattern: seq<bv8>, q: nat, n: nat)
    requires q <= n && |pattern| > 0 && |Copies(pattern, q)| >= |Copies(pattern, n)|
    ensures q == n
  {
    if q < n {
      CopiesGrow(pattern, q + 1, n);
    }
  }
}
