/** Disassembling: the loop of `do_disassemble` (src/nyxstone.cpp), and the removal of the address
    annotations libopcodes adds (`strip_addr_annotation` in src/nyxstone_glue.c).
 */
module Disassembler {
  import opened Fixups
  import opened Driver

  datatype Instruction = Instruction(address: bv64, assembly: string, bytes: seq<bv8>)

  datatype Decoding = Undecodable | Decoded(length: nat, text: string)

  /** `nyxstone_glue_disasm_one` */
  type Decoder = (seq<bv8>, bv64) -> Decoding

  /** libopcodes never consumes more than it is given. */
  ghost predicate Bounded(d: Decoder) {
    forall s: seq<bv8>, at: bv64 :: d(s, at).Decoded? ==> d(s, at).length <= |s|
  }

  /** An instruction at the front of the bytes, if there is one. */
  predicate Decodes(d: Decoder, s: seq<bv8>, at: bv64) {
    d(s, at).Decoded? && 0 < d(s, at).length <= |s|
  }

  /** The instructions from offset `off` on, at most `count` of them unless `count` is 0. */
  function Disassembled(d: Decoder, bytes: seq<bv8>, base: bv64, count: nat, off: nat,
    done: nat): Result<seq<Instruction>>
    requires off <= |bytes|
    decreases |bytes| - off
  {
    if off == |bytes| || (count != 0 && done >= count) then Success([])
    else
      var at := Plus(base, U64(off));
      if !Decodes(d, bytes[off..], at) then Failed(DecodeFailed(off))
      else
        var n := d(bytes[off..], at).length;
        match Disassembled(d, bytes, base, count, off + n, done + 1)
        case Failed(e) => Failed(e)
        case Success(rest) => Success([Instruction(at, d(bytes[off..], at).text, bytes[off..off + n])] + rest)
  }

  /** The instruction at `off`. */
  function One(d: Decoder, bytes: seq<bv8>, base: bv64, off: nat): (i: Instruction)
    requires off <= |bytes| && Decodes(d, bytes[off..], Plus(base, U64(off)))
    ensures 0 < |i.bytes| <= |bytes| - off && i.bytes == bytes[off..off + |i.bytes|] && i.address ==
      Plus(base, U64(off))
  {
    var at := Plus(base, U64(off));
    Instruction(at, d(bytes[off..], at).text, bytes[off..off + d(bytes[off..], at).length])
  }

  /** Put instructions decoded so far before the outcome for the rest. */
  function Prefixed(out: seq<Instruction>, r: Result<seq<Instruction>>): Result<seq<Instruction>> {
    if r.Failed? then r else Success(out + r.value)
  }

  lemma Unfold(d: Decoder, bytes: seq<bv8>, base: bv64, count: nat, off: nat, done: nat)
    requires off <= |bytes|
    ensures
      Disassembled(d, bytes, base, count, off, done) ==
      if off == |bytes| || (count != 0 && done >= count) then Success([])
      else if !Decodes(d, bytes[off..], Plus(base, U64(off))) then Failed(DecodeFailed(off))
      else
        var x := One(d, bytes, base, off);
        Prefixed([x], Disassembled(d, bytes, base, count, off + |x.bytes|, done + 1))
  {
    hide Plus, U64;
  }

  /** `do_disassemble` */
  method Disassemble(d: Decoder, bytes: seq<bv8>, base: bv64, count: nat) returns (r: Result<seq<Instruction>>)
    requires Bounded(d)
    ensures r == Disassembled(d, bytes, base, count, 0, 0)
  {
    hide Disassembled, Plus, U64, Prefixed;
    var out: seq<Instruction> := [];
    var off, decoded := 0, 0;
    PrefixedNothing(Disassembled(d, bytes, base, count, 0, 0));
    while off < |bytes| && (count == 0 || decoded < count)
      invariant off <= |bytes|
      invariant Disassembled(d, bytes, base, count, 0, 0) ==
        Prefixed(out, Disassembled(d, bytes, base, count, off, decoded))
      decreases |bytes| - off
    {
      Unfold(d, bytes, base, count, off, decoded);
      PrefixedFailure(out, DecodeFailed(off));
      var at := Plus(base, U64(off));
      var one := d(bytes[off..], at);
      if one.Undecodable? || one.length == 0 {
        return Failed(DecodeFailed(off));
      }
      var next := Instruction(at, one.text, bytes[off..off + one.length]);
      assert next == One(d, bytes, base, off);
      PrefixedOne(out, next, Disassembled(d, bytes, base, count, off + one.length, decoded + 1));
      out := out + [next];
      off := off + one.length;
      decoded := decoded + 1;
    }
    Unfold(d, bytes, base, count, off, decoded);
    PrefixedEnd(out);
    r := Success(out);
  }

  lemma PrefixedNothing(r: Result<seq<Instruction>>)
    ensures Prefixed([], r) == r
  {
    if r.Success? {
      assert [] + r.value == r.value;
    }
  }

  lemma PrefixedEnd(out: seq<Instruction>)
    ensures Prefixed(out, Success([])) == Success(out)
  {
    assert out + [] == out;
  }

  lemma PrefixedFailure(out: seq<Instruction>, e: Failure)
    ensures Prefixed(out, Failed(e)) == Failed(e)
  {
  }

  lemma PrefixedOne(out: seq<Instruction>, x: Instruction, r: Result<seq<Instruction>>)
    ensures Prefixed(out + [x], r) == Prefixed(out, Prefixed([x], r))
  {
    if r.Success? {
      assert (out + [x]) + r.value == out + ([x] + r.value);
    }
  }

  // ----- what the instructions are ----------------------------------------------------------------------

  function Contents(instructions: seq<Instruction>): seq<bv8> {
    if instructions == [] then [] else instructions[0].bytes + Contents(instructions[1..])
  }

  /** Each instruction stands where the one before it ends. */
  predicate Contiguous(instructions: seq<Instruction>, base: bv64, off: nat)
    decreases |instructions|
  {
    instructions == []
    || (instructions[0].address == Plus(base, U64(off))
        && instructions[0].bytes != []
        && Contiguous(instructions[1..], base, off + |instructions[0].bytes|))
  }

  /** The instructions are the bytes up to `end`, cut into consecutive pieces. */
  predicate Cuts(instructions: seq<Instruction>, bytes: seq<bv8>, base: bv64, off: nat, end: nat) {
    off <= end <= |bytes| && Contiguous(instructions, base, off) && Contents(instructions) == bytes[off..end]
  }

  lemma CutsMore(x: Instruction, rest: seq<Instruction>, bytes: seq<bv8>, base: bv64, off: nat, end: nat)
    requires off + |x.bytes| <= |bytes| && x.bytes == bytes[off..off + |x.bytes|] && x.bytes != []
    requires x.address == Plus(base, U64(off)) && Cuts(rest, bytes, base, off + |x.bytes|, end)
    ensures Cuts([x] + rest, bytes, base, off, end)
  {
    hide Plus, U64;
    assert ([x] + rest)[1..] == rest;
    assert bytes[off..end] == bytes[off..off + |x.bytes|] + bytes[off + |x.bytes|..end];
  }

  /** Success: the bytes are cut into consecutive instructions, all of the bytes without a count, and
      with a count exactly that many instructions unless the bytes run out first. */
  lemma {:induction false} InstructionsCover(d: Decoder, bytes: seq<bv8>, base: bv64, count: nat, off: nat, done: nat)
      returns (end: nat)
    requires off <= |bytes| && Disassembled(d, bytes, base, count, off, done).Success?
    requires count == 0 || done <= count
    ensures
      var r := Disassembled(d, bytes, base, count, off, done).value;
      && Cuts(r, bytes, base, off, end)
      && (count == 0 ==> end == |bytes|)
      && (count != 0 ==> done + |r| <= count && (done + |r| < count ==> end == |bytes|))
    decreases |bytes| - off
  {
    hide Disassembled, Plus, U64, Cuts, Contents, Contiguous;
    Unfold(d, bytes, base, count, off, done);
    if off == |bytes| || (count != 0 && done >= count) {
      end := off;
      CutsNothing(bytes, base, off);
    } else {
      var x := One(d, bytes, base, off);
      end := InstructionsCover(d, bytes, base, count, off + |x.bytes|, done + 1);
      CutsMore(x, Disassembled(d, bytes, base, count, off + |x.bytes|, done + 1).value, bytes, base, off, end);
    }
  }

  lemma CutsNothing(bytes: seq<bv8>, base: bv64, off: nat)
    requires off <= |bytes|
    ensures Cuts([], bytes, base, off, off)
  {
  }

  /** Failure: the offset is the end of the instructions that do decode, and nothing decodes there. */
  lemma {:induction false} FailureIsFirst(d: Decoder, bytes: seq<bv8>, base: bv64, count: nat, off: nat, done: nat)
      returns (before: seq<Instruction>)
    requires off <= |bytes| && Disassembled(d, bytes, base, count, off, done).Failed?
    ensures
      var e := Disassembled(d, bytes, base, count, off, done).failure;
      && e.DecodeFailed? && off <= e.offset < |bytes|
      && Cuts(before, bytes, base, off, e.offset)
      && (count != 0 ==> done + |before| < count)
      && !Decodes(d, bytes[e.offset..], Plus(base, U64(e.offset)))
      && forall k :: 0 <= k < |before| ==> DecodedHere(d, bytes, base, off, before, k)
    decreases |bytes| - off
  {
    hide Disassembled, Plus, U64, Cuts, Contents, Contiguous, DecodedHere;
    Unfold(d, bytes, base, count, off, done);
    if Decodes(d, bytes[off..], Plus(base, U64(off))) {
      var x := One(d, bytes, base, off);
      var rest := FailureIsFirst(d, bytes, base, count, off + |x.bytes|, done + 1);
      CutsMore(x, rest, bytes, base, off, Disassembled(d, bytes, base, count, off, done).failure.offset);
      before := [x] + rest;
      forall k | 0 <= k < |before|
        ensures DecodedHere(d, bytes, base, off, before, k)
      {
        DecodedMore(d, bytes, base, off, rest, k);
      }
    } else {
      before := [];
      CutsNothing(bytes, base, off);
    }
  }

  // ----- each instruction is what the decoder makes of its place -----------------------------------------

  /** The bytes of the first `k` instructions. */
  function Before(instructions: seq<Instruction>, k: nat): nat
    requires k <= |instructions|
  {
    if k == 0 then 0 else Before(instructions, k - 1) + |instructions[k - 1].bytes|
  }

  /** Instruction `k` is what the decoder finds behind the instructions before it: its address, its text
      and as many bytes as the decoder takes. */
  predicate DecodedHere(d: Decoder, bytes: seq<bv8>, base: bv64, off: nat, list: seq<Instruction>, k: nat)
    requires k < |list|
  {
    var o := off + Before(list, k);
    && o < |bytes|
    && match d(bytes[o..], Plus(base, U64(o)))
       case Undecodable => false
       case Decoded(n, text) =>
         && 0 < n <= |bytes| - o
         && list[k].address == Plus(base, U64(o)) && list[k].assembly == text && list[k].bytes == bytes[o..o + n]
  }

  lemma {:induction false} BeforeTail(list: seq<Instruction>, k: nat)
    requires 0 < k <= |list|
    ensures Before(list, k) == |list[0].bytes| + Before(list[1..], k - 1)
  {
    if k > 1 {
      BeforeTail(list, k - 1);
    }
  }

  lemma DecodedMore(d: Decoder, bytes: seq<bv8>, base: bv64, off: nat, rest: seq<Instruction>, k: nat)
    requires off < |bytes| && Decodes(d, bytes[off..], Plus(base, U64(off))) && k <= |rest|
    requires k > 0 ==> DecodedHere(d, bytes, base, off + |One(d, bytes, base, off).bytes|, rest, k - 1)
    ensures DecodedHere(d, bytes, base, off, [One(d, bytes, base, off)] + rest, k)
  {
    hide Plus, U64;
    var list := [One(d, bytes, base, off)] + rest;
    assert list[1..] == rest;
    if k > 0 {
      BeforeTail(list, k);
    }
  }

  /** Every instruction of a successful call is what the decoder makes of its place. */
  lemma {:induction false} InstructionsDecode(d: Decoder, bytes: seq<bv8>, base: bv64, count: nat, off: nat, done: nat,
    k: nat)
    requires off <= |bytes| && Disassembled(d, bytes, base, count, off, done).Success?
    requires k < |Disassembled(d, bytes, base, count, off, done).value|
    ensures DecodedHere(d, bytes, base, off, Disassembled(d, bytes, base, count, off, done).value, k)
    decreases |bytes| - off
  {
    hide Disassembled, Plus, U64, DecodedHere, Decodes;
    Unfold(d, bytes, base, count, off, done);
    var x := One(d, bytes, base, off);
    if k > 0 {
      InstructionsDecode(d, bytes, base, count, off + |x.bytes|, done + 1, k - 1);
    }
    DecodedMore(d, bytes, base, off, Disassembled(d, bytes, base, count, off + |x.bytes|, done + 1).value, k);
  }

  // ----- the text of a disassembly ------------------------------------------------------------------------

  /** The lines of the text: each instruction with a line end. */
  function ListingText(list: seq<Instruction>): string {
    if list == [] then [] else ListingText(list[..|list| - 1]) + list[|list| - 1].assembly + "\n"
  }

  /** The text is put together from the lines of its instructions. */
  lemma {:induction false} TextOfAll(a: seq<Instruction>, b: seq<Instruction>)
    ensures ListingText(a + b) == ListingText(a) + ListingText(b)
    ensures |a| == 1 ==> ListingText(a) == a[0].assembly + "\n"
    decreases |b|
  {
    if b == [] {
      assert a + b == a && ListingText(a) + [] == ListingText(a);
    } else {
      var n := |b| - 1;
      assert (a + b)[..|a + b| - 1] == a + b[..n];
      TextOfAll(a, b[..n]);
    }
    if |a| == 1 {
      assert a[..0] == [] && [] + a[0].assembly == a[0].assembly;
    }
  }

  /** `disassemble` */
  method DisassembleText(d: Decoder, bytes: seq<bv8>, base: bv64, count: nat) returns (r: Result<string>)
    requires Bounded(d)
    ensures
      r ==
      match Disassembled(d, bytes, base, count, 0, 0)
      case Failed(e) => Failed(e)
      case Success(list) => Success(ListingText(list))
  {
    hide Disassembled;
    var v := Disassemble(d, bytes, base, count);
    match v {
      case Failed(e) => return Failed(e);
      case Success(list) =>
        var out := "";
        for i := 0 to |list|
          invariant out == ListingText(list[..i])
        {
          assert list[..i + 1][..i] == list[..i];
          out := out + list[i].assembly + "\n";
        }
        assert list[..|list|] == list;
        return Success(out);
    }
  }

  // ----- strip_addr_annotation ----------------------------------------------------------------------------

  /** How far the next `>` is; the length if there is none. */
  function Closing(s: string): (n: nat)
    ensures n <= |s| && (n < |s| ==> s[n] == '>')
    decreases |s|
  {
    if s == [] || s[0] == '>' then 0 else 1 + Closing(s[1..])
  }

  predicate Opens(s: string) {
    |s| >= 2 && s[0] == ' ' && s[1] == '<'
  }

  /** A complete annotation at the front of the text. */
  predicate Annotation(s: string) {
    Opens(s) && Closing(s[2..]) < |s| - 2
  }

  /** The text without its ` <...>` annotations. */
  function Unannotated(s: string): (r: string)
    ensures |r| <= |s|
    decreases |s|
  {
    if s == [] then []
    else if Annotation(s) then Unannotated(s[2 + Closing(s[2..]) + 1..])
    else [s[0]] + Unannotated(s[1..])
  }

  /** The inner loop. */
  method FindClosing(s: array<char>, from: nat) returns (p: nat)
    requires from <= s.Length
    ensures p == from + Closing(s[from..])
  {
    p := from;
    while p < s.Length && s[p] != '>'
      invariant from <= p <= s.Length
      invariant p + Closing(s[p..]) == from + Closing(s[from..])
    {
      assert s[p..][1..] == s[p + 1..];
      p := p + 1;
    }
  }

  /** The read and write cursors, in place. */
  method StripAddrAnnotation(s: array<char>) returns (length: nat)
    modifies s
    ensures length <= s.Length && s[..length] == Unannotated(old(s[..]))
  {
    hide Unannotated, Closing, Opens;
    ghost var text := s[..];
    var w, r := 0, 0;
    assert text[0..] == text;
    while r < s.Length
      invariant w <= r <= s.Length && s[r..] == text[r..]
      invariant s[..w] + Unannotated(text[r..]) == Unannotated(text)
      decreases s.Length - r
    {
      UnannotatedStep(text, r);
      SuffixChars(s[..], text, r);
      if r + 1 < s.Length && s[r] == ' ' && s[r + 1] == '<' {
        var p := FindClosing(s, r + 2);
        if p < s.Length {
          r := p + 1;
          assert s[r..] == text[r..];
          continue;
        }
      }
      s[w] := s[r];
      w, r := w + 1, r + 1;
    }
    NothingAnnotated();
    assert text[r..] == [];
    length := w;
  }

  /** Texts that agree from `r` on agree on each character and on each suffix there. */
  lemma SuffixChars(s: string, text: string, r: nat)
    requires r < |s| == |text| && s[r..] == text[r..]
    ensures s[r] == text[r] && s[r + 1..] == text[r + 1..]
    ensures r + 1 < |s| ==> s[r + 1] == text[r + 1] && s[r + 2..] == text[r + 2..]
    ensures forall k :: r <= k < |s| ==> s[k] == text[k]
  {
    forall k | r <= k < |s|
      ensures s[k] == text[k]
    {
      assert s[r..][k - r] == text[r..][k - r];
    }
  }

  lemma DropDrop(text: string, r: nat, k: nat)
    requires r + k <= |text|
    ensures text[r..][k..] == text[r + k..]
  {
  }

  lemma UnannotatedSkips(s: string)
    requires Annotation(s)
    ensures Unannotated(s) == Unannotated(s[2 + Closing(s[2..]) + 1..])
  {
    hide Closing, Opens;
  }

  lemma UnannotatedKeeps(s: string)
    requires s != [] && !Annotation(s)
    ensures Unannotated(s) == [s[0]] + Unannotated(s[1..])
  {
    hide Annotation;
  }

  lemma UnannotatedStep(text: string, r: nat)
    requires r < |text|
    ensures Opens(text[r..]) <==> r + 1 < |text| && text[r] == ' ' && text[r + 1] == '<'
    ensures Opens(text[r..]) ==> text[r..][2..] == text[r + 2..]
    ensures
      Unannotated(text[r..]) ==
      if Opens(text[r..]) && Closing(text[r + 2..]) < |text| - r - 2
        then Unannotated(text[r + 2 + Closing(text[r + 2..]) + 1..])
      else [text[r]] + Unannotated(text[r + 1..])
  {
    hide Closing, Unannotated;
    if Opens(text[r..]) {
      DropDrop(text, r, 2);
    }
    if Annotation(text[r..]) {
      UnannotatedSkips(text[r..]);
      DropDrop(text, r, 2 + Closing(text[r + 2..]) + 1);
    } else {
      UnannotatedKeeps(text[r..]);
      DropDrop(text, r, 1);
    }
  }

  lemma NothingAnnotated()
    ensures Unannotated([]) == []
  {
  }

  /** Some complete annotation is left in the text. */
  predicate HasAnnotation(s: string)
    decreases |s|
  {
    s != [] && (Annotation(s) || HasAnnotation(s[1..]))
  }

  /** A second pass can find something: removing the first annotation joins a blank to a `<`. */
  lemma StrippingTwiceDiffers()
    ensures Unannotated("  <a><b>") == " <b>" && Unannotated(" <b>") == ""
  {
    assert Closing("a><b>") == 1 && Closing("b>") == 1;
    var s := "  <a><b>";
    assert s[1..] == " <a><b>" && !Annotation(s);
    assert " <a><b>"[2..] == "a><b>" && " <a><b>"[4..] == "<b>";
    assert "<b>"[1..] == "b>" && "b>"[1..] == ">" && ">"[1..] == "";
    assert " <b>"[2..] == "b>" && " <b>"[4..] == "";
  }

  /** Every `<` stands behind a blank, as in what libopcodes prints. */
  predicate Tidy(s: string) {
    forall i :: 0 <= i < |s| && s[i] == '<' ==> i > 0 && s[i - 1] == ' '
  }

  lemma {:induction false} NeverClosed(s: string)
    requires forall i :: 0 <= i < |s| ==> s[i] != '>'
    ensures Unannotated(s) == s && !HasAnnotation(s)
    decreases |s|
  {
    if s != [] {
      NeverClosed(s[1..]);
      if Opens(s) {
        assert s[2..] == s[1..][1..];
      }
    }
  }

  lemma {:induction false} ClosingIsFirst(s: string)
    ensures forall i :: 0 <= i < Closing(s) ==> s[i] != '>'
    decreases |s|
  {
    if s != [] && s[0] != '>' {
      ClosingIsFirst(s[1..]);
    }
  }

  lemma TidySuffix(s: string, k: nat)
    requires Tidy(s) && k <= |s| && (0 < k < |s| ==> s[k] != '<')
    ensures Tidy(s[k..])
  {
  }

  /** Tidy text loses every annotation in one pass. */
  lemma {:induction false} TidyStripsClean(s: string)
    requires Tidy(s)
    ensures !HasAnnotation(Unannotated(s))
    ensures Unannotated(s) != [] ==> Unannotated(s)[0] != '<'
    decreases |s|
  {
    if s == [] {
    } else if Annotation(s) {
      var k := 2 + Closing(s[2..]) + 1;
      assert s[k - 1] == s[2..][Closing(s[2..])] == '>';
      TidySuffix(s, k);
      TidyStripsClean(s[k..]);
    } else if Opens(s) {
      ClosingIsFirst(s[2..]);
      forall i | 0 <= i < |s|
        ensures s[i] != '>'
      {
        assert i >= 2 ==> s[i] == s[2..][i - 2];
      }
      NeverClosed(s);
    } else {
      TidySuffix(s, 1);
      TidyStripsClean(s[1..]);
      var t := Unannotated(s);
      assert t[1..] == Unannotated(s[1..]);
    }
  }

  /** And a text without annotations is left alone. */
  lemma {:induction false} CleanTextStays(s: string)
    requires !HasAnnotation(s)
    ensures Unannotated(s) == s
    decreases |s|
  {
    if s != [] {
      CleanTextStays(s[1..]);
    }
  }

  lemma {:induction false} ClosingAt(b: string, c: string)
    requires forall i :: 0 <= i < |b| ==> b[i] != '>'
    ensures Closing(b + (">" + c)) == |b|
    decreases |b|
  {
    if b == [] {
      assert b + (">" + c) == ">" + c;
    } else {
      assert (b + (">" + c))[1..] == b[1..] + (">" + c);
      ClosingAt(b[1..], c);
    }
  }

  lemma DropHead(a: string, b: string)
    ensures (a + b)[|a|..] == b
  {
  }

  lemma AnnotationHead(s: string, t: string)
    requires |s| >= 2 && Opens(s) && s[2..] == t && Closing(t) < |t|
    ensures Unannotated(s) == Unannotated(t[Closing(t) + 1..])
  {
    hide Closing, Unannotated, Opens;
    UnannotatedSkips(s);
    DropDrop(s, 2, Closing(t) + 1);
  }

  lemma AnnotationAtFront(b: string, c: string)
    requires forall i :: 0 <= i < |b| ==> b[i] != '>'
    ensures Unannotated(" <" + (b + (">" + c))) == Unannotated(c)
  {
    hide Closing, Unannotated;
    ClosingAt(b, c);
    DropHead(" <", b + (">" + c));
    AnnotationHead(" <" + (b + (">" + c)), b + (">" + c));
    assert b + (">" + c) == (b + ">") + c;
    DropHead(b + ">", c);
  }

  /** What an annotation is: the text from a blank and a `<` to the first `>` behind them goes, and what
      stands before it, if no `<` is in there, stays. */
  lemma {:induction false} AnnotationGoes(a: string, b: string, c: string)
    requires forall i :: 0 <= i < |a| ==> a[i] != '<'
    requires forall i :: 0 <= i < |b| ==> b[i] != '>'
    ensures Unannotated(a + (" <" + (b + (">" + c)))) == a + Unannotated(c)
    decreases |a|
  {
    hide Unannotated, Closing;
    var s := a + (" <" + (b + (">" + c)));
    if a == [] {
      assert s == " <" + (b + (">" + c));
      AnnotationAtFront(b, c);
      assert [] + Unannotated(c) == Unannotated(c);
    } else {
      assert s[1..] == a[1..] + (" <" + (b + (">" + c)));
      AnnotationGoes(a[1..], b, c);
      assert !Opens(s);
      UnannotatedKeeps(s);
    }
  }

  // ----- libopcodes behind the decoder -----------------------------------------------------------------

  /** `nyxstone_glue_disasm_one`, given what libopcodes prints. */
  function Cleaned(raw: Decoder): Decoder {
    (s: seq<bv8>, at: bv64) =>
      match raw(s, at)
      case Undecodable => Undecodable
      case Decoded(n, text) => Decoded(n, Unannotated(text))
  }

  /** If libopcodes puts a blank before every `<`, no text of a disassembly has an annotation, and each is
      what libopcodes prints there if that had none. */
  lemma TextsAreClean(raw: Decoder, bytes: seq<bv8>, base: bv64, count: nat, k: nat)
    requires forall s, at :: raw(s, at).Decoded? ==> Tidy(raw(s, at).text)
    requires Disassembled(Cleaned(raw), bytes, base, count, 0, 0).Success?
    requires k < |Disassembled(Cleaned(raw), bytes, base, count, 0, 0).value|
    ensures
      var list := Disassembled(Cleaned(raw), bytes, base, count, 0, 0).value;
      var o := Before(list, k);
      && o < |bytes| && raw(bytes[o..], Plus(base, U64(o))).Decoded?
      && var text := raw(bytes[o..], Plus(base, U64(o))).text;
         && !HasAnnotation(list[k].assembly)
         && (!HasAnnotation(text) ==> list[k].assembly == text)
  {
    hide Disassembled, Unannotated, HasAnnotation, Tidy, Plus, U64;
    InstructionsDecode(Cleaned(raw), bytes, base, count, 0, 0, k);
    var list := Disassembled(Cleaned(raw), bytes, base, count, 0, 0).value;
    var o := Before(list, k);
    var text := raw(bytes[o..], Plus(base, U64(o))).text;
    TidyStripsClean(text);
    if !HasAnnotation(text) {
      CleanTextStays(text);
    }
  }

  // ----- when a second pass finds nothing ------------------------------------------------------------

  /** What is behind the annotation at the front. */
  function Past(s: string): (r: string)
    requires Annotation(s)
    ensures |r| < |s|
  {
    s[2 + Closing(s[2..]) + 1..]
  }

  /** Some `>` outside the annotations is kept. */
  predicate KeepsClosing(s: string)
    decreases |s|
  {
    s != [] && if Annotation(s) then KeepsClosing(Past(s)) else s[0] == '>' || KeepsClosing(s[1..])
  }

  /** The last character kept: a blank, a blank with annotations dropped since, or something else. */
  datatype Last = Other | Blank | BlankThenDropped

  /** Scanning the text once, dropped annotations turn out to lie between a kept blank and a kept `<`,
      with a kept `>` later on. */
  predicate Rejoins(s: string, last: Last)
    decreases |s|
  {
    s != [] &&
    if Annotation(s) then Rejoins(Past(s), if last.Other? then Other else BlankThenDropped)
    else
      || (last.BlankThenDropped? && s[0] == '<' && KeepsClosing(s[1..]))
      || Rejoins(s[1..], if s[0] == ' ' then Blank else Other)
  }

  lemma {:induction false} KeptClosing(s: string)
    ensures KeepsClosing(s) <==> '>' in Unannotated(s)
    decreases |s|
  {
    if s != [] {
      if Annotation(s) {
        KeptClosing(Past(s));
      } else {
        KeptClosing(s[1..]);
      }
    }
  }

  lemma {:induction false} ClosingFound(s: string)
    ensures Closing(s) < |s| <==> '>' in s
    decreases |s|
  {
    if s != [] {
      ClosingFound(s[1..]);
      assert s == [s[0]] + s[1..];
    }
  }

  /** A blank in front of a text. */
  lemma BehindBlank(t: string)
    ensures HasAnnotation(" " + t) <==> (t != [] && t[0] == '<' && '>' in t[1..]) || HasAnnotation(t)
  {
    var s := " " + t;
    assert s[1..] == t;
    if t != [] {
      assert s[2..] == t[1..];
      ClosingFound(t[1..]);
    }
  }

  lemma InFrontOf(c: char, t: string)
    requires c != ' '
    ensures HasAnnotation([c] + t) <==> HasAnnotation(t)
  {
    assert ([c] + t)[1..] == t;
  }

  /** A `<` that could not close right behind a blank cannot close later either. */
  lemma UnclosedStays(s: string)
    requires s != [] && s[0] == '<' && !Annotation(" " + s)
    ensures '>' !in Unannotated(s[1..])
  {
    assert (" " + s)[2..] == s[1..];
    ClosingFound(s[1..]);
    NeverClosed(s[1..]);
  }

  lemma UnannotatedIs(s: string)
    requires s != []
    ensures Unannotated(s) == if Annotation(s) then Unannotated(Past(s)) else [s[0]] + Unannotated(s[1..])
  {
  }

  lemma RejoinsIs(s: string, last: Last)
    requires s != []
    ensures Rejoins(s, last) ==
      if Annotation(s) then Rejoins(Past(s), if last.Other? then Other else BlankThenDropped)
      else
        (last.BlankThenDropped? && s[0] == '<' && KeepsClosing(s[1..]))
        || Rejoins(s[1..], if s[0] == ' ' then Blank else Other)
  {
  }

  lemma {:induction false} RejoinsAre(s: string, last: Last)
    requires last.Blank? ==> !Annotation(" " + s)
    ensures HasAnnotation(if last.Other? then Unannotated(s) else " " + Unannotated(s)) <==> Rejoins(s, last)
    decreases |s|, 1
  {
    hide Unannotated, HasAnnotation, Rejoins, KeepsClosing, Annotation, Past, Closing;
    if s == [] {
      NothingRejoins(last);
    } else {
      UnannotatedIs(s);
      RejoinsIs(s, last);
      if Annotation(s) {
        RejoinsAre(Past(s), if last.Other? then Other else BlankThenDropped);
      } else {
        RejoinsKept(s, last);
      }
    }
  }

  lemma NothingRejoins(last: Last)
    ensures !HasAnnotation(Unannotated([])) && !HasAnnotation(" " + Unannotated([])) && !Rejoins([], last)
  {
    BehindBlank([]);
  }

  /** The step for a character that is kept. */
  lemma {:induction false} RejoinsKept(s: string, last: Last)
    requires s != [] && !Annotation(s) && (last.Blank? ==> !Annotation(" " + s))
    ensures HasAnnotation(if last.Other? then Unannotated(s) else " " + Unannotated(s)) <==> Rejoins(s, last)
    decreases |s|, 0
  {
    hide Unannotated, HasAnnotation, Rejoins, KeepsClosing, Annotation, Closing;
    UnannotatedIs(s);
    RejoinsIs(s, last);
    var t := Unannotated(s[1..]);
    if s[0] == ' ' {
      assert " " + s[1..] == s && [s[0]] + t == " " + t;
      RejoinsAre(s[1..], Blank);
    } else {
      RejoinsAre(s[1..], Other);
      InFrontOf(s[0], t);
    }
    if !last.Other? {
      BehindBlank([s[0]] + t);
      assert ([s[0]] + t)[1..] == t;
      KeptClosing(s[1..]);
      if s[0] == '<' && last.Blank? {
        UnclosedStays(s);
      }
    }
  }

  /** An annotation that is there is dropped. */
  lemma {:induction false} AnnotationShrinks(s: string)
    requires HasAnnotation(s)
    ensures |Unannotated(s)| < |s|
    decreases |s|
  {
    if !Annotation(s) {
      AnnotationShrinks(s[1..]);
    }
  }

  /** Stripping is idempotent on a text if and only if no dropped annotations lie between a kept blank
      and a kept `<` with a kept `>` behind it. */
  lemma IdempotentIff(s: string)
    ensures Unannotated(Unannotated(s)) == Unannotated(s) <==> !Rejoins(s, Other)
  {
    hide Unannotated, HasAnnotation, Rejoins;
    RejoinsAre(s, Other);
    if HasAnnotation(Unannotated(s)) {
      AnnotationShrinks(Unannotated(s));
    } else {
      CleanTextStays(Unannotated(s));
    }
  }

  /** In particular it is idempotent on what libopcodes prints. */
  lemma TidyIsIdempotent(s: string)
    requires Tidy(s)
    ensures Unannotated(Unannotated(s)) == Unannotated(s)
  {
    hide Unannotated, HasAnnotation;
    TidyStripsClean(s);
    CleanTextStays(Unannotated(s));
  }
}
