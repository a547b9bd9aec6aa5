/** What one statement asks of gas, read off its text: blanks and comments do not count, labels are
    requested one by one, an instruction is handed over as it is written, data directives emit their
    operands; and over a whole source the instructions are requested in their order.
 */
module StatementLaws {
  import opened Scanner
  import opened Directives
  import opened PrintParse
  import opened DirectiveLaws
  import opened LiteralLaws

  // ----- blanks and comments do not count -----------------------------------------------------------------

  /** Nothing, or a comment up to the end of the line. */
  predicate Comment(s: string) {
    s == [] || s[0] == '#' || "//" <= s
  }

  /** What a label may consist of. */
  predicate NameChar(c: char) {
    'a' <= c <= 'z' || 'A' <= c <= 'Z' || '0' <= c <= '9' || c == '_' || c == '.' || c == '$'
  }

  /** No label is in front. */
  predicate Untagged(s: string) {
    forall k :: 0 < k < |s| && s[k] == ':' ==> exists j :: 0 <= j < k && !NameChar(s[j])
  }

  /** A statement without blanks at its ends and without a comment, its literals closed. */
  predicate Bare(s: string) {
    && s != [] && !Space(s[0]) && !Space(s[|s| - 1]) && s[|s| - 1] != '/'
    && CommentFree(s) && After(Out, s).Out?
  }

  /** No `#` and no `//` outside the literals. */
  predicate CommentFree(s: string) {
    forall k :: 0 <= k < |s| && After(Out, s[..k]).Out? ==>
      s[k] != '#' && !(s[k] == '/' && k + 1 < |s| && s[k + 1] == '/')
  }

  lemma CommentFreeIff(s: string)
    ensures CommentFree(s) <==> CommentAt(Out, s) == |s|
  {
    hide CommentAt, After;
    CutOutsideLiterals(Out, s);
  }

  lemma {:induction false} LTrimBlank(b: string, s: string)
    requires Blank(b) && (s != [] ==> !Space(s[0]))
    ensures LTrim(b + s) == s
    decreases |b|
  {
    if b == [] {
      assert b + s == s;
    } else {
      assert (b + s)[1..] == b[1..] + s;
      LTrimBlank(b[1..], s);
    }
  }

  lemma {:induction false} RTrimBlank(s: string, b: string)
    requires Blank(b) && (s != [] ==> !Space(s[|s| - 1]))
    ensures RTrim(s + b) == s
    decreases |b|
  {
    if b == [] {
      assert s + b == s;
    } else {
      var n := |b| - 1;
      assert (s + b)[..|s + b| - 1] == s + b[..n];
      RTrimBlank(s, b[..n]);
    }
  }

  lemma {:induction false} NoCommentSoFar(q: Quote, s: string, rest: string)
    requires CommentAt(q, s) == |s| && (s != [] ==> s[|s| - 1] != '/')
    ensures CommentAt(q, s + rest) == |s| + CommentAt(After(q, s), rest)
    decreases |s|
  {
    if s == [] {
      assert s + rest == rest;
    } else {
      assert (s + rest)[1..] == s[1..] + rest;
      assert !(q.Out? && OpensLineComment(s));
      NoCommentSoFar(Next(q, s[0]), s[1..], rest);
    }
  }

  lemma {:induction false} CommentBehindBlanks(b: string, comment: string)
    requires Blank(b) && Comment(comment)
    ensures CommentAt(Out, b + comment) == |b|
    decreases |b|
  {
    if b == [] {
      assert b + comment == comment;
    } else {
      assert (b + comment)[1..] == b[1..] + comment;
      CommentBehindBlanks(b[1..], comment);
    }
  }

  /** Blanks around a statement, and a comment behind it, do not count. */
  lemma LayoutDoesNotCount(f: Front, before: string, s: string, behind: string, comment: string)
    requires Bare(s) && Blank(before) && Blank(behind) && Comment(comment)
    ensures Statement(f, before + (s + (behind + comment))) == Statement(f, s)
    ensures Core(before + (s + (behind + comment))) == Core(s)
  {
    hide LTrim, RTrim, CommentAt, After, Labelled, Unlabelled, OpensLineComment, CommentFree;
    CommentFreeIff(s);
    var t := s + (behind + comment);
    LTrimBlank(before, t);
    NoCommentSoFar(Out, s, behind + comment);
    CommentBehindBlanks(behind, comment);
    assert t[..|s| + |behind|] == s + behind;
    RTrimBlank(s, behind);
    RTrimBlank(s, []);
    LTrimBlank([], s);
    assert s + [] == s == [] + s && s[..|s|] == s;
  }

  /** Blanks and a comment alone are no statement. */
  lemma NothingIsAsked(f: Front, before: string, comment: string)
    requires Blank(before) && Comment(comment)
    ensures Statement(f, before + comment) == f
  {
    hide LTrim, RTrim, CommentAt, OpensLineComment;
    assert comment != [] ==> !Space(comment[0]) by {
      CommentStarts(comment);
    }
    LTrimBlank(before, comment);
    CommentBehindBlanks([], comment);
    RTrimBlank([], []);
    assert [] + comment == comment && comment[..0] == [];
  }

  lemma CommentStarts(comment: string)
    ensures OpensLineComment(comment) ==> !Space(comment[0])
  {
  }

  // ----- labels and instructions --------------------------------------------------------------------------

  /** A label as it is written: a name, or a number; `gap` is the blanks behind its colon. */
  datatype Tag = Named(name: string, gap: string) | Numbered(n: nat, gap: string)

  predicate TagOk(t: Tag) {
    && Blank(t.gap) && '\n' !in t.gap
    && (t.Named? ==> t.name != [] && !AllDigits(t.name) && forall i :: 0 <= i < |t.name| ==> NameChar(t.name[i]))
  }

  function TagName(t: Tag): string {
    match t
    case Named(name, _) => name
    case Numbered(n, _) => Decimal(n)
  }

  /** A statement with labels before it. */
  function PrintTags(ts: seq<Tag>, s: string): string {
    if ts == [] then s else TagName(ts[0]) + ":" + ts[0].gap + PrintTags(ts[1..], s)
  }

  /** What a label asks for: a number for `strtoul`, cut to 32 bits, or a name. */
  function TagRequest(t: Tag): Event {
    match t
    case Named(name, _) => Label(name)
    case Numbered(n, _) =>
      NumericLabel(if n < 0x1_0000_0000_0000_0000 then n % 0x1_0000_0000 else 0xffff_ffff)
  }

  function WithTags(f: Front, ts: seq<Tag>): Front
    decreases |ts|
  {
    if ts == [] then f else WithTags(f.Emit(TagRequest(ts[0])), ts[1..])
  }

  lemma {:induction false} LabelEnds(name: string, rest: string)
    requires forall i :: 0 <= i < |name| ==> LabelChar(name[i])
    ensures LabelLength(name + (":" + rest)) == |name|
    decreases |name|
  {
    if name == [] {
      assert name + (":" + rest) == ":" + rest;
    } else {
      assert (name + (":" + rest))[1..] == name[1..] + (":" + rest);
      LabelEnds(name[1..], rest);
    }
  }

  lemma TagNameOk(t: Tag)
    requires TagOk(t)
    ensures TagName(t) != [] && forall i :: 0 <= i < |TagName(t)| ==> LabelChar(TagName(t)[i])
    ensures LabelEvent(TagName(t)) == TagRequest(t)
  {
    hide DigitsValue, Decimal;
    if t.Numbered? {
      DecimalIsDigits(t.n);
    }
  }

  lemma LabelCharIsPlain(c: char)
    requires LabelChar(c)
    ensures c != '"' && !Special(c) && !Space(c)
  {
  }

  /** A label does not disturb the scanners. */
  lemma TagIsTransparent(t: Tag, s: string)
    requires TagOk(t) && Bare(s)
    ensures Bare(TagName(t) + ":" + t.gap + s)
  {
    hide LabelChar, CommentAt, After, Space, AllDigits, CommentFree;
    CommentFreeIff(s);
    CommentFreeIff(TagName(t) + ":" + t.gap + s);
    TagNameOk(t);
    var a := TagName(t) + ":" + t.gap;
    forall i | 0 <= i < |a|
      ensures a[i] != '"' && !Special(a[i])
    {
      if i < |TagName(t)| {
        LabelCharIsPlain(a[i]);
      } else if i > |TagName(t)| {
        BlankIsPlain(t.gap, i - |TagName(t)| - 1);
      }
    }
    UnquotedIsPlain(a);
    PlainHasNoComment(Out, a);
    LabelCharIsPlain(a[0]);
    BlankEnd(TagName(t) + ":", t.gap);
    NoCommentSoFar(Out, a, s);
    AfterConcat(Out, a, s);
    assert (a + s)[0] == a[0] && (a + s)[|a + s| - 1] == s[|s| - 1];
  }

  lemma BlankIsPlain(b: string, i: nat)
    requires Blank(b) && i < |b| && b[i] != '\n'
    ensures b[i] != '"' && !Special(b[i])
  {
  }

  lemma BlankEnd(a: string, b: string)
    requires a != [] && a[|a| - 1] == ':' && Blank(b)
    ensures (a + b)[|a + b| - 1] != '/'
  {
    if b != [] {
      assert (a + b)[|a + b| - 1] == b[|b| - 1];
      assert Space(b[|b| - 1]);
    }
  }

  lemma BareStatement(f: Front, s: string)
    requires Bare(s)
    ensures Statement(f, s) == Labelled(f, s) && Core(s) == Unlabelled(s)
  {
    hide CommentAt, After, Labelled, Unlabelled, CommentFree;
    CommentFreeIff(s);
    LTrimBlank([], s);
    RTrimBlank(s, []);
    assert [] + s == s == s + [] && s[..|s|] == s;
  }

  lemma TagIsAsked(f: Front, t: Tag, s: string)
    requires TagOk(t) && Bare(s)
    ensures
      var line := TagName(t) + ":" + t.gap + s;
      && Labelled(f, line) == Labelled(f.Emit(TagRequest(t)), s)
      && Unlabelled(line) == Unlabelled(s)
  {
    hide LabelEvent, CommentAt, After, AllDigits, LTrim, LabelLength, CommentFree;
    var name, line := TagName(t), TagName(t) + ":" + t.gap + s;
    TagNameOk(t);
    assert line == name + (":" + (t.gap + s));
    LabelEnds(name, t.gap + s);
    assert line[..|name|] == name && line[|name| + 1..] == t.gap + s;
    LTrimBlank(t.gap, s);
  }

  /** Labels ask for themselves, one by one, and then the statement behind them counts. */
  lemma {:induction false} TagsAreAsked(f: Front, ts: seq<Tag>, s: string)
    requires Bare(s) && forall i :: 0 <= i < |ts| ==> TagOk(ts[i])
    ensures Bare(PrintTags(ts, s))
    ensures Labelled(f, PrintTags(ts, s)) == Labelled(WithTags(f, ts), s)
    ensures Unlabelled(PrintTags(ts, s)) == Unlabelled(s)
    decreases |ts|
  {
    hide Bare, TagOk, Labelled, Unlabelled, TagName, TagRequest;
    if ts != [] {
      var rest := PrintTags(ts[1..], s);
      TagsAreAsked(f.Emit(TagRequest(ts[0])), ts[1..], s);
      TagIsTransparent(ts[0], rest);
      TagIsAsked(f, ts[0], rest);
    }
  }

  lemma {:induction false} LabelIsNameChars(s: string)
    ensures forall i :: 0 <= i < LabelLength(s) ==> NameChar(s[i])
    decreases |s|
  {
    if s != [] && LabelChar(s[0]) {
      LabelIsNameChars(s[1..]);
      forall i | 0 <= i < LabelLength(s)
        ensures NameChar(s[i])
      {
        assert i > 0 ==> s[i] == s[1..][i - 1];
      }
    }
  }

  lemma NoLabelInFront(s: string)
    requires Untagged(s)
    ensures !StartsWithLabel(s)
  {
    hide NameChar;
    LabelIsNameChars(s);
  }

  /** An instruction statement asks for its labels, in order, and hands the instruction over as it is
      written, without blanks and comment. */
  lemma InstructionIsAsked(f: Front, before: string, ts: seq<Tag>, insn: string, behind: string, comment: string)
    requires Bare(insn) && insn[0] != '.' && Untagged(insn)
    requires forall i :: 0 <= i < |ts| ==> TagOk(ts[i])
    requires Blank(before) && Blank(behind) && Comment(comment)
    ensures Statement(f, before + (PrintTags(ts, insn) + (behind + comment))) ==
            WithTags(f, ts).Emit(Instruction(insn))
    ensures Core(before + (PrintTags(ts, insn) + (behind + comment))) == insn
  {
    hide Bare, TagOk, WithTags, PrintTags, StartsWithLabel, Comment, LTrim, Untagged;
    NoLabelInFront(insn);
    TagsAreAsked(f, ts, insn);
    LayoutDoesNotCount(f, before, PrintTags(ts, insn), behind, comment);
    BareStatement(f, PrintTags(ts, insn));
    BareNotEmpty(insn);
  }

  lemma BareNotEmpty(s: string)
    requires Bare(s)
    ensures s != []
  {
  }

  /** A statement of labels only asks for them. */
  lemma LastTagIsAsked(f: Front, t: Tag)
    requires TagOk(t)
    ensures Statement(f, TagName(t) + ":") == f.Emit(TagRequest(t))
  {
    hide LabelEvent, CommentAt, After, AllDigits, LTrim, LabelLength, RTrim, LabelChar, Space, CommentFree;
    CommentFreeIff(TagName(t) + ":");
    var name, line := TagName(t), TagName(t) + ":";
    TagNameOk(t);
    forall i | 0 <= i < |line|
      ensures line[i] != '"' && !Special(line[i]) && !Space(line[i])
    {
      if i < |name| {
        LabelCharIsPlain(line[i]);
      } else {
        ColonIsNoBlank();
      }
    }
    UnquotedIsPlain(line);
    PlainHasNoComment(Out, line);
    BareStatement(f, line);
    assert line == name + (":" + []);
    LabelEnds(name, []);
    assert line[..|name|] == name && line[|name| + 1..] == [];
    LTrimBlank([], []);
  }

  lemma ColonIsNoBlank()
    ensures !Space(':')
  {
  }

  // ----- the instructions of a source ---------------------------------------------------------------------

  /** The instructions among the requests. */
  function InstructionsOf(events: seq<Event>): seq<string> {
    if events == [] then []
    else
      InstructionsOf(events[..|events| - 1])
      + if events[|events| - 1].Instruction? then [events[|events| - 1].line] else []
  }

  /** The instructions among the statements: what is behind the labels, if it is no directive. */
  function InstructionLines(lines: seq<string>): seq<string>
    decreases |lines|
  {
    if lines == [] then []
    else
      var core := Core(lines[0]);
      (if core != [] && core[0] != '.' then [core] else []) + InstructionLines(lines[1..])
  }

  predicate NoInstruction(events: seq<Event>) {
    forall i :: 0 <= i < |events| ==> !events[i].Instruction?
  }

  lemma {:induction false} InstructionsOfBoth(a: seq<Event>, b: seq<Event>)
    ensures InstructionsOf(a + b) == InstructionsOf(a) + InstructionsOf(b)
    decreases |b|
  {
    if b == [] {
      assert a + b == a && InstructionsOf(a) + [] == InstructionsOf(a);
    } else {
      var n := |b| - 1;
      assert (a + b)[..|a + b| - 1] == a + b[..n];
      InstructionsOfBoth(a, b[..n]);
    }
  }

  lemma {:induction false} NoneOf(events: seq<Event>)
    requires NoInstruction(events)
    ensures InstructionsOf(events) == []
    decreases |events|
  {
    if events != [] {
      NoneOf(events[..|events| - 1]);
    }
  }

  lemma {:induction false} AsciiAsksNone(f: Front, d: string, args: string, zero: bool, any: bool)
    requires NoInstruction(f.events)
    ensures NoInstruction(Ascii(f, d, args, zero, any).events)
    decreases |args|
  {
    hide ParseLiteral, LTrim, AfterNumber;
    var t := LTrim(args);
    if t != [] && t[0] == '"' && ParseLiteral(t[1..], []).Closed? {
      var lit := ParseLiteral(t[1..], []);
      AsciiAsksNone(LiteralBytes(f, lit.text, zero), d, AfterNumber(lit.rest), zero, true);
    }
  }

  lemma {:induction false} ValuesAskNone(f: Front, values: seq<int>, width: nat)
    requires NoInstruction(f.events)
    ensures NoInstruction(EmitValues(f, values, width).events)
    decreases |values|
  {
    hide LittleEndian;
    if values != [] {
      ValuesAskNone(f.EmitBytes(LittleEndian(values[0], width)), values[1..], width);
    }
  }

  lemma OthersAskNone(d: string, args: string)
    ensures NoInstruction(Skip(START, d, args).events)
    ensures NoInstruction(SetOrigin(START, d, args).events)
    ensures NoInstruction(AlignTo(START, d, args).events)
    ensures NoInstruction(Equate(START, d, args).events)
    ensures NoInstruction(Operandless(START, d, args).events)
  {
    hide ParseOperands, Int32, PowerOfTwo, Log2, IndexOf, RTrim, LTrim, SectionName, TextSectionName, LeavesText,
      Metadata;
  }

  /** A directive asks for no instruction. */
  lemma DirectiveAsksNone(line: string)
    ensures NoInstruction(Directive(START, line).events)
  {
    hide WordLength, LTrim, RTrim, Ascii, Skip, SetOrigin, AlignTo, Equate, Operandless, EmitValues, DataWidth,
      AllNumbers, ListValues;
    var n := WordLength(line);
    var d := line[..n];
    var args := RTrim(LTrim(if n < |line| then line[n + 1..] else []));
    AsciiAsksNone(START, d, args, false, false);
    AsciiAsksNone(START, d, args, true, false);
    ValuesAskNone(START, ListValues(args), DataWidth(d));
    OthersAskNone(d, args);
  }

  lemma {:induction false} LabelledAsks(line: string)
    ensures
      var core := Unlabelled(line);
      InstructionsOf(Labelled(START, line).events) == if core != [] && core[0] != '.' then [core] else []
    decreases |line|
  {
    hide Directive, LabelEvent, LabelLength, LTrim, InstructionsOf;
    InstructionsOfOne();
    if line != [] {
      if StartsWithLabel(line) {
        var e, rest := LabelEvent(line[..LabelLength(line)]), LTrim(line[LabelLength(line) + 1..]);
        LabelledLocal(START.Emit(e), rest);
        LabelledAsks(rest);
        InstructionsOfBoth([e], Labelled(START, rest).events);
        LabelIsNone(line[..LabelLength(line)]);
        assert START.Emit(e).events == [e];
        assert [] + InstructionsOf(Labelled(START, rest).events) == InstructionsOf(Labelled(START, rest).events);
      } else if line[0] == '.' {
        DirectiveAsksNone(line);
        NoneOf(Directive(START, line).events);
      } else {
        assert START.Emit(Instruction(line)).events == [Instruction(line)];
      }
    }
  }

  lemma InstructionsOfOne()
    ensures InstructionsOf([]) == [] && Unlabelled([]) == []
    ensures forall e: Event :: InstructionsOf([e]) == if e.Instruction? then [e.line] else []
  {
    forall e: Event
      ensures InstructionsOf([e]) == if e.Instruction? then [e.line] else []
    {
      assert [e][..0] == [];
    }
  }

  lemma LabelIsNone(name: string)
    ensures !LabelEvent(name).Instruction?
  {
  }

  lemma StatementAsks(line: string)
    ensures
      var core := Core(line);
      InstructionsOf(Statement(START, line).events) == if core != [] && core[0] != '.' then [core] else []
  {
    hide Labelled, Unlabelled, LTrim, RTrim, CommentAt, InstructionsOf;
    var t := LTrim(line);
    LabelledAsks(RTrim(t[..CommentAt(Out, t)]));
  }

  lemma {:induction false} LinesAsk(f: Front, lines: seq<string>)
    ensures InstructionsOf(AllStatements(f, lines).events) == InstructionsOf(f.events) + InstructionLines(lines)
    decreases |lines|
  {
    hide Statement, Core, InstructionsOf;
    if lines == [] {
      assert InstructionsOf(f.events) + [] == InstructionsOf(f.events);
    } else {
      StatementIsLocal(f, lines[0]);
      InstructionsOfBoth(f.events, Statement(START, lines[0]).events);
      StatementAsks(lines[0]);
      LinesAsk(Statement(f, lines[0]), lines[1..]);
      var core := Core(lines[0]);
      var first := if core != [] && core[0] != '.' then [core] else [];
      assert InstructionsOf(f.events) + first + InstructionLines(lines[1..]) ==
        InstructionsOf(f.events) + (first + InstructionLines(lines[1..]));
    }
  }

  /** The instructions asked for are those of the source, none missing, in order. */
  lemma SourceAsks(src: string)
    ensures InstructionsOf(Source(src).events) == InstructionLines(DirectiveLaws.Lines(src))
  {
    hide AllStatements, InstructionLines, InstructionsOf;
    LinesAsk(START, DirectiveLaws.Lines(src));
    InstructionsOfOne();
    assert [] + InstructionLines(DirectiveLaws.Lines(src)) == InstructionLines(DirectiveLaws.Lines(src));
  }

  // ----- data ---------------------------------------------------------------------------------------------

  /** The data directives and their widths. */
  predicate DataNamed(d: string, width: nat) {
    || (width == 1 && d == ".byte")
    || (width == 2 && (d == ".half" || d == ".hword" || d == ".short" || d == ".2byte"))
    || (width == 4 && (d == ".word" || d == ".int" || d == ".long" || d == ".4byte"))
    || (width == 8 && (d == ".quad" || d == ".8byte"))
  }

  lemma DataNamedIs(d: string, width: nat)
    requires DataNamed(d, width)
    ensures DataWidth(d) == width > 0 && DirectiveName(d)
  {
    if width <= 2 {
      ShortData(d);
    } else {
      LongData(d);
    }
  }

  lemma ShortData(d: string)
    ensures DataNamed(d, 1) ==> DataWidth(d) == 1 && DirectiveName(d)
    ensures DataNamed(d, 2) ==> DataWidth(d) == 2 && DirectiveName(d)
  {
  }

  lemma LongData(d: string)
    ensures DataNamed(d, 4) ==> DataWidth(d) == 4 && DirectiveName(d)
    ensures DataNamed(d, 8) ==> DataWidth(d) == 8 && DirectiveName(d)
  {
  }

  /** A directive with operands that need no trimming. */
  lemma OperandsStatement(f: Front, d: string, args: string)
    requires DirectiveName(d) && Compact(args)
    ensures
      var line := d + " " + args;
      && Statement(f, line) == Directive(f, line)
      && WordLength(line) == |d| < |line| && line[..|d|] == d && RTrim(LTrim(line[|d| + 1..])) == args
  {
    hide Directive, Plain, After, LTrim, RTrim, WordLength, LabelLength, Statement;
    UnquotedIsPlain(d + " " + args);
    StatementIsDirective(f, d, args);
    WordIsName(d, args);
  }

  /** Integers are emitted one by one, in the width of the directive. */
  lemma IntegersAreEmitted(f: Front, d: string, width: nat, vs: seq<int>)
    requires DataNamed(d, width) && AllInt64(vs) && vs != []
    ensures Statement(f, Printed(d, vs)) == EmitValues(f, vs, width)
  {
    hide Statement, Directive, PrintInts, WordLength, LTrim, RTrim, DirectiveName, DataWidth, AllNumbers, ListValues,
      EmitValues, DataNamed;
    DataNamedIs(d, width);
    PrintedStatement(f, d, vs);
    IntsParse(vs);
    DataDirective(f, Printed(d, vs), d, PrintInts(vs));
  }

  lemma LetterIsNoNumber(args: string)
    requires args != [] && LabelChar(args[0]) && !Digit(args[0])
    ensures !AllNumbers(args)
  {
  }

  /** Operands that are not all numbers are handed over to gas as they are written. */
  lemma ExpressionsAreHandedOver(f: Front, d: string, width: nat, args: string)
    requires DataNamed(d, width) && Compact(args) && LabelChar(args[0]) && !Digit(args[0])
    ensures Statement(f, d + " " + args) == f.Emit(Expressions(args, width))
  {
    hide Statement, Directive, WordLength, LTrim, RTrim, DirectiveName, DataWidth, AllNumbers, ListValues, EmitValues,
      DataNamed, LabelChar;
    DataNamedIs(d, width);
    OperandsStatement(f, d, args);
    LetterIsNoNumber(args);
    DataDirective(f, d + " " + args, d, args);
  }

  // ----- strings ------------------------------------------------------------------------------------------

  /** String literals, separated by commas. */
  function PrintStrings(texts: seq<string>): string {
    if texts == [] then []
    else
      "\"" + (FullyEscaped(texts[0]) + ("\"" + if |texts| == 1 then "" else ", " + PrintStrings(texts[1..])))
  }

  function EmitStrings(f: Front, texts: seq<string>, zero: bool): Front
    decreases |texts|
  {
    if texts == [] then f else EmitStrings(LiteralBytes(f, texts[0], zero), texts[1..], zero)
  }

  lemma AsciiNext(f: Front, d: string, args: string, zero: bool, any: bool, text: string, rest: string)
    requires args != [] && args[0] == '"' && ParseLiteral(args[1..], []) == Closed(text, rest)
    ensures Ascii(f, d, args, zero, any) == Ascii(LiteralBytes(f, text, zero), d, AfterNumber(rest), zero, true)
  {
    hide ParseLiteral, AfterNumber;
    assert LTrim(args) == args;
  }

  lemma AsciiBlank(f: Front, d: string, args: string, zero: bool)
    ensures Ascii(f, d, " " + args, zero, true) == Ascii(f, d, args, zero, true)
    ensures AfterNumber([]) == [] && Ascii(f, d, [], zero, true) == f
    ensures AfterNumber(", " + args) == " " + args
  {
    hide ParseLiteral;
    assert (" " + args)[1..] == args;
    assert (", " + args)[1..] == " " + args;
  }

  lemma {:induction false} StringsAreRead(f: Front, d: string, texts: seq<string>, zero: bool, any: bool)
    requires texts != []
    ensures Ascii(f, d, PrintStrings(texts), zero, any) == EmitStrings(f, texts, zero)
    decreases |texts|
  {
    hide Ascii, ParseLiteral, AfterNumber, FullyEscaped;
    var args := PrintStrings(texts);
    var rest := if |texts| == 1 then "" else ", " + PrintStrings(texts[1..]);
    EscapesAreRead(texts[0], [], rest);
    assert args[1..] == FullyEscaped(texts[0]) + ("\"" + rest) && [] + texts[0] == texts[0];
    AsciiNext(f, d, args, zero, any, texts[0], rest);
    var g := LiteralBytes(f, texts[0], zero);
    AsciiBlank(g, d, PrintStrings(texts[1..]), zero);
    if |texts| > 1 {
      StringsAreRead(g, d, texts[1..], zero, true);
    }
  }

  lemma {:induction false} FullyEscapedStays(s: string)
    ensures Plain(In, FullyEscaped(s)) && After(In, FullyEscaped(s)).In?
    decreases |s|
  {
    if s != [] {
      hide FullyEscaped;
      FullyEscapedStays(s[1..]);
      EscapeStays(s[0], FullyEscaped(s[1..]));
      FullyEscapedMore(s);
    }
  }

  lemma FullyEscapedMore(s: string)
    requires s != []
    ensures FullyEscaped(s) == WithEscape(s[0]) + FullyEscaped(s[1..])
  {
    hide WithEscape;
  }

  lemma EscapeStays(c: char, e: string)
    requires Plain(In, e) && After(In, e).In?
    ensures Plain(In, WithEscape(c) + e) && After(In, WithEscape(c) + e).In?
  {
    var w := WithEscape(c);
    assert (w + e)[1..] == w[1..] + e;
    if |w| == 2 {
      assert (w + e)[1..][1..] == e;
    } else {
      assert w[1..] + e == e;
    }
  }

  lemma {:induction false} StringsArePlain(texts: seq<string>)
    requires texts != []
    ensures Plain(Out, PrintStrings(texts)) && After(Out, PrintStrings(texts)).Out?
    ensures PrintStrings(texts) != []
    ensures PrintStrings(texts)[0] == '"' && PrintStrings(texts)[|PrintStrings(texts)| - 1] == '"'
    decreases |texts|
  {
    hide FullyEscaped, Plain, After;
    var e := FullyEscaped(texts[0]);
    var rest := if |texts| == 1 then "" else ", " + PrintStrings(texts[1..]);
    FullyEscapedStays(texts[0]);
    if |texts| > 1 {
      StringsArePlain(texts[1..]);
      UnquotedIsPlain(", ");
      PlainBoth(Out, ", ", PrintStrings(texts[1..]));
    } else {
      UnquotedIsPlain("");
    }
    QuotesArePlain(e, rest);
    assert PrintStrings(texts) == "\"" + (e + ("\"" + rest));
  }

  lemma PlainBoth(q: Quote, a: string, b: string)
    requires Plain(q, a) && Plain(After(q, a), b)
    ensures Plain(q, a + b) && After(q, a + b) == After(After(q, a), b)
  {
    hide Plain, After;
    PlainConcat(q, a, b);
    AfterConcat(q, a, b);
  }

  lemma QuoteSteps()
    ensures Plain(Out, "\"") && After(Out, "\"").In? && Plain(In, "\"") && After(In, "\"").Out?
  {
    assert "\""[1..] == "";
  }

  lemma QuotesArePlain(e: string, rest: string)
    requires Plain(In, e) && After(In, e).In? && Plain(Out, rest) && After(Out, rest).Out?
    ensures Plain(Out, "\"" + (e + ("\"" + rest))) && After(Out, "\"" + (e + ("\"" + rest))).Out?
  {
    hide Plain, After;
    QuoteSteps();
    PlainBoth(In, "\"", rest);
    PlainBoth(In, e, "\"" + rest);
    PlainBoth(Out, "\"", e + ("\"" + rest));
  }

  lemma StringDirective(f: Front, line: string, d: string, zero: bool, args: string)
    requires (d == ".ascii" && !zero) || ((d == ".asciz" || d == ".string") && zero)
    requires WordLength(line) == |d| < |line| && line[..|d|] == d && RTrim(LTrim(line[|d| + 1..])) == args
    ensures Directive(f, line) == Ascii(f, d, args, zero, false)
  {
    hide WordLength, LTrim, RTrim, Ascii, Skip, SetOrigin, AlignTo, Equate, Operandless, DataList, DataWidth;
    NotString();
  }

  lemma NotString()
    ensures DataWidth(".ascii") == 0 && DataWidth(".asciz") == 0 && DataWidth(".string") == 0
    ensures DirectiveName(".ascii") && DirectiveName(".asciz") && DirectiveName(".string")
  {
  }

  /** The strings of a directive are emitted in order, each escape read, with a NUL behind each for
      `.asciz` and `.string`. */
  lemma StringsAreEmitted(f: Front, d: string, zero: bool, texts: seq<string>)
    requires (d == ".ascii" && !zero) || ((d == ".asciz" || d == ".string") && zero)
    requires texts != []
    ensures Statement(f, d + " " + PrintStrings(texts)) == EmitStrings(f, texts, zero)
  {
    hide Statement, Directive, WordLength, LTrim, RTrim, LabelLength, Ascii, PrintStrings, Plain, After, DirectiveName,
      DataWidth;
    var args := PrintStrings(texts);
    NotString();
    NameIsPlain(d);
    StringsArePlain(texts);
    PlainBoth(Out, d + " ", args);
    StatementIsDirective(f, d, args);
    WordIsName(d, args);
    var line := d + " " + args;
    assert line[..|d|] == d;
    StringDirective(f, line, d, zero, args);
    StringsAreRead(f, d, texts, zero, false);
  }

  lemma NameIsPlain(d: string)
    requires DirectiveName(d)
    ensures |d| > 1 && d[0] == '.' && forall i :: 0 <= i < |d| ==> LabelChar(d[i])
    ensures Plain(Out, d + " ") && After(Out, d + " ").Out?
  {
    hide Plain, After;
    UnquotedIsPlain(d + " ");
  }

  // ----- the other directives -----------------------------------------------------------------------------

  /** The directives that have an effect. */
  predicate Effective(d: string) {
    || (exists width :: width in {1, 2, 4, 8} && DataNamed(d, width))
    || d in [".ascii", ".asciz", ".string", ".skip", ".space", ".zero", ".org", ".align", ".p2align", ".balign"]
    || d in [".equ", ".set", ".section"]
    || d in [".data", ".bss", ".rodata", ".sdata", ".sbss", ".tdata", ".tbss", ".pushsection", ".previous"]
  }

  /** The directives that are accepted and have none. */
  predicate Accepted(d: string) {
    d in [".text", ".global", ".globl", ".local", ".weak", ".type", ".size", ".file", ".ident", ".syntax", ".cpu",
      ".arch", ".extern", ".end"]
  }

  lemma NotEffective(d: string)
    requires !Effective(d)
    ensures DataWidth(d) == 0 && d != ".ascii" && d != ".asciz" && d != ".string"
    ensures d != ".skip" && d != ".space" && d != ".zero" && d != ".org"
    ensures d != ".align" && d != ".p2align" && d != ".balign" && d != ".equ" && d != ".set" && d != ".section"
  {
    hide DataNamed, DataWidth;
    NoData(d);
  }

  lemma StaysInText(d: string)
    requires !Effective(d)
    ensures !LeavesText(d)
  {
    hide DataNamed;
  }

  lemma AcceptedIs(d: string)
    ensures Accepted(d) <==> d == ".text" || Metadata(d)
  {
  }

  lemma OtherDirective(f: Front, line: string, d: string)
    requires WordLength(line) == |d| <= |line| && line[..|d|] == d && !Effective(d)
    ensures Directive(f, line) == if Accepted(d) then f else f.Fail(Unsupported(d))
  {
    hide WordLength, LTrim, RTrim, Ascii, Skip, SetOrigin, AlignTo, Equate, DataList, DataWidth, Effective, Accepted,
      LeavesText, Metadata;
    NotEffective(d);
    StaysInText(d);
    AcceptedIs(d);
  }

  lemma NoData(d: string)
    requires !exists width :: width in {1, 2, 4, 8} && DataNamed(d, width)
    ensures DataWidth(d) == 0
  {
    assert !DataNamed(d, 1) && !DataNamed(d, 2) && !DataNamed(d, 4) && !DataNamed(d, 8);
  }

  /** Of the other directives some are accepted and have no effect, and every other one is rejected. */
  lemma OthersAreAcceptedOrRejected(f: Front, d: string, args: string)
    requires DirectiveName(d) && !Effective(d) && Compact(args)
    ensures Statement(f, d + " " + args) == if Accepted(d) then f else f.Fail(Unsupported(d))
    ensures Statement(f, d) == Statement(f, d + " " + args)
  {
    hide Statement, Directive, WordLength, LTrim, RTrim, DirectiveName, Effective, Accepted, Compact;
    OperandsStatement(f, d, args);
    OtherDirective(f, d + " " + args, d);
    NameAlone(f, d);
    OtherDirective(f, d, d);
  }

  lemma NameAlone(f: Front, d: string)
    requires DirectiveName(d)
    ensures Statement(f, d) == Directive(f, d) && WordLength(d) == |d| && d[..|d|] == d
  {
    hide Plain, After, Directive, LTrim, RTrim, CommentAt, CommentFree;
    CommentFreeIff(d);
    UnquotedIsPlain(d);
    PlainHasNoComment(Out, d);
    WordIsName(d, []);
    LabelCharIsPlain(d[0]);
    LabelCharIsPlain(d[|d| - 1]);
    BareStatement(f, d);
  }

  // ----- sections -----------------------------------------------------------------------------------------

  lemma SectionDirective(f: Front, line: string, d: string, args: string)
    requires d in [".data", ".bss", ".rodata", ".sdata", ".sbss", ".tdata", ".tbss", ".pushsection", ".previous"]
    requires WordLength(line) == |d| <= |line| && line[..|d|] == d
    ensures Directive(f, line) == f.(violation := true)
  {
    hide WordLength, LTrim, RTrim, Ascii, Skip, SetOrigin, AlignTo, Equate, DataList, DataWidth, LeavesText, Metadata;
    OtherSection(d);
    NamesDiffer(d);
  }

  lemma OtherSection(d: string)
    requires d in [".data", ".bss", ".rodata", ".sdata", ".sbss", ".tdata", ".tbss", ".pushsection", ".previous"]
    ensures LeavesText(d) && d != ".section" && DirectiveName(d)
  {
    if d in [".data", ".bss", ".rodata", ".sdata", ".sbss"] {
      FirstSections(d);
    } else {
      LastSections(d);
    }
  }

  lemma FirstSections(d: string)
    requires d in [".data", ".bss", ".rodata", ".sdata", ".sbss"]
    ensures LeavesText(d) && d != ".section" && DirectiveName(d)
  {
  }

  lemma LastSections(d: string)
    requires d in [".tdata", ".tbss", ".pushsection", ".previous"]
    ensures LeavesText(d) && d != ".section" && DirectiveName(d)
  {
  }

  /** A directive for another section raises the flag, with or without operands, and does nothing else. */
  lemma OtherSectionsViolate(f: Front, d: string, args: string)
    requires d in [".data", ".bss", ".rodata", ".sdata", ".sbss", ".tdata", ".tbss", ".pushsection", ".previous"]
    requires Compact(args)
    ensures Statement(f, d) == Statement(f, d + " " + args) == f.(violation := true)
  {
    hide Statement, Directive, WordLength, LTrim, RTrim, DirectiveName, Compact;
    OtherSection(d);
    OperandsStatement(f, d, args);
    SectionDirective(f, d + " " + args, d, args);
    NameAlone(f, d);
    SectionDirective(f, d, d, []);
  }

  lemma {:induction false} FirstWord(name: string, tail: string)
    requires forall i :: 0 <= i < |name| ==> !Space(name[i]) && name[i] != ','
    requires tail == [] || Space(tail[0]) || tail[0] == ','
    ensures |name| <= WordLength(name + tail) && IndexOf((name + tail)[..WordLength(name + tail)], ',') == |name|
    decreases |name|
  {
    var s := name + tail;
    if name == [] {
      assert s == tail;
    } else {
      assert s[1..] == name[1..] + tail;
      FirstWord(name[1..], tail);
      assert s[..WordLength(s)][1..] == s[1..][..WordLength(s[1..])];
    }
  }

  lemma SectionNamed(f: Front, line: string, args: string)
    requires WordLength(line) == 8 < |line| && line[..8] == ".section" && RTrim(LTrim(line[9..])) == args
    ensures Directive(f, line) == if TextSectionName(SectionName(LTrim(args))) then f else f.(violation := true)
  {
    hide WordLength, LTrim, RTrim, Ascii, Skip, SetOrigin, AlignTo, Equate, DataList, DataWidth, LeavesText, Metadata,
      SectionName, TextSectionName;
    NamesDiffer(".section");
  }

  /** `.section` with a name, and whatever follows it behind a blank or a comma: it is accepted for `.text`
      and the names that go on with a dot behind it, and raises the flag for every other. */
  lemma SectionIsAcceptedOrViolates(f: Front, name: string, tail: string)
    requires name != [] && forall i :: 0 <= i < |name| ==> !BlankChar(name[i]) && name[i] != ','
    requires (tail == [] || BlankChar(tail[0]) || tail[0] == ',') && Compact(name + tail)
    ensures
      Statement(f, ".section " + (name + tail)) ==
      if name == ".text" || (|name| > 5 && name[..6] == ".text.") then f else f.(violation := true)
  {
    hide Statement, Directive, WordLength, LTrim, RTrim, DirectiveName, Compact;
    SectionIsName();
    OperandsStatement(f, ".section", name + tail);
    assert ".section" + " " + (name + tail) == ".section " + (name + tail);
    SectionNamed(f, ".section " + (name + tail), name + tail);
    FirstWord(name, tail);
    LTrimBlank([], name + tail);
    assert [] + (name + tail) == name + tail;
    var w := (name + tail)[..WordLength(name + tail)];
    assert w[..|name|] == name;
  }

  lemma SectionIsName()
    ensures DirectiveName(".section")
  {
  }

  // ----- .equ ---------------------------------------------------------------------------------------------

  /** `.equ name, value`: blanks around the comma do not count, and the value may hold further commas. */
  lemma EquateIsAsked(f: Front, d: string, name: string, before: string, behind: string, value: string)
    requires (d == ".equ" || d == ".set") && Blank(before) && Blank(behind)
    requires name != [] && forall i :: 0 <= i < |name| ==> NameChar(name[i])
    requires Compact(value) && Unquoted(before) && Unquoted(behind)
    ensures Statement(f, d + " " + (name + before + "," + behind + value)) == f.Emit(SetSymbol(name, value))
  {
    hide Statement, Directive, WordLength, LTrim, RTrim, DirectiveName, Equate, IndexOf, NameChar, Unquoted, Compact,
      Blank;
    var args := name + before + "," + behind + value;
    EquNames();
    NameIsPlainText(name);
    CommaIsPlain();
    BlankHasNoComma(before);
    CompactAround(name, before, ",", behind, value);
    OperandsStatement(f, d, args);
    EquDirective(f, d + " " + args, d, args);
    EquateOperands(name, before, behind, value);
    EquateOf(f, d, args, name, value);
  }

  lemma CommaIsPlain()
    ensures Unquoted(",")
  {
  }

  lemma CompactAround(a: string, x: string, y: string, z: string, b: string)
    requires Compact(a) && Unquoted(x) && Unquoted(y) && Unquoted(z) && Compact(b)
    ensures Compact(a + x + y + z + b)
  {
    hide Special, Space;
    var s := a + x + y + z + b;
    assert s[0] == a[0] && s[|s| - 1] == b[|b| - 1];
  }

  lemma EquateOperands(name: string, before: string, behind: string, value: string)
    requires Blank(before) && Blank(behind) && Compact(name) && Compact(value)
    requires (forall i :: 0 <= i < |name| ==> name[i] != ',') && forall i :: 0 <= i < |before| ==> before[i] != ','
    ensures
      var args := name + before + "," + behind + value;
      var comma := IndexOf(args, ',');
      comma < |args| && RTrim(args[..comma]) == name != [] && RTrim(LTrim(args[comma + 1..])) == value != []
  {
    hide IndexOf, LTrim, RTrim, Space, Special, Blank;
    var args := name + before + "," + behind + value;
    CommaBehind(name + before, behind + value);
    assert args == name + before + ("," + (behind + value));
    assert args[..|name + before|] == name + before && args[|name + before| + 1..] == behind + value;
    RTrimBlank(name, before);
    LTrimBlank(behind, value);
    NoBlank();
    RTrimBlank(value, []);
    assert value + [] == value;
  }

  lemma NoBlank()
    ensures Blank([])
  {
  }

  lemma BlankHasNoComma(b: string)
    requires Blank(b)
    ensures forall i :: 0 <= i < |b| ==> b[i] != ','
  {
  }

  lemma EquateOf(f: Front, d: string, args: string, name: string, value: string)
    requires name != [] && value != []
    requires
      var comma := IndexOf(args, ',');
      comma < |args| && RTrim(args[..comma]) == name && RTrim(LTrim(args[comma + 1..])) == value
    ensures Equate(f, d, args) == f.Emit(SetSymbol(name, value))
  {
    hide IndexOf, LTrim, RTrim;
  }

  lemma NameIsPlainText(name: string)
    requires name != [] && forall i :: 0 <= i < |name| ==> NameChar(name[i])
    ensures Compact(name) && forall i :: 0 <= i < |name| ==> name[i] != ','
  {
  }

  lemma {:induction false} CommaBehind(a: string, b: string)
    requires forall i :: 0 <= i < |a| ==> a[i] != ','
    ensures IndexOf(a + ("," + b), ',') == |a|
    decreases |a|
  {
    if a == [] {
      assert a + ("," + b) == "," + b;
    } else {
      assert (a + ("," + b))[1..] == a[1..] + ("," + b);
      CommaBehind(a[1..], b);
    }
  }
}
