/** What statements come to, beyond the functions that run them: a statement acts on its own, the first
    error wins, only section directives leave `.text`, and the operands of the other directives arrive
    at gas as they were written.
 */
module DirectiveLaws {
  import opened Scanner
  import opened Directives
  import opened PrintParse
  import Frags
  import Values

  // ----- a statement acts on its own ------------------------------------------------------------------

  /** The effects of `g` after those of `f`. */
  function Then(f: Front, g: Front): Front {
    Front(f.events + g.events, f.violation || g.violation, if f.error.NoError? then g.error else f.error)
  }

  lemma ThenStart(f: Front)
    ensures Then(f, START) == f == Then(START, f)
  {
    assert f.events + [] == f.events == [] + f.events;
  }

  lemma ThenAssoc(f: Front, g: Front, h: Front)
    ensures Then(Then(f, g), h) == Then(f, Then(g, h))
  {
    assert f.events + g.events + h.events == f.events + (g.events + h.events);
  }

  lemma RequestsLocal(f: Front, e: Event, data: string, x: DirectiveError)
    ensures f.Emit(e) == Then(f, START.Emit(e))
    ensures f.EmitBytes(data) == Then(f, START.EmitBytes(data))
    ensures f.Fail(x) == Then(f, START.Fail(x))
  {
    ThenStart(f);
    assert [] + [e] == [e] && [] + [Bytes(data)] == [Bytes(data)];
  }

  lemma {:induction false} ValuesLocal(f: Front, values: seq<int>, width: nat)
    ensures EmitValues(f, values, width) == Then(f, EmitValues(START, values, width))
    decreases |values|
  {
    hide LittleEndian, Then;
    if values == [] {
      ThenStart(f);
    } else {
      var data, rest := LittleEndian(values[0], width), values[1..];
      RequestsLocal(f, Bytes(data), data, NoError);
      ValuesLocal(f.EmitBytes(data), rest, width);
      ValuesLocal(START.EmitBytes(data), rest, width);
      ThenAssoc(f, START.EmitBytes(data), EmitValues(START, rest, width));
    }
  }

  lemma {:induction false} AsciiLocal(f: Front, d: string, args: string, zero: bool, any: bool)
    ensures Ascii(f, d, args, zero, any) == Then(f, Ascii(START, d, args, zero, any))
    decreases |args|
  {
    hide Then, ParseLiteral, LTrim, AfterNumber;
    ThenStart(f);
    RequestsLocal(f, Bytes([]), [], NotAString(d));
    RequestsLocal(f, Bytes([]), [], Unterminated(d));
    var t := LTrim(args);
    if t != [] && t[0] == '"' && ParseLiteral(t[1..], []).Closed? {
      var lit := ParseLiteral(t[1..], []);
      AsciiStep(f, lit.text, zero);
      var g := LiteralBytes(START, lit.text, zero);
      AsciiLocal(LiteralBytes(f, lit.text, zero), d, AfterNumber(lit.rest), zero, true);
      AsciiLocal(g, d, AfterNumber(lit.rest), zero, true);
      ThenAssoc(f, g, Ascii(START, d, AfterNumber(lit.rest), zero, true));
    }
  }

  function LiteralBytes(f: Front, text: string, zero: bool): Front {
    var g := f.EmitBytes(text);
    if zero then g.EmitBytes("\0") else g
  }

  lemma AsciiStep(f: Front, text: string, zero: bool)
    ensures LiteralBytes(f, text, zero) == Then(f, LiteralBytes(START, text, zero))
  {
    hide Then;
    RequestsLocal(f, Bytes(text), text, NoError);
    RequestsLocal(f.EmitBytes(text), Bytes(text), "\0", NoError);
    RequestsLocal(START.EmitBytes(text), Bytes(text), "\0", NoError);
    ThenAssoc(f, START.EmitBytes(text), START.EmitBytes("\0"));
  }

  lemma DataLocal(f: Front, args: string, width: nat)
    ensures DataList(f, args, width) == Then(f, DataList(START, args, width))
  {
    hide Then, EmitValues, AllNumbers, ListValues;
    ValuesLocal(f, ListValues(args), width);
    RequestsLocal(f, Expressions(args, width), [], NoError);
  }

  lemma SkipLocal(f: Front, d: string, args: string)
    ensures Skip(f, d, args) == Then(f, Skip(START, d, args))
  {
    hide Then, ParseOperands;
    RequestsLocal(f, Bytes([]), [], MissingOperand(d));
    RequestsLocal(f, Bytes([]), [], NegativeOperand(d));
    match ParseOperands(args, if d == ".zero" then 1 else 2)
    case BadOperands =>
    case Operands(vs) =>
      if |vs| >= 1 && vs[0] >= 0 {
        RequestsLocal(f, Bytes([]), seq(vs[0], i => (Operand(vs, 1) % 256) as char), NoError);
      }
  }

  lemma OriginLocal(f: Front, d: string, args: string)
    ensures SetOrigin(f, d, args) == Then(f, SetOrigin(START, d, args))
  {
    hide Then, ParseOperands, Int32;
    RequestsLocal(f, Bytes([]), [], MissingOperand(d));
    RequestsLocal(f, Bytes([]), [], NegativeOperand(d));
    match ParseOperands(args, 2)
    case BadOperands =>
    case Operands(vs) =>
      if |vs| >= 1 && vs[0] >= 0 {
        RequestsLocal(f, Org(vs[0], Int32(Operand(vs, 1))), [], NoError);
      }
  }

  lemma AlignLocal(f: Front, d: string, args: string)
    ensures AlignTo(f, d, args) == Then(f, AlignTo(START, d, args))
  {
    hide Then, ParseOperands, Int32, PowerOfTwo, Log2;
    RequestsLocal(f, Bytes([]), [], MissingOperand(d));
    RequestsLocal(f, Bytes([]), [], BadAlignment(d));
    forall e: Event
      ensures f.Emit(e) == Then(f, START.Emit(e))
    {
      RequestsLocal(f, e, [], NoError);
    }
  }

  lemma EquateLocal(f: Front, d: string, args: string)
    ensures Equate(f, d, args) == Then(f, Equate(START, d, args))
  {
    hide Then, IndexOf, RTrim, LTrim;
    RequestsLocal(f, Bytes([]), [], Malformed(d));
    forall e: Event
      ensures f.Emit(e) == Then(f, START.Emit(e))
    {
      RequestsLocal(f, e, [], NoError);
    }
  }

  lemma OperandlessLocal(f: Front, d: string, args: string)
    ensures Operandless(f, d, args) == Then(f, Operandless(START, d, args))
  {
    hide SectionName, TextSectionName, LTrim, LeavesText, Metadata;
    ThenStart(f);
    assert f.events + [] == f.events;
  }

  lemma DirectiveLocal(f: Front, line: string)
    ensures Directive(f, line) == Then(f, Directive(START, line))
  {
    hide WordLength, LTrim, RTrim, Ascii, Skip, SetOrigin, AlignTo, Equate, Operandless, DataList, DataWidth, Then;
    var n := WordLength(line);
    var d := line[..n];
    var args := RTrim(LTrim(if n < |line| then line[n + 1..] else []));
    DataLocal(f, args, DataWidth(d));
    AsciiLocal(f, d, args, false, false);
    AsciiLocal(f, d, args, true, false);
    SkipLocal(f, d, args);
    OriginLocal(f, d, args);
    AlignLocal(f, d, args);
    EquateLocal(f, d, args);
    OperandlessLocal(f, d, args);
  }

  lemma {:induction false} LabelledLocal(f: Front, line: string)
    ensures Labelled(f, line) == Then(f, Labelled(START, line))
    decreases |line|
  {
    hide Then, Directive, LabelEvent, LabelLength, LTrim;
    ThenStart(f);
    if line != [] {
      if StartsWithLabel(line) {
        var e, rest := LabelEvent(line[..LabelLength(line)]), LTrim(line[LabelLength(line) + 1..]);
        RequestsLocal(f, e, [], NoError);
        LabelledLocal(f.Emit(e), rest);
        LabelledLocal(START.Emit(e), rest);
        ThenAssoc(f, START.Emit(e), Labelled(START, rest));
      } else if line[0] == '.' {
        DirectiveLocal(f, line);
      } else {
        RequestsLocal(f, Instruction(line), [], NoError);
      }
    }
  }

  /** A statement does the same after any others: it adds its requests, its flag and, unless an earlier
      statement has failed, its error. */
  lemma StatementIsLocal(f: Front, line: string)
    ensures Statement(f, line) == Then(f, Statement(START, line))
  {
    hide Then, Labelled, LTrim, RTrim, CommentAt;
    var t := LTrim(line);
    LabelledLocal(f, RTrim(t[..CommentAt(Out, t)]));
  }

  // ----- errors and sections over a whole source --------------------------------------------------------

  /** The error of the first statement that has one. */
  function FirstError(lines: seq<string>): DirectiveError
    decreases |lines|
  {
    if lines == [] then NoError
    else if Statement(START, lines[0]).error.NoError? then FirstError(lines[1..])
    else Statement(START, lines[0]).error
  }

  predicate Violates(line: string) {
    Statement(START, line).violation
  }

  lemma {:induction false} FlagsOfAll(f: Front, lines: seq<string>)
    ensures AllStatements(f, lines).error == if f.error.NoError? then FirstError(lines) else f.error
    ensures AllStatements(f, lines).violation <==> f.violation || exists i :: 0 <= i < |lines| && Violates(lines[i])
    decreases |lines|
  {
    hide Statement;
    if lines != [] {
      StatementIsLocal(f, lines[0]);
      FlagsOfAll(Statement(f, lines[0]), lines[1..]);
      SomeViolates(lines);
    }
  }

  lemma SomeViolates(lines: seq<string>)
    requires lines != []
    ensures (exists i :: 0 <= i < |lines| && Violates(lines[i])) <==>
            Violates(lines[0]) || exists i :: 0 <= i < |lines[1..]| && Violates(lines[1..][i])
  {
    hide Violates;
    if i :| 0 <= i < |lines| && Violates(lines[i]) {
      assert i > 0 ==> lines[1..][i - 1] == lines[i];
    }
    if i :| 0 <= i < |lines[1..]| && Violates(lines[1..][i]) {
      assert lines[i + 1] == lines[1..][i];
    }
  }

  /** The statements of a source. */
  function Lines(src: string): seq<string> {
    Statements(Out, Stripped(Out, src), [])
  }

  /** In a whole source the first error wins, and the section flag is up if and only if some statement
      leaves the section. */
  lemma FirstErrorWins(src: string)
    ensures Source(src).error == FirstError(Lines(src))
    ensures Source(src).violation <==> exists i :: 0 <= i < |Lines(src)| && Violates(Lines(src)[i])
  {
    hide AllStatements, FirstError, Violates;
    FlagsOfAll(START, Lines(src));
  }

  // ----- which statements leave the section ------------------------------------------------------------

  /** The statement without its labels. */
  function Unlabelled(line: string): (r: string)
    ensures |r| <= |line|
    decreases |line|
  {
    if StartsWithLabel(line) then Unlabelled(LTrim(line[LabelLength(line) + 1..])) else line
  }

  /** The statement as it is run: without blanks, comment and labels. */
  function Core(line: string): string {
    var t := LTrim(line);
    Unlabelled(RTrim(t[..CommentAt(Out, t)]))
  }

  /** A directive that asks for another section than `.text`. */
  predicate LeavesSection(line: string) {
    var n := WordLength(line);
    var d := line[..n];
    var args := RTrim(LTrim(if n < |line| then line[n + 1..] else []));
    line != [] && line[0] == '.'
    && ((d == ".section" && !TextSectionName(SectionName(LTrim(args)))) || LeavesText(d))
  }

  lemma {:induction false} AsciiKeepsSection(f: Front, d: string, args: string, zero: bool, any: bool)
    ensures Ascii(f, d, args, zero, any).violation == f.violation
    decreases |args|
  {
    hide ParseLiteral, LTrim, AfterNumber;
    var t := LTrim(args);
    if t != [] && t[0] == '"' && ParseLiteral(t[1..], []).Closed? {
      var lit := ParseLiteral(t[1..], []);
      AsciiKeepsSection(LiteralBytes(f, lit.text, zero), d, AfterNumber(lit.rest), zero, true);
    }
  }

  lemma DataKeepsSection(f: Front, args: string, width: nat)
    ensures DataList(f, args, width).violation == f.violation
  {
    hide ListValues, AllNumbers, EmitValues;
    EmittedList(f, ListValues(args), width);
  }

  lemma OthersKeepSection(f: Front, d: string, args: string)
    ensures Skip(f, d, args).violation == f.violation
    ensures SetOrigin(f, d, args).violation == f.violation
    ensures AlignTo(f, d, args).violation == f.violation
    ensures Equate(f, d, args).violation == f.violation
  {
    hide ParseOperands, Int32, PowerOfTwo, Log2, IndexOf, RTrim, LTrim;
  }

  /** The names that do something else are not section directives. */
  lemma NamesDiffer(d: string)
    requires d == ".section" || LeavesText(d)
    ensures DataWidth(d) == 0 && d != ".ascii" && d != ".asciz" && d != ".string"
    ensures d != ".skip" && d != ".space" && d != ".zero" && d != ".org"
    ensures d != ".align" && d != ".p2align" && d != ".balign" && d != ".equ" && d != ".set" && d != ".text"
    ensures d == ".section" ==> !LeavesText(d) && !Metadata(d)
  {
  }

  lemma DirectiveViolates(line: string)
    requires line != [] && line[0] == '.'
    ensures Directive(START, line).violation <==> LeavesSection(line)
  {
    hide WordLength, LTrim, RTrim, Ascii, Skip, SetOrigin, AlignTo, Equate, DataList, DataWidth;
    hide SectionName, TextSectionName, LeavesText, Metadata;
    var n := WordLength(line);
    var d := line[..n];
    var args := RTrim(LTrim(if n < |line| then line[n + 1..] else []));
    DataKeepsSection(START, args, DataWidth(d));
    AsciiKeepsSection(START, d, args, false, false);
    AsciiKeepsSection(START, d, args, true, false);
    OthersKeepSection(START, d, args);
    if d == ".section" || LeavesText(d) {
      NamesDiffer(d);
    }
  }

  lemma {:induction false} LabelledViolates(line: string)
    ensures Labelled(START, line).violation <==> LeavesSection(Unlabelled(line))
    decreases |line|
  {
    hide Directive, LeavesSection, LabelEvent, LabelLength, LTrim;
    if line == [] {
      NothingLeaves();
    } else if StartsWithLabel(line) {
      var e, rest := LabelEvent(line[..LabelLength(line)]), LTrim(line[LabelLength(line) + 1..]);
      LabelledLocal(START.Emit(e), rest);
      LabelledViolates(rest);
    } else if line[0] == '.' {
      DirectiveViolates(line);
    } else {
      OnlyDirectivesLeave(line);
    }
  }

  lemma NothingLeaves()
    ensures !LeavesSection([]) && Unlabelled([]) == []
  {
  }

  lemma OnlyDirectivesLeave(line: string)
    requires line != [] && line[0] != '.'
    ensures !LeavesSection(line)
  {
  }

  /** Exactly the directives for other sections violate. */
  lemma ViolatesIff(line: string)
    ensures Violates(line) <==> LeavesSection(Core(line))
  {
    hide Labelled, LeavesSection, Unlabelled, LTrim, RTrim, CommentAt;
    var t := LTrim(line);
    LabelledViolates(RTrim(t[..CommentAt(Out, t)]));
  }

  // ----- operands arrive as written -------------------------------------------------------------------------

  predicate AllInt64(vs: seq<int>) {
    forall i :: 0 <= i < |vs| ==> Int64(vs[i])
  }

  lemma OperandsStep(s: string, v: int, rest: string, max: nat)
    requires LTrim(s) == s != [] && ParseInt(s) == Number(v, rest) && max > 0
    ensures
      var u := LTrim(rest);
      ParseOperands(s, max) ==
      if u == [] then Operands([v])
      else if u[0] != ',' then BadOperands
      else
        match ParseOperands(u[1..], max - 1)
        case BadOperands => BadOperands
        case Operands(vs) => Operands([v] + vs)
  {
    hide ParseInt, LTrim;
  }

  lemma OperandsSame(a: string, b: string, max: nat)
    requires LTrim(a) == LTrim(b)
    ensures ParseOperands(a, max) == ParseOperands(b, max)
  {
    hide ParseInt, LTrim;
  }

  /** Printed integers are read as operands, in order; one too many is an error. */
  lemma {:induction false} OperandsParse(vs: seq<int>, max: nat)
    requires AllInt64(vs)
    ensures ParseOperands(PrintInts(vs), max) == if |vs| <= max then Operands(vs) else BadOperands
    decreases |vs|
  {
    hide PrintInt, ParseOperands, ParseInt, LTrim;
    NothingToParse();
    if vs == [] {
      NoOperands(max);
    } else {
      PrintIntNonempty(vs[0]);
      if |vs| == 1 {
        var s := PrintInt(vs[0]);
        assert s + [] == s;
        IntParses(vs[0], []);
        if max == 0 {
          TooMany(s);
        } else {
          OperandsStep(s, vs[0], [], max);
        }
      } else {
        var tail := " " + PrintInts(vs[1..]);
        var s := PrintInts(vs);
        assert s == PrintInt(vs[0]) + ("," + tail);
        IntParses(vs[0], "," + tail);
        CommaSkipped(tail);
        assert ("," + tail)[1..] == tail;
        BlankSkipped(PrintInts(vs[1..]));
        if max == 0 {
          TooMany(s);
        } else {
          OperandsParse(vs[1..], max - 1);
          OperandsSame(tail, PrintInts(vs[1..]), max - 1);
          OperandsStep(s, vs[0], "," + tail, max);
          assert [vs[0]] + vs[1..] == vs;
        }
      }
    }
  }

  lemma NoOperands(max: nat)
    ensures ParseOperands([], max) == Operands([])
  {
  }

  lemma TooMany(s: string)
    requires LTrim(s) != []
    ensures ParseOperands(s, 0) == BadOperands
  {
    hide LTrim;
  }

  /** A directive with integer operands. */
  function Printed(name: string, vs: seq<int>): string {
    name + " " + PrintInts(vs)
  }

  predicate DirectiveName(name: string) {
    |name| > 1 && name[0] == '.' && (forall i :: 0 <= i < |name| ==> LabelChar(name[i])) && Unquoted(name)
  }

  lemma PrintedStatement(f: Front, name: string, vs: seq<int>)
    requires DirectiveName(name) && vs != []
    ensures Statement(f, Printed(name, vs)) == Directive(f, Printed(name, vs))
    ensures WordLength(Printed(name, vs)) == |name| && Printed(name, vs)[..|name|] == name
    ensures |Printed(name, vs)| > |name|
    ensures RTrim(LTrim(Printed(name, vs)[|name| + 1..])) == PrintInts(vs)
  {
    hide Directive, PrintInts, Plain, After, LTrim, RTrim, WordLength, LabelLength, Statement;
    IntsAreUnquoted(vs);
    UnquotedIsPlain(name + " " + PrintInts(vs));
    StatementIsDirective(f, name, PrintInts(vs));
    WordIsName(name, PrintInts(vs));
  }

  /** The directives with integer operands are told apart by their names. */
  lemma OperandNames(d: string)
    requires d in [".skip", ".space", ".zero", ".org", ".align", ".p2align", ".balign"]
    ensures DataWidth(d) == 0 && d != ".ascii" && d != ".asciz" && d != ".string"
    ensures d == ".org" ==> d != ".skip" && d != ".space" && d != ".zero"
    ensures d == ".align" || d == ".p2align" || d == ".balign" ==>
              d != ".skip" && d != ".space" && d != ".zero" && d != ".org"
  {
  }

  lemma SkipDirective(f: Front, line: string, d: string, args: string)
    requires d == ".skip" || d == ".space" || d == ".zero"
    requires WordLength(line) == |d| < |line| && line[..|d|] == d && RTrim(LTrim(line[|d| + 1..])) == args
    ensures Directive(f, line) == Skip(f, d, args)
  {
    hide WordLength, LTrim, RTrim, Ascii, Skip, SetOrigin, AlignTo, Equate, Operandless, DataList, DataWidth;
    OperandNames(d);
  }

  lemma OrgDirective(f: Front, line: string, args: string)
    requires WordLength(line) == 4 < |line| && line[..4] == ".org" && RTrim(LTrim(line[5..])) == args
    ensures Directive(f, line) == SetOrigin(f, ".org", args)
  {
    hide WordLength, LTrim, RTrim, Ascii, Skip, SetOrigin, AlignTo, Equate, Operandless, DataList, DataWidth;
    OperandNames(".org");
  }

  lemma AlignDirective(f: Front, line: string, d: string, args: string)
    requires d == ".align" || d == ".p2align" || d == ".balign"
    requires WordLength(line) == |d| < |line| && line[..|d|] == d && RTrim(LTrim(line[|d| + 1..])) == args
    ensures Directive(f, line) == AlignTo(f, d, args)
  {
    hide WordLength, LTrim, RTrim, Ascii, Skip, SetOrigin, AlignTo, Equate, Operandless, DataList, DataWidth;
    OperandNames(d);
  }

  lemma NamesOk()
    ensures DirectiveName(".skip") && DirectiveName(".space") && DirectiveName(".zero") && DirectiveName(".org")
    ensures DirectiveName(".align") && DirectiveName(".p2align") && DirectiveName(".balign")
  {
  }

  /** `.skip n, v` emits `n` bytes `v`, 0 if it is left out, as it must be for `.zero`; a negative size
      is an error, and so is an operand too many. */
  lemma SkipRequests(f: Front, d: string, vs: seq<int>)
    requires d == ".skip" || d == ".space" || d == ".zero"
    requires AllInt64(vs) && vs != []
    ensures Statement(f, Printed(d, vs)) ==
            if |vs| > 2 || (|vs| == 2 && d == ".zero") then f.Fail(MissingOperand(d))
            else if vs[0] < 0 then f.Fail(NegativeOperand(d))
            else f.EmitBytes(seq(vs[0], _ => (Operand(vs, 1) % 256) as char))
  {
    hide Statement, Directive, ParseOperands, PrintInts, WordLength, LTrim, RTrim, DirectiveName;
    NamesOk();
    PrintedStatement(f, d, vs);
    SkipDirective(f, Printed(d, vs), d, PrintInts(vs));
    OperandsParse(vs, if d == ".zero" then 1 else 2);
    if vs[0] >= 0 {
      assert seq(vs[0], i => (Operand(vs, 1) % 256) as char) == seq(vs[0], _ => (Operand(vs, 1) % 256) as char);
    }
  }

  /** `.org n, v` asks for an org frag with target `n` and fill `v`. */
  lemma OrgRequests(f: Front, vs: seq<int>)
    requires AllInt64(vs) && vs != []
    ensures Statement(f, Printed(".org", vs)) ==
            if |vs| > 2 then f.Fail(MissingOperand(".org"))
            else if vs[0] < 0 then f.Fail(NegativeOperand(".org"))
            else f.Emit(Org(vs[0], Int32(Operand(vs, 1))))
  {
    hide Statement, Directive, ParseOperands, PrintInts, WordLength, LTrim, RTrim, DirectiveName, Int32;
    NamesOk();
    PrintedStatement(f, ".org", vs);
    OrgDirective(f, Printed(".org", vs), PrintInts(vs));
    OperandsParse(vs, 2);
  }

  /** The most padding an alignment may insert; 0 for no limit. */
  function MaxSkip(m: int): nat {
    if m > 0 then m % 0x1_0000_0000 else 0
  }

  /** `.align k, v, m` asks for alignment to two to the `k`, `k` from 0 to 30. */
  lemma AlignRequests(f: Front, d: string, vs: seq<int>)
    requires (d == ".align" || d == ".p2align") && AllInt64(vs) && vs != []
    ensures Statement(f, Printed(d, vs)) ==
            if |vs| > 3 then f.Fail(MissingOperand(d))
            else if 0 <= vs[0] <= 30 then f.Emit(Align(vs[0], Int32(Operand(vs, 1)), MaxSkip(Operand(vs, 2))))
            else f.Fail(BadAlignment(d))
  {
    hide Statement, Directive, ParseOperands, PrintInts, WordLength, LTrim, RTrim, DirectiveName, Int32;
    NamesOk();
    PrintedStatement(f, d, vs);
    AlignDirective(f, Printed(d, vs), d, PrintInts(vs));
    OperandsParse(vs, 3);
  }

  /** `.balign b, v, m` asks for alignment to the power whose power of two is `b`, and rejects a `b`
      that is no power of two. */
  lemma BalignRequests(f: Front, vs: seq<int>) returns (power: nat)
    requires AllInt64(vs) && vs != []
    ensures |vs| > 3 ==> Statement(f, Printed(".balign", vs)) == f.Fail(MissingOperand(".balign"))
    ensures |vs| <= 3 && (exists k: nat :: Frags.Pow2(k) == vs[0]) ==>
              && Frags.Pow2(power) == vs[0]
              && Statement(f, Printed(".balign", vs)) ==
                 f.Emit(Align(power, Int32(Operand(vs, 1)), MaxSkip(Operand(vs, 2))))
    ensures |vs| <= 3 && (forall k: nat :: Frags.Pow2(k) != vs[0]) ==>
              Statement(f, Printed(".balign", vs)) == f.Fail(BadAlignment(".balign"))
  {
    hide Statement, Directive, ParseOperands, PrintInts, WordLength, LTrim, RTrim, DirectiveName, Int32, PowerOfTwo,
      Log2, Frags.Pow2;
    NamesOk();
    PrintedStatement(f, ".balign", vs);
    AlignDirective(f, Printed(".balign", vs), ".balign", PrintInts(vs));
    OperandsParse(vs, 3);
    power := Log2(vs[0]);
    if PowerOfTwo(vs[0]) {
      Values.ExponentIsExact(vs[0]);
    }
    if k: nat :| Frags.Pow2(k) == vs[0] {
      Values.PowersAreAccepted(k);
    }
  }

  /** gas's `frag_align` for a request: the exponent in `fr_offset`, the max-skip in `fr_subtype`. */
  predicate MadeFor(f: Frags.Frag, e: Event) {
    e.Align? && f.kind.Align? && f.offset == e.power && f.subtype == e.max
  }

  /** From the directive to the layout: what follows `.balign b` without a max-skip starts at a
      multiple of `b`. */
  lemma BalignReachesBoundary(c: Frags.Chain, i: nat, vs: seq<int>)
    requires AllInt64(vs) && 0 < |vs| <= 3 && Operand(vs, 2) <= 0 && exists k: nat :: Frags.Pow2(k) == vs[0]
    requires i < |c.frags|
    requires
      var events := Statement(START, Printed(".balign", vs)).events;
      |events| == 1 && MadeFor(c.frags[i], events[0])
    ensures vs[0] > 0 && Frags.Addr(Frags.LaidOut(Frags.Finalized(c)), i + 1) % vs[0] == 0
  {
    hide Statement, Frags.Settled, Frags.Addr, Int32, PowerOfTwo, Log2, Printed;
    var power := BalignRequests(START, vs);
    var k: nat :| Frags.Pow2(k) == vs[0];
    Values.PowersAreAccepted(k);
    PowersDiffer(k, power);
    Values.BalignReachesBoundary(c, i, vs[0]);
  }

  lemma PowersDiffer(j: nat, k: nat)
    requires Frags.Pow2(j) == Frags.Pow2(k)
    ensures j == k
  {
    Values.PowersAreAccepted(j);
    Values.PowersAreAccepted(k);
  }

  // ----- .equ -------------------------------------------------------------------------------------------------

  lemma EquDiffers(d: string)
    requires d == ".equ" || d == ".set"
    ensures DataWidth(d) == 0 && d != ".ascii" && d != ".asciz" && d != ".string"
    ensures d != ".skip" && d != ".space" && d != ".zero" && d != ".org"
    ensures d != ".align" && d != ".p2align" && d != ".balign"
  {
  }

  lemma EquDirective(f: Front, line: string, d: string, args: string)
    requires d == ".equ" || d == ".set"
    requires WordLength(line) == 4 < |line| && line[..4] == d && RTrim(LTrim(line[5..])) == args
    ensures Directive(f, line) == Equate(f, d, args)
  {
    hide WordLength, LTrim, RTrim, Ascii, Skip, SetOrigin, AlignTo, Equate, Operandless, DataList, DataWidth;
    EquDiffers(d);
  }

  lemma EquNames()
    ensures DirectiveName(".equ") && DirectiveName(".set")
  {
  }
}
