/** Operands however they are written, and operands that cannot be read: the base, sign and blanks of an
    integer do not count, a list of data that is not all numbers is left to gas whole, and the other
    directives report an error, behind whatever they have emitted.
 */
module OperandLaws {
  import opened Scanner
  import opened Directives
  import opened PrintParse
  import opened DirectiveLaws
  import opened LiteralLaws
  import opened StatementLaws

  // ----- however integers are written ---------------------------------------------------------------------

  predicate TakesIntegers(d: string) {
    d in [".skip", ".space", ".zero", ".org", ".align", ".p2align", ".balign"]
  }

  lemma SameOperands(f: Front, d: string, a: string, b: string)
    requires AllNumbers(a) == AllNumbers(b) && ListValues(a) == ListValues(b)
    requires forall max :: 1 <= max <= 3 ==> ParseOperands(a, max) == ParseOperands(b, max)
    ensures Skip(f, d, a) == Skip(f, d, b)
    ensures SetOrigin(f, d, a) == SetOrigin(f, d, b)
    ensures AlignTo(f, d, a) == AlignTo(f, d, b)
    ensures AllNumbers(a) ==> forall width :: DataList(f, a, width) == DataList(f, b, width)
  {
    hide ParseOperands, AllNumbers, ListValues, Int32, PowerOfTwo, Log2, EmitValues;
    assert d == ".zero" || d != ".zero";
    assert ParseOperands(a, 1) == ParseOperands(b, 1) && ParseOperands(a, 2) == ParseOperands(b, 2);
    assert ParseOperands(a, 3) == ParseOperands(b, 3);
  }

  lemma SameEffect(f: Front, d: string, la: string, lb: string, a: string, b: string)
    requires TakesIntegers(d) || DataWidth(d) > 0
    requires WordLength(la) == |d| < |la| && la[..|d|] == d && RTrim(LTrim(la[|d| + 1..])) == a
    requires WordLength(lb) == |d| < |lb| && lb[..|d|] == d && RTrim(LTrim(lb[|d| + 1..])) == b
    requires Skip(f, d, a) == Skip(f, d, b) && SetOrigin(f, d, a) == SetOrigin(f, d, b)
    requires AlignTo(f, d, a) == AlignTo(f, d, b) && DataList(f, a, DataWidth(d)) == DataList(f, b, DataWidth(d))
    ensures Directive(f, la) == Directive(f, lb)
  {
    hide WordLength, LTrim, RTrim, Ascii, Skip, SetOrigin, AlignTo, Equate, Operandless, DataList, DataWidth;
    if TakesIntegers(d) {
      OperandNames(d);
    }
  }

  lemma {:induction false} ValuesFit(ws: seq<Written>)
    ensures AllInt64(ValuesOf(ws))
    decreases |ws|
  {
    if ws != [] {
      ValuesFit(ws[1..]);
    }
  }

  /** The base, the sign and the blanks of the integers of a directive do not count, only their values. */
  lemma WritingDoesNotCount(f: Front, d: string, ws: seq<Written>)
    requires TakesIntegers(d) || DataNamed(d, 1) || DataNamed(d, 2) || DataNamed(d, 4) || DataNamed(d, 8)
    requires AllWritten(ws) && ws != [] && Compact(WrittenList(ws))
    ensures Statement(f, d + " " + WrittenList(ws)) == Statement(f, Printed(d, ValuesOf(ws)))
  {
    hide Statement, Directive, WordLength, LTrim, RTrim, DirectiveName, DataWidth, AllNumbers, ListValues, Compact,
      DataNamed, TakesIntegers, ParseOperands, PrintInts, WrittenList, Skip, SetOrigin, AlignTo, DataList;
    var a, b := WrittenList(ws), PrintInts(ValuesOf(ws));
    TakesName(d);
    OperandsStatement(f, d, a);
    ValuesFit(ws);
    PrintedStatement(f, d, ValuesOf(ws));
    IntsParse(ValuesOf(ws));
    forall max: nat
      ensures ParseOperands(a, max) == ParseOperands(b, max)
    {
      ListIsRead(ws, max);
      OperandsParse(ValuesOf(ws), max);
    }
    ListIsRead(ws, 0);
    SameOperands(f, d, a, b);
    SameEffect(f, d, d + " " + a, Printed(d, ValuesOf(ws)), a, b);
  }

  lemma TakesName(d: string)
    requires TakesIntegers(d) || DataNamed(d, 1) || DataNamed(d, 2) || DataNamed(d, 4) || DataNamed(d, 8)
    ensures DirectiveName(d) && (TakesIntegers(d) || DataWidth(d) > 0)
  {
    hide DirectiveName, DataWidth, DataNamed, TakesIntegers;
    if TakesIntegers(d) {
      IntegerNames(d);
    } else {
      DataNamedIs(d, if DataNamed(d, 1) then 1 else if DataNamed(d, 2) then 2 else if DataNamed(d, 4) then 4 else 8);
    }
  }

  lemma IntegerNames(d: string)
    requires TakesIntegers(d)
    ensures DirectiveName(d)
  {
  }

  // ----- operands that are no numbers ---------------------------------------------------------------------

  /** An operand that is no number: a word, or a number with something other than a comma behind it. */
  datatype Junk = Word(before: string, text: string) | Trailed(w: Written, text: string)

  predicate JunkOk(j: Junk) {
    && j.text != [] && !BlankChar(j.text[0])
    && match j
      case Word(before, s) =>
        // not even a sign starts a number here
        && Blank(before) && !('0' <= s[0] <= '9')
        && (s[0] == '+' || s[0] == '-' ==> |s| == 1 || !('0' <= s[1] <= '9'))
      case Trailed(w, s) =>
        WrittenOk(w) && s[0] != ',' && (w.behind == [] ==> Ends(w.n, w.radix, s))
  }

  function JunkText(j: Junk): string {
    match j
    case Word(before, s) => before + s
    case Trailed(w, s) => w.before + (NumberText(w) + (w.behind + s))
  }

  /** Integers, and then the operand that is none. */
  function Listed(ws: seq<Written>, j: Junk): string {
    if ws == [] then JunkText(j) else ws[0].before + (NumberText(ws[0]) + (ws[0].behind + ("," + Listed(ws[1..], j))))
  }

  lemma NotTrimmed(s: string)
    requires s != [] && !BlankChar(s[0])
    ensures LTrim(s) == s
  {
  }

  lemma WordIsNoNumber(before: string, s: string)
    requires JunkOk(Word(before, s))
    ensures LTrim(before + s) == s && ParseInt(s) == NoNumber
  {
    NotTrimmed(s);
    BlanksGo(before, s);
    var t := if s[0] == '-' || s[0] == '+' then s[1..] else s;
    assert ParseDigits(t) == NoNumber;
  }

  lemma BlankDoesNotGoOn(n: nat, r: Radix, b: string, s: string)
    requires b != [] && Blank(b)
    ensures Ends(n, r, b + s)
  {
  }

  lemma TrailedIsRead(w: Written, s: string)
    requires JunkOk(Trailed(w, s))
    ensures
      var t := w.before + (NumberText(w) + (w.behind + s));
      && LTrim(t) != [] && ParseInt(LTrim(t)) == ParseInt(t) == Number(ValueOf(w), w.behind + s)
      && LTrim(w.behind + s) == s
  {
    hide ParseInt, LTrim, InRadix, Ends, BlankChar, Blank, Nearest, Signed;
    var t := w.behind + s;
    if w.behind == [] {
      assert t == s;
    } else {
      BlankDoesNotGoOn(w.n, w.radix, w.behind, s);
    }
    NumberIsRead(w.sign, w.n, w.radix, t);
    assert NumberText(w) + t == w.sign + (InRadix(w.n, w.radix) + t);
    NumberStarts(w, t);
    BlanksGo(w.before, NumberText(w) + t);
    SameNumber(w.before + (NumberText(w) + t), NumberText(w) + t);
    BlanksGo(w.behind, s);
    NotTrimmed(s);
  }

  lemma JunkIsRead(j: Junk, max: nat)
    requires JunkOk(j)
    ensures !AllNumbers(JunkText(j)) && ParseOperands(JunkText(j), max) == BadOperands
  {
    hide ParseInt, LTrim, AfterNumber, Blank, BlankChar, WrittenOk, ValueOf, NumberText, Ends;
    match j
    case Word(before, s) => WordIsNoNumber(before, s);
    case Trailed(w, s) =>
      TrailedIsRead(w, s);
      NumberStep(JunkText(j), ValueOf(w), w.behind + s, max);
  }

  lemma {:induction false} ListedIsNoList(ws: seq<Written>, j: Junk, max: nat)
    requires AllWritten(ws) && JunkOk(j)
    ensures !AllNumbers(Listed(ws, j)) && ParseOperands(Listed(ws, j), max) == BadOperands
    decreases |ws|
  {
    hide ParseInt, LTrim, AfterNumber, ListValues, AllNumbers, ParseOperands, WrittenOk, NumberText, ValueOf, JunkOk,
      JunkText;
    if ws == [] {
      JunkIsRead(j, max);
    } else {
      var rest := "," + Listed(ws[1..], j);
      OneIsRead(ws[0], rest);
      ListedIsNoList(ws[1..], j, if max > 0 then max - 1 else 0);
      assert rest[1..] == Listed(ws[1..], j);
      NumberStep(Listed(ws, j), ValueOf(ws[0]), ws[0].behind + rest, max);
    }
  }

  /** Data with one operand that is no number is handed over to gas as it is written, numbers and all. */
  lemma MixedDataIsHandedOver(f: Front, d: string, width: nat, ws: seq<Written>, j: Junk)
    requires DataNamed(d, width) && AllWritten(ws) && JunkOk(j) && Compact(Listed(ws, j))
    ensures Statement(f, d + " " + Listed(ws, j)) == f.Emit(Expressions(Listed(ws, j), width))
    ensures Statement(f, d) == f
  {
    hide Statement, Directive, WordLength, LTrim, RTrim, DirectiveName, DataWidth, AllNumbers, ListValues, EmitValues,
      DataNamed, Compact, Listed, JunkOk, ParseOperands;
    DataNamedIs(d, width);
    OperandsStatement(f, d, Listed(ws, j));
    ListedIsNoList(ws, j, 0);
    DataDirective(f, d + " " + Listed(ws, j), d, Listed(ws, j));
    NameAlone(f, d);
    NameIsDirective(f, d);
    NothingToParse();
    NothingEmitted(f, width);
  }

  lemma NothingEmitted(f: Front, width: nat)
    ensures EmitValues(f, [], width) == f
  {
  }

  lemma NameIsDirective(f: Front, d: string)
    requires WordLength(d) == |d| && d[..|d|] == d && DataWidth(d) > 0
    ensures Directive(f, d) == DataList(f, [], DataWidth(d))
  {
    hide WordLength, DataWidth, DataList;
    assert RTrim(LTrim([])) == [];
  }

  lemma IntegerDirective(f: Front, line: string, d: string, args: string)
    requires TakesIntegers(d) && WordLength(line) == |d| <= |line| && line[..|d|] == d
    requires RTrim(LTrim(if |d| < |line| then line[|d| + 1..] else [])) == args
    requires forall max :: 1 <= max <= 3 ==> ParseOperands(args, max) in {BadOperands, Operands([])}
    ensures Directive(f, line) == f.Fail(MissingOperand(d))
  {
    hide WordLength, LTrim, RTrim, Ascii, Equate, Operandless, DataList, DataWidth, ParseOperands;
    OperandNames(d);
  }

  lemma NothingTrims()
    ensures RTrim(LTrim([])) == []
  {
  }

  /** A directive that takes integers reports a missing operand when one of them is no number, whatever
      the others are, and when there is none. */
  lemma BrokenOperandsFail(f: Front, d: string, ws: seq<Written>, j: Junk)
    requires TakesIntegers(d) && AllWritten(ws) && JunkOk(j) && Compact(Listed(ws, j))
    ensures Statement(f, d + " " + Listed(ws, j)) == f.Fail(MissingOperand(d))
    ensures Statement(f, d) == f.Fail(MissingOperand(d))
  {
    hide Statement, Directive, WordLength, LTrim, RTrim, DirectiveName, AllNumbers, Compact, Listed, JunkOk,
      ParseOperands, TakesIntegers;
    IntegerNames(d);
    OperandsStatement(f, d, Listed(ws, j));
    forall max | 1 <= max <= 3
      ensures ParseOperands(Listed(ws, j), max) == BadOperands && ParseOperands([], max) == Operands([])
    {
      ListedIsNoList(ws, j, max);
      NoOperands(max);
    }
    IntegerDirective(f, d + " " + Listed(ws, j), d, Listed(ws, j));
    NameAlone(f, d);
    NothingTrims();
    IntegerDirective(f, d, d, []);
  }

  // ----- strings ------------------------------------------------------------------------------------------

  /** String literals, each with a comma behind it, and what follows them. */
  function StringsThen(texts: seq<string>, tail: string): string {
    if texts == [] then tail
    else "\"" + (FullyEscaped(texts[0]) + ("\"" + (", " + StringsThen(texts[1..], tail))))
  }

  /** A literal without its closing quote. */
  function Open(s: string): string {
    "\"" + FullyEscaped(s)
  }

  lemma {:induction false} OpenIsNotClosed(s: string, text: string)
    ensures ParseLiteral(FullyEscaped(s), text) == NotClosed
    decreases |s|
  {
    if s != [] {
      hide ParseLiteral, WithEscape;
      EscapeIsRead(s[0], FullyEscaped(s[1..]), text);
      OpenIsNotClosed(s[1..], text + [s[0]]);
    }
  }

  lemma AsciiFails(f: Front, d: string, tail: string, zero: bool, any: bool)
    requires tail != [] && !BlankChar(tail[0])
    ensures tail[0] != '"' ==> Ascii(f, d, tail, zero, any) == f.Fail(NotAString(d))
    ensures tail[0] == '"' && ParseLiteral(tail[1..], []) == NotClosed ==>
              Ascii(f, d, tail, zero, any) == f.Fail(Unterminated(d))
  {
    hide ParseLiteral;
    NotTrimmed(tail);
  }

  lemma {:induction false} StringsBefore(f: Front, d: string, texts: seq<string>, tail: string, zero: bool, any: bool)
    requires texts != []
    ensures Ascii(f, d, StringsThen(texts, tail), zero, any) == Ascii(EmitStrings(f, texts, zero), d, tail, zero, true)
    decreases |texts|
  {
    hide Ascii, ParseLiteral, AfterNumber, FullyEscaped;
    var args := StringsThen(texts, tail);
    var more := StringsThen(texts[1..], tail);
    EscapesAreRead(texts[0], [], ", " + more);
    assert args[1..] == FullyEscaped(texts[0]) + ("\"" + (", " + more)) && [] + texts[0] == texts[0];
    AsciiNext(f, d, args, zero, any, texts[0], ", " + more);
    var g := LiteralBytes(f, texts[0], zero);
    AsciiBlank(g, d, more, zero);
    if |texts| > 1 {
      StringsBefore(g, d, texts[1..], tail, zero, true);
    }
  }

  lemma {:induction false} StringsThenPlain(texts: seq<string>, tail: string)
    requires Plain(Out, tail) && tail != []
    ensures Plain(Out, StringsThen(texts, tail))
    ensures StringsThen(texts, tail) != []
    ensures StringsThen(texts, tail)[|StringsThen(texts, tail)| - 1] == tail[|tail| - 1]
    ensures texts != [] ==> StringsThen(texts, tail)[0] == '"'
    ensures texts == [] ==> StringsThen(texts, tail)[0] == tail[0]
    decreases |texts|
  {
    if texts != [] {
      hide FullyEscaped, Plain, After;
      var e, more := FullyEscaped(texts[0]), StringsThen(texts[1..], tail);
      FullyEscapedStays(texts[0]);
      StringsThenPlain(texts[1..], tail);
      UnquotedIsPlain(", ");
      PlainBoth(Out, ", ", more);
      QuoteSteps();
      PlainBoth(In, "\"", ", " + more);
      PlainBoth(In, e, "\"" + (", " + more));
      PlainBoth(Out, "\"", e + ("\"" + (", " + more)));
    }
  }

  lemma OpenIsPlain(s: string)
    ensures Plain(Out, Open(s))
  {
    hide Plain, After, FullyEscaped;
    FullyEscapedStays(s);
    QuoteSteps();
    PlainBoth(Out, "\"", FullyEscaped(s));
  }

  lemma StringsFail(f: Front, d: string, zero: bool, texts: seq<string>, tail: string, e: DirectiveError)
    requires (d == ".ascii" && !zero) || ((d == ".asciz" || d == ".string") && zero)
    requires tail != [] && !BlankChar(tail[0]) && !BlankChar(tail[|tail| - 1]) && Plain(Out, tail)
    requires
      || (tail[0] != '"' && e == NotAString(d))
      || (tail[0] == '"' && ParseLiteral(tail[1..], []) == NotClosed && e == Unterminated(d))
    ensures Statement(f, d + " " + StringsThen(texts, tail)) == EmitStrings(f, texts, zero).Fail(e)
  {
    hide Statement, Directive, WordLength, LTrim, RTrim, LabelLength, Ascii, StringsThen, Plain, After, DirectiveName,
      DataWidth, ParseLiteral;
    var args := StringsThen(texts, tail);
    NotString();
    NameIsPlain(d);
    StringsThenPlain(texts, tail);
    PlainBoth(Out, d + " ", args);
    StatementIsDirective(f, d, args);
    WordIsName(d, args);
    var line := d + " " + args;
    assert line[..|d|] == d;
    StringDirective(f, line, d, zero, args);
    if texts != [] {
      StringsBefore(f, d, texts, tail, zero, false);
      AsciiFails(EmitStrings(f, texts, zero), d, tail, zero, true);
    } else {
      NoStrings(f, zero, tail);
      AsciiFails(f, d, tail, zero, false);
    }
  }

  lemma NoStrings(f: Front, zero: bool, tail: string)
    ensures EmitStrings(f, [], zero) == f && StringsThen([], tail) == tail
  {
  }

  /** A string that is not closed is an error, behind the strings before it. */
  lemma OpenStringFails(f: Front, d: string, zero: bool, texts: seq<string>, s: string)
    requires (d == ".ascii" && !zero) || ((d == ".asciz" || d == ".string") && zero)
    requires s != [] ==> !BlankChar(s[|s| - 1])
    ensures Statement(f, d + " " + StringsThen(texts, Open(s))) == EmitStrings(f, texts, zero).Fail(Unterminated(d))
  {
    hide Statement, StringsThen, EmitStrings, FullyEscaped, ParseLiteral, Plain;
    OpenIsPlain(s);
    OpenIsNotClosed(s, []);
    OpenEnd(s);
    assert Open(s)[1..] == FullyEscaped(s);
    StringsFail(f, d, zero, texts, Open(s), Unterminated(d));
  }

  lemma {:induction false} OpenEnd(s: string)
    requires s != [] ==> !BlankChar(s[|s| - 1])
    ensures !BlankChar(Open(s)[|Open(s)| - 1])
    decreases |s|
  {
    hide BlankChar, WithEscape;
    if s == [] {
      QuoteIsNoBlank();
    } else {
      var e, more := WithEscape(s[0]), FullyEscaped(s[1..]);
      OpenEnd(s[1..]);
      EscapeEnd(s[0]);
      assert Open(s) == "\"" + (e + more);
      if |s| == 1 {
        assert Open(s)[|Open(s)| - 1] == e[|e| - 1];
      } else {
        EscapedNotEmpty(s[1..]);
        assert Open(s)[|Open(s)| - 1] == more[|more| - 1] == Open(s[1..])[|Open(s[1..])| - 1];
      }
    }
  }

  lemma QuoteIsNoBlank()
    ensures !BlankChar('"')
  {
  }

  lemma EscapeEnd(c: char)
    ensures WithEscape(c) != [] && (!BlankChar(c) ==> !BlankChar(WithEscape(c)[|WithEscape(c)| - 1]))
  {
  }

  lemma EscapedNotEmpty(s: string)
    requires s != []
    ensures FullyEscaped(s) != []
  {
    EscapeEnd(s[0]);
  }

  /** An operand that is no string is an error, behind the strings before it; so is no operand. */
  lemma WordIsNoString(f: Front, d: string, zero: bool, texts: seq<string>, tail: string)
    requires (d == ".ascii" && !zero) || ((d == ".asciz" || d == ".string") && zero)
    requires Compact(tail)
    ensures Statement(f, d + " " + StringsThen(texts, tail)) == EmitStrings(f, texts, zero).Fail(NotAString(d))
    ensures Statement(f, d) == f.Fail(NotAString(d))
  {
    hide Statement, StringsThen, EmitStrings, ParseLiteral, Plain, Directive, WordLength, DirectiveName, Ascii;
    UnquotedIsPlain(tail);
    StringsFail(f, d, zero, texts, tail, NotAString(d));
    NotString();
    NameAlone(f, d);
    NoStringGiven(f, d, zero);
  }

  lemma NoStringGiven(f: Front, d: string, zero: bool)
    requires (d == ".ascii" && !zero) || ((d == ".asciz" || d == ".string") && zero)
    requires WordLength(d) == |d| && d[..|d|] == d
    ensures Directive(f, d) == f.Fail(NotAString(d))
  {
    hide WordLength, DataList, Skip, SetOrigin, AlignTo, Equate, Operandless, DataWidth;
    NotString();
    NothingTrims();
    assert LTrim([]) == [];
  }

  // ----- .equ ---------------------------------------------------------------------------------------------

  lemma EquateFails(f: Front, line: string, d: string, args: string)
    requires d == ".equ" || d == ".set"
    requires WordLength(line) == 4 <= |line| && line[..4] == d
    requires RTrim(LTrim(if 4 < |line| then line[5..] else [])) == args
    requires
      var comma := IndexOf(args, ',');
      comma == |args| || RTrim(args[..comma]) == [] || RTrim(LTrim(args[comma + 1..])) == []
    ensures Directive(f, line) == f.Fail(Malformed(d))
  {
    hide WordLength, LTrim, RTrim, Ascii, Skip, SetOrigin, AlignTo, Operandless, DataList, DataWidth, IndexOf;
    EquDiffers(d);
  }

  lemma {:induction false} NoComma(s: string)
    requires forall i :: 0 <= i < |s| ==> s[i] != ','
    ensures IndexOf(s, ',') == |s|
    decreases |s|
  {
    if s != [] {
      NoComma(s[1..]);
    }
  }

  /** `.equ` without a comma, without a name, without a value or without operands is malformed. */
  lemma MalformedEquateFails(f: Front, d: string, text: string)
    requires (d == ".equ" || d == ".set") && Compact(text) && forall i :: 0 <= i < |text| ==> text[i] != ','
    ensures Statement(f, d + " " + text) == f.Fail(Malformed(d))
    ensures Statement(f, d + " " + (text + ",")) == f.Fail(Malformed(d))
    ensures Statement(f, d + " " + ("," + text)) == f.Fail(Malformed(d))
    ensures Statement(f, d) == f.Fail(Malformed(d))
  {
    hide Statement, Directive, WordLength, DirectiveName, IndexOf, LTrim, RTrim, Compact;
    EquNames();
    NothingTrims();
    CompactComma(text);
    OperandsStatement(f, d, text);
    NoComma(text);
    EquateFails(f, d + " " + text, d, text);
    OperandsStatement(f, d, text + ",");
    CommaBehind(text, []);
    assert text + "," == text + ("," + []) && (text + ",")[|text| + 1..] == [];
    EquateFails(f, d + " " + (text + ","), d, text + ",");
    OperandsStatement(f, d, "," + text);
    CommaBehind([], text);
    assert "," + text == [] + ("," + text) && ("," + text)[..0] == [];
    NothingBehind();
    EquateFails(f, d + " " + ("," + text), d, "," + text);
    NameAlone(f, d);
    NoComma([]);
    EquateFails(f, d, d, []);
  }

  lemma NothingBehind()
    ensures RTrim([]) == []
  {
  }

  lemma CompactComma(text: string)
    requires Compact(text)
    ensures Compact(text + ",") && Compact("," + text)
  {
  }
}
