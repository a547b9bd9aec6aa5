/** Printing data and assembling it again.  A program of string and integer statements is printed
    the plain way (only `"` and `\` escaped, numbers in decimal), and the whole front end is run on
    the text: block-comment stripping, splitting, comment stripping, labels, directives, literals.
    What reaches gas are exactly the bytes the program stands for.
 */
module PrintParse {
  import opened Scanner
  import opened Directives

  /** A string with or without a final NUL, or a list of integers of 1, 2, 4 or 8 bytes. */
  datatype Datum = Text(bytes: string, zero: bool) | Numbers(values: seq<int>, width: nat)

  predicate Int64(v: int) {
    MIN_INT64 <= v <= MAX_INT64
  }

  predicate Printable(d: Datum) {
    d.Numbers? ==>
      && (d.width == 1 || d.width == 2 || d.width == 4 || d.width == 8)
      && forall i :: 0 <= i < |d.values| ==> Int64(d.values[i])
  }

  // ----- the printer --------------------------------------------------------------------------------

  function Escaped(s: string): string {
    if s == [] then []
    else (if s[0] == '"' then "\\\"" else if s[0] == '\\' then "\\\\" else [s[0]]) + Escaped(s[1..])
  }

  function DigitChar(n: nat): char
    requires n < 10
  {
    ('0' as int + n) as char
  }

  function Decimal(n: nat): (s: string)
    ensures |s| > 0
  {
    if n < 10 then [DigitChar(n)] else Decimal(n / 10) + [DigitChar(n % 10)]
  }

  function PrintInt(v: int): string {
    if v < 0 then "-" + Decimal(-v) else Decimal(v)
  }

  function PrintInts(vs: seq<int>): string {
    if vs == [] then [] else if |vs| == 1 then PrintInt(vs[0]) else PrintInt(vs[0]) + ("," + (" " + PrintInts(vs[1..])))
  }

  function DataName(width: nat): string {
    if width == 1 then ".byte" else if width == 2 then ".half" else if width == 4 then ".word" else ".quad"
  }

  function Print(d: Datum): string {
    match d
    case Text(bytes, zero) => (if zero then ".asciz" else ".ascii") + " " + ("\"" + Escaped(bytes) + "\"")
    case Numbers(values, width) => DataName(width) + " " + PrintInts(values)
  }

  function PrintAll(ds: seq<Datum>): string {
    if ds == [] then [] else if |ds| == 1 then Print(ds[0]) else Print(ds[0]) + "\n" + PrintAll(ds[1..])
  }

  // ----- what a program stands for ------------------------------------------------------------------------

  function Meaning(f: Front, d: Datum): Front {
    match d
    case Text(bytes, zero) => var g := f.EmitBytes(bytes); if zero then g.EmitBytes("\0") else g
    case Numbers(values, width) => EmitValues(f, values, width)
  }

  function MeaningAll(f: Front, ds: seq<Datum>): Front
    decreases |ds|
  {
    if ds == [] then f else MeaningAll(Meaning(f, ds[0]), ds[1..])
  }

  function ListBytes(values: seq<int>, width: nat): string {
    if values == [] then [] else LittleEndian(values[0], width) + ListBytes(values[1..], width)
  }

  function DatumBytes(d: Datum): string {
    match d
    case Text(bytes, zero) => bytes + if zero then "\0" else []
    case Numbers(values, width) => ListBytes(values, width)
  }

  function AllBytes(ds: seq<Datum>): string {
    if ds == [] then [] else DatumBytes(ds[0]) + AllBytes(ds[1..])
  }

  /** The bytes of the emissions, in order. */
  function Emitted(events: seq<Event>): string {
    if events == [] then []
    else Emitted(events[..|events| - 1]) + match events[|events| - 1] { case Bytes(data) => data case _ => [] }
  }

  // ----- text the scanners do not cut -----------------------------------------------------------------------

  predicate Special(c: char) {
    c == '\n' || c == ';' || c == '#' || c == '/'
  }

  /** Outside literals there is no separator and no character that can open a comment. */
  predicate Plain(q: Quote, s: string)
    decreases |s|
  {
    s == [] || (!(q.Out? && Special(s[0])) && Plain(Next(q, s[0]), s[1..]))
  }

  lemma {:induction false} PlainConcat(q: Quote, a: string, b: string)
    requires Plain(q, a) && Plain(After(q, a), b)
    ensures Plain(q, a + b)
    decreases |a|
  {
    if a == [] {
      assert a + b == b;
    } else {
      assert (a + b)[1..] == a[1..] + b;
      PlainConcat(Next(q, a[0]), a[1..], b);
    }
  }

  /** No quote and nothing special anywhere. */
  predicate Unquoted(s: string) {
    forall i :: 0 <= i < |s| ==> s[i] != '"' && !Special(s[i])
  }

  lemma {:induction false} UnquotedIsPlain(s: string)
    requires Unquoted(s)
    ensures Plain(Out, s) && After(Out, s).Out?
    decreases |s|
  {
    if s != [] {
      UnquotedIsPlain(s[1..]);
    }
  }

  lemma {:induction false} EscapedStaysInside(s: string)
    ensures Plain(In, Escaped(s)) && After(In, Escaped(s)).In?
    decreases |s|
  {
    if s != [] {
      EscapedStaysInside(s[1..]);
      var e := Escaped(s);
      if s[0] == '"' || s[0] == '\\' {
        assert e[1..] == [e[1]] + Escaped(s[1..]) && e[1..][1..] == Escaped(s[1..]);
        assert After(In, e) == After(Esc, e[1..]) == After(In, e[1..][1..]);
      } else {
        assert e[1..] == Escaped(s[1..]);
      }
    }
  }

  lemma {:induction false} PlainHasNoComment(q: Quote, s: string)
    requires Plain(q, s)
    ensures CommentAt(q, s) == |s|
    decreases |s|
  {
    if s != [] {
      PlainHasNoComment(Next(q, s[0]), s[1..]);
    }
  }

  lemma {:induction false} PlainThenClean(q: Quote, a: string, b: string)
    requires Plain(q, a) && Clean(After(q, a), b)
    ensures Clean(q, a + b)
    decreases |a|
  {
    if a == [] {
      assert a + b == b;
    } else {
      assert (a + b)[1..] == a[1..] + b;
      PlainThenClean(Next(q, a[0]), a[1..], b);
    }
  }

  lemma {:induction false} PlainIsOneStatement(q: Quote, a: string, b: string, cur: string)
    requires Plain(q, a) && After(q, a).Out?
    ensures Statements(q, a + "\n" + b, cur) == [cur + a] + Statements(Out, b, [])
    ensures Statements(q, a, cur) == if cur + a == [] then [] else [cur + a]
    decreases |a|
  {
    if a == [] {
      assert a + "\n" + b == "\n" + b && ("\n" + b)[1..] == b;
      assert cur + a == cur;
    } else {
      assert (a + "\n" + b)[1..] == a[1..] + "\n" + b;
      PlainIsOneStatement(Next(q, a[0]), a[1..], b, cur + [a[0]]);
      assert cur + [a[0]] + a[1..] == cur + a;
    }
  }

  // ----- literals round-trip -----------------------------------------------------------------------------------

  lemma {:induction false} LiteralRoundTrip(s: string, text: string)
    ensures ParseLiteral(Escaped(s) + "\"", text) == Closed(text + s, [])
    decreases |s|
  {
    var e := Escaped(s) + "\"";
    if s == [] {
      assert e == "\"" && text + s == text && e[1..] == [];
    } else {
      LiteralRoundTrip(s[1..], text + [s[0]]);
      assert text + [s[0]] + s[1..] == text + s;
      if s[0] == '"' || s[0] == '\\' {
        assert e[2..] == Escaped(s[1..]) + "\"";
      } else {
        assert e[1..] == Escaped(s[1..]) + "\"";
      }
    }
  }

  lemma {:induction false} DecimalIsDigits(n: nat)
    ensures forall i :: 0 <= i < |Decimal(n)| ==> Digit(Decimal(n)[i])
    ensures n > 0 ==> Decimal(n)[0] != '0'
    ensures DigitsValue(Decimal(n), 10) == n
    decreases n
  {
    if n >= 10 {
      DecimalIsDigits(n / 10);
      var d := Decimal(n);
      assert d[..|d| - 1] == Decimal(n / 10);
    } else {
      assert DigitsValue([], 10) == 0;
      assert Decimal(n)[..0] == [];
    }
  }

  /** A text that does not go on with a digit or a letter. */
  predicate Stops(rest: string) {
    rest != [] ==> !('0' <= rest[0] <= '9') && !('a' <= rest[0] <= 'z') && !('A' <= rest[0] <= 'Z')
  }

  lemma {:induction false} CountAll(d: string, rest: string, base: nat)
    requires forall i :: 0 <= i < |d| ==> DigitValue(d[i]) < base
    requires rest == [] || DigitValue(rest[0]) >= base
    ensures DigitCount(d + rest, base) == |d|
    decreases |d|
  {
    if d == [] {
      assert d + rest == rest;
    } else {
      assert (d + rest)[1..] == d[1..] + rest;
      CountAll(d[1..], rest, base);
    }
  }

  lemma DecimalParses(n: nat, rest: string)
    requires rest != [] ==> DigitValue(rest[0]) >= 10 && (n == 0 ==> rest[0] != 'x' && rest[0] != 'X')
    ensures ParseDigits(Decimal(n) + rest) == Number(n, rest)
  {
    var d := Decimal(n);
    DecimalIsDigits(n);
    if n == 0 {
      assert d == "0";
      CountAll(d, rest, 8);
    } else {
      CountAll(d, rest, 10);
    }
    assert (d + rest)[..|d|] == d && (d + rest)[|d|..] == rest;
    assert DigitsValue("", 8) == 0 && d[..|d| - 1] == if n == 0 then "" else d[..|d| - 1];
  }

  lemma SignedParses(v: int, digits: string)
    requires Int64(v) && digits != [] && Digit(digits[0])
    requires v < 0 ==> ParseDigits(digits).Number? && ParseDigits(digits).value == -v
    requires v >= 0 ==> ParseDigits(digits).Number? && ParseDigits(digits).value == v
    ensures var s := if v < 0 then "-" + digits else digits;
      LTrim(s) == s && ParseInt(s) == Number(v, ParseDigits(digits).rest)
  {
    hide ParseDigits;
    if v < 0 {
      assert ("-" + digits)[1..] == digits;
    }
  }

  lemma IntParses(v: int, rest: string)
    requires Int64(v) && Stops(rest)
    ensures LTrim(PrintInt(v) + rest) == PrintInt(v) + rest
    ensures ParseInt(PrintInt(v) + rest) == Number(v, rest)
  {
    hide ParseDigits, Decimal, LTrim, ParseInt, DigitsValue;
    var d := Decimal(if v < 0 then -v else v);
    DecimalIsDigits(if v < 0 then -v else v);
    DecimalParses(if v < 0 then -v else v, rest);
    assert (d + rest)[0] == d[0] && Digit(d[0]);
    SignedParses(v, d + rest);
    if v < 0 {
      assert PrintInt(v) + rest == "-" + (d + rest);
    }
  }

  lemma BlankSkipped(s: string)
    ensures LTrim(" " + s) == LTrim(s)
    ensures ParseInt(" " + s) == ParseInt(s)
  {
    hide ParseDigits;
    assert (" " + s)[1..] == s;
  }

  lemma ListStep(s: string, v: int, rest: string)
    requires ParseInt(s) == Number(v, rest)
    ensures ListValues(s) == [v] + ListValues(AfterNumber(rest))
  {
    hide ParseInt, AfterNumber;
  }

  lemma AllNumbersStep(s: string, v: int, rest: string)
    requires LTrim(s) != [] && ParseInt(LTrim(s)) == Number(v, rest)
    ensures AllNumbers(s) <==> LTrim(rest) == [] || (LTrim(rest)[0] == ',' && AllNumbers(LTrim(rest)[1..]))
  {
    hide ParseInt, LTrim;
  }

  lemma SameNumbers(a: string, b: string)
    requires LTrim(a) == LTrim(b) && ParseInt(a) == ParseInt(b)
    ensures ListValues(a) == ListValues(b) && AllNumbers(a) == AllNumbers(b)
  {
    hide ParseInt, LTrim, AfterNumber;
  }

  lemma NothingToParse()
    ensures LTrim([]) == [] == AfterNumber([]) && ListValues([]) == [] && AllNumbers([])
  {
    assert ParseInt([]) == NoNumber;
  }

  lemma CommaSkipped(s: string)
    ensures LTrim("," + s) == "," + s && AfterNumber("," + s) == s
  {
    assert ("," + s)[1..] == s;
  }

  /** Printed integers take the fast path, and come back in order. */
  lemma {:induction false} IntsParse(vs: seq<int>)
    requires forall i :: 0 <= i < |vs| ==> Int64(vs[i])
    ensures ListValues(PrintInts(vs)) == vs
    ensures AllNumbers(PrintInts(vs))
    decreases |vs|
  {
    hide PrintInt, ListValues, AllNumbers, AfterNumber, ParseInt, LTrim;
    NothingToParse();
    if |vs| == 1 {
      var s := PrintInt(vs[0]);
      assert s + [] == s;
      IntParses(vs[0], []);
      PrintIntNonempty(vs[0]);
      ListStep(s, vs[0], []);
      AllNumbersStep(s, vs[0], []);
    } else if |vs| > 1 {
      IntsParse(vs[1..]);
      IntsParseMore(vs);
    }
  }

  lemma PrintIntNonempty(v: int)
    ensures PrintInt(v) != []
  {
  }

  lemma IntsParseMore(vs: seq<int>)
    requires |vs| > 1 && Int64(vs[0])
    requires ListValues(PrintInts(vs[1..])) == vs[1..] && AllNumbers(PrintInts(vs[1..]))
    ensures ListValues(PrintInts(vs)) == vs && AllNumbers(PrintInts(vs))
  {
    hide PrintInt, ListValues, AllNumbers, AfterNumber, ParseInt, LTrim;
    var tail := " " + PrintInts(vs[1..]);
    var s := PrintInts(vs);
    assert s == PrintInt(vs[0]) + ("," + tail);
    PrintIntNonempty(vs[0]);
    IntParses(vs[0], "," + tail);
    CommaSkipped(tail);
    assert ("," + tail)[1..] == tail;
    ListStep(s, vs[0], "," + tail);
    AllNumbersStep(s, vs[0], "," + tail);
    BlankSkipped(PrintInts(vs[1..]));
    SameNumbers(tail, PrintInts(vs[1..]));
  }

  // ----- one statement -------------------------------------------------------------------------------------------

  /** The shape of a printed statement: a directive name, a blank, and its operands. */
  lemma {:induction false} WordIsName(name: string, args: string)
    requires forall i :: 0 <= i < |name| ==> LabelChar(name[i])
    ensures WordLength(name + " " + args) == |name| == LabelLength(name + " " + args)
    ensures WordLength(name) == |name| == LabelLength(name)
    decreases |name|
  {
    if name == [] {
      assert (name + " " + args)[0] == ' ';
    } else {
      assert (name + " " + args)[1..] == name[1..] + " " + args;
      WordIsName(name[1..], args);
    }
  }

  /** A statement whose operands begin and end with something other than a blank. */
  lemma StatementIsDirective(f: Front, name: string, args: string)
    requires |name| > 1 && name[0] == '.' && forall i :: 0 <= i < |name| ==> LabelChar(name[i])
    requires args != [] ==> !Space(args[0]) && !Space(args[|args| - 1])
    requires Plain(Out, name + " " + args)
    ensures Statement(f, name + " " + args) == Directive(f, if args == [] then name else name + " " + args)
    ensures args != [] ==> (name + " " + args)[|name| + 1..] == args && LTrim(args) == args && RTrim(args) == args
  {
    hide Directive, Plain;
    var s := name + " " + args;
    PlainHasNoComment(Out, s);
    WordIsName(name, args);
    assert s[..|s|] == s && LTrim(s) == s;
    if args == [] {
      assert s[..|s| - 1] == name;
      assert RTrim(s) == RTrim(name) == name;
    } else {
      assert s[|s| - 1] == args[|args| - 1];
    }
  }

  lemma TextIsPlain(bytes: string, zero: bool)
    ensures Plain(Out, Print(Text(bytes, zero))) && After(Out, Print(Text(bytes, zero))).Out?
  {
    var name := (if zero then ".asciz" else ".ascii") + " ";
    var e := Escaped(bytes);
    UnquotedIsPlain(name);
    EscapedStaysInside(bytes);
    var body := "\"" + e + "\"";
    assert body[1..] == e + "\"";
    AfterConcat(In, e, "\"");
    PlainConcat(In, e, "\"");
    assert After(In, "\"") == Out by {
      assert "\""[1..] == [];
    }
    AfterConcat(Out, name, body);
    PlainConcat(Out, name, body);
    assert Print(Text(bytes, zero)) == name + body;
  }

  lemma NotData()
    ensures DataWidth(".ascii") == 0 == DataWidth(".asciz")
  {
  }

  lemma AsciiDirective(f: Front, line: string, args: string)
    requires WordLength(line) == 6 && line[..6] == ".ascii" && |line| > 6
    requires LTrim(line[7..]) == args == RTrim(args)
    ensures Directive(f, line) == Ascii(f, ".ascii", args, false, false)
  {
    hide WordLength, LTrim, RTrim, Ascii, Skip, SetOrigin, AlignTo, Equate, Operandless, DataList, DataWidth;
    NotData();
  }

  lemma AscizDirective(f: Front, line: string, args: string)
    requires WordLength(line) == 6 && line[..6] == ".asciz" && |line| > 6
    requires LTrim(line[7..]) == args == RTrim(args)
    ensures Directive(f, line) == Ascii(f, ".asciz", args, true, false)
  {
    hide WordLength, LTrim, RTrim, Ascii, Skip, SetOrigin, AlignTo, Equate, Operandless, DataList, DataWidth;
    NotData();
  }

  lemma TextStatement(f: Front, bytes: string, zero: bool)
    ensures Statement(f, Print(Text(bytes, zero))) == Meaning(f, Text(bytes, zero))
  {
    hide Plain, ParseLiteral, Statement, Directive, WordLength, LabelLength, LTrim, RTrim, Ascii, Escaped;
    var name := if zero then ".asciz" else ".ascii";
    var args := "\"" + Escaped(bytes) + "\"";
    TextIsPlain(bytes, zero);
    StatementIsDirective(f, name, args);
    WordIsName(name, args);
    var line := name + " " + args;
    assert line[..6] == name;
    if zero {
      AscizDirective(f, line, args);
    } else {
      AsciiDirective(f, line, args);
    }
    assert args[1..] == Escaped(bytes) + "\"";
    LiteralRoundTrip(bytes, []);
    assert [] + bytes == bytes;
    AsciiOnce(f, name, args, zero, bytes);
  }

  lemma AsciiOnce(f: Front, d: string, args: string, zero: bool, bytes: string)
    requires args != [] && args[0] == '"' && ParseLiteral(args[1..], []) == Closed(bytes, [])
    ensures Ascii(f, d, args, zero, false) == var g := f.EmitBytes(bytes); if zero then g.EmitBytes("\0") else g
  {
    hide ParseLiteral;
    assert LTrim(args) == args;
    assert AfterNumber([]) == [];
  }

  /** Not empty, without a quote or a special character, and with no blank at either end. */
  predicate Compact(s: string) {
    s != [] && Unquoted(s) && !Space(s[0]) && !Space(s[|s| - 1])
  }

  lemma CompactJoin(a: string, b: string)
    requires Compact(a) && Compact(b)
    ensures Compact(a + ("," + (" " + b)))
  {
    var s := a + ("," + (" " + b));
    assert s[|s| - 1] == b[|b| - 1];
  }

  lemma {:induction false} IntsAreUnquoted(vs: seq<int>)
    ensures if vs == [] then PrintInts(vs) == [] else Compact(PrintInts(vs))
    decreases |vs|
  {
    if vs != [] {
      hide PrintInt, Compact;
      IntIsUnquoted(vs[0]);
      if |vs| > 1 {
        IntsAreUnquoted(vs[1..]);
        CompactJoin(PrintInt(vs[0]), PrintInts(vs[1..]));
      }
    }
  }

  lemma IntIsUnquoted(v: int)
    ensures Compact(PrintInt(v))
  {
    DecimalIsDigits(if v < 0 then -v else v);
    forall i | 0 <= i < |PrintInt(v)|
      ensures PrintInt(v)[i] == '-' || Digit(PrintInt(v)[i])
    {
    }
  }

  lemma NumbersArePlain(values: seq<int>, width: nat)
    ensures Plain(Out, Print(Numbers(values, width))) && After(Out, Print(Numbers(values, width))).Out?
  {
    hide PrintInts, Plain, After;
    IntsAreUnquoted(values);
    NameUnquoted(width);
    UnquotedIsPlain(DataName(width) + " " + PrintInts(values));
  }

  lemma NameUnquoted(width: nat)
    ensures Unquoted(DataName(width) + " ")
  {
  }

  lemma DataNameIs(width: nat)
    requires width == 1 || width == 2 || width == 4 || width == 8
    ensures DataWidth(DataName(width)) == width && |DataName(width)| == 5
    ensures DataName(width)[0] == '.' && forall i :: 0 <= i < 5 ==> LabelChar(DataName(width)[i])
  {
  }

  lemma DataDirective(f: Front, line: string, name: string, args: string)
    requires WordLength(line) == |name| && line[..|name|] == name && DataWidth(name) > 0
    requires var rest := if |line| > |name| then line[|name| + 1..] else []; RTrim(LTrim(rest)) == args
    ensures Directive(f, line) == DataList(f, args, DataWidth(name))
  {
    hide WordLength, LTrim, RTrim, Ascii, Skip, SetOrigin, AlignTo, Equate, Operandless, DataList, DataWidth;
  }

  lemma NumbersStatement(f: Front, values: seq<int>, width: nat)
    requires Printable(Numbers(values, width))
    ensures Statement(f, Print(Numbers(values, width))) == Meaning(f, Numbers(values, width))
  {
    hide Plain, Unquoted, ListValues, AllNumbers, PrintInts, Directive, DataWidth, DataName, Statement;
    hide LTrim, RTrim, WordLength, LabelLength;
    var name, args := DataName(width), PrintInts(values);
    NumbersArePlain(values, width);
    IntsAreUnquoted(values);
    NoInts();
    DataNameIs(width);
    StatementIsDirective(f, name, args);
    WordIsName(name, args);
    NothingTrimmed();
    IntsParse(values);
    var line := name + " " + args;
    assert line[..5] == name && name[..5] == name;
    DataDirective(f, if args == [] then name else line, name, args);
  }

  lemma NothingTrimmed()
    ensures LTrim([]) == [] == RTrim([])
  {
  }

  lemma NoInts()
    ensures PrintInts([]) == []
  {
  }

  // ----- the whole program -------------------------------------------------------------------------------------

  lemma PrintedIsPlain(d: Datum)
    ensures Plain(Out, Print(d)) && After(Out, Print(d)).Out? && Print(d) != []
  {
    match d
    case Text(bytes, zero) => TextIsPlain(bytes, zero);
    case Numbers(values, width) => NumbersArePlain(values, width);
  }

  lemma PrintMore(ds: seq<Datum>)
    requires ds != []
    ensures |ds| == 1 ==> PrintAll(ds) == Print(ds[0])
    ensures |ds| > 1 ==> PrintAll(ds) == Print(ds[0]) + ("\n" + PrintAll(ds[1..]))
    ensures |ds| > 1 ==> PrintAll(ds) == Print(ds[0]) + "\n" + PrintAll(ds[1..])
  {
    hide Print;
  }

  lemma CleanLine(s: string)
    ensures Clean(Out, "\n" + s) == Clean(Out, s) && Clean(Out, [])
  {
    assert ("\n" + s)[1..] == s;
  }

  lemma {:induction false} ProgramIsClean(ds: seq<Datum>)
    ensures Clean(Out, PrintAll(ds))
    decreases |ds|
  {
    hide Plain, Print, Clean;
    CleanLine([]);
    if ds != [] {
      hide PrintAll;
      PrintedIsPlain(ds[0]);
      PrintMore(ds);
      if |ds| == 1 {
        PlainThenClean(Out, Print(ds[0]), []);
        assert Print(ds[0]) + [] == Print(ds[0]);
      } else {
        ProgramIsClean(ds[1..]);
        CleanLine(PrintAll(ds[1..]));
        PlainThenClean(Out, Print(ds[0]), "\n" + PrintAll(ds[1..]));
      }
    }
  }

  function Lines(ds: seq<Datum>): seq<string> {
    if ds == [] then [] else [Print(ds[0])] + Lines(ds[1..])
  }

  lemma {:induction false} ProgramSplits(ds: seq<Datum>)
    ensures Statements(Out, PrintAll(ds), []) == Lines(ds)
    decreases |ds|
  {
    if ds != [] {
      hide Plain, Print, Statements, PrintAll;
      var line := Print(ds[0]);
      PrintedIsPlain(ds[0]);
      PrintMore(ds);
      assert [] + line == line;
      if |ds| == 1 {
        PlainIsOneStatement(Out, line, [], []);
        assert Lines(ds) == [line];
      } else {
        ProgramSplits(ds[1..]);
        PlainIsOneStatement(Out, line, PrintAll(ds[1..]), []);
      }
    }
  }

  lemma {:induction false} ProgramRuns(f: Front, ds: seq<Datum>)
    requires forall i :: 0 <= i < |ds| ==> Printable(ds[i])
    ensures AllStatements(f, Lines(ds)) == MeaningAll(f, ds)
    decreases |ds|
  {
    if ds != [] {
      hide Statement, Print, Meaning;
      match ds[0] {
        case Text(bytes, zero) => TextStatement(f, bytes, zero);
        case Numbers(values, width) => NumbersStatement(f, values, width);
      }
      ProgramRuns(Meaning(f, ds[0]), ds[1..]);
      assert ([Print(ds[0])] + Lines(ds[1..]))[1..] == Lines(ds[1..]);
    }
  }

  lemma EmittedMore(f: Front, data: string)
    ensures Emitted(f.EmitBytes(data).events) == Emitted(f.events) + data
  {
    if data != [] {
      var e := f.events + [Bytes(data)];
      assert e[..|e| - 1] == f.events;
    }
  }

  lemma {:induction false} EmittedList(f: Front, values: seq<int>, width: nat)
    ensures Emitted(EmitValues(f, values, width).events) == Emitted(f.events) + ListBytes(values, width)
    ensures EmitValues(f, values, width).violation == f.violation && EmitValues(f, values, width).error == f.error
    decreases |values|
  {
    if values != [] {
      hide LittleEndian, Emitted;
      EmittedMore(f, LittleEndian(values[0], width));
      EmittedList(f.EmitBytes(LittleEndian(values[0], width)), values[1..], width);
    }
  }

  lemma DatumIsBytes(f: Front, d: Datum)
    ensures Emitted(Meaning(f, d).events) == Emitted(f.events) + DatumBytes(d)
    ensures Meaning(f, d).violation == f.violation && Meaning(f, d).error == f.error
  {
    hide Emitted, EmitValues, ListBytes;
    match d
    case Text(bytes, zero) =>
      EmittedMore(f, bytes);
      EmittedMore(f.EmitBytes(bytes), "\0");
      if zero {
        assert Emitted(f.events) + bytes + "\0" == Emitted(f.events) + (bytes + "\0");
      } else {
        assert bytes + [] == bytes;
      }
    case Numbers(values, width) => EmittedList(f, values, width);
  }

  lemma {:induction false} MeaningIsBytes(f: Front, ds: seq<Datum>)
    ensures Emitted(MeaningAll(f, ds).events) == Emitted(f.events) + AllBytes(ds)
    ensures MeaningAll(f, ds).violation == f.violation && MeaningAll(f, ds).error == f.error
    decreases |ds|
  {
    hide Emitted, Meaning, DatumBytes;
    if ds == [] {
      assert Emitted(f.events) + [] == Emitted(f.events);
    } else {
      DatumIsBytes(f, ds[0]);
      MeaningIsBytes(Meaning(f, ds[0]), ds[1..]);
      assert Emitted(f.events) + DatumBytes(ds[0]) + AllBytes(ds[1..]) == Emitted(f.events) + AllBytes(ds);
    }
  }

  /** The whole front end on a printed program does what the program means. */
  lemma PrintedIsMeaning(ds: seq<Datum>)
    requires forall i :: 0 <= i < |ds| ==> Printable(ds[i])
    ensures Source(PrintAll(ds)) == MeaningAll(START, ds)
  {
    hide Statements, AllStatements, MeaningAll, Print, Clean;
    ProgramIsClean(ds);
    CleanIsKept(Out, PrintAll(ds));
    ProgramSplits(ds);
    ProgramRuns(START, ds);
  }

  /** The round trip: assembling a printed program raises no error and emits the program's bytes. */
  lemma PrintedProgramAssembles(ds: seq<Datum>)
    requires forall i :: 0 <= i < |ds| ==> Printable(ds[i])
    ensures var f := Source(PrintAll(ds));
      Emitted(f.events) == AllBytes(ds) && !f.violation && f.error.NoError?
  {
    hide Source, MeaningAll, PrintAll, AllBytes;
    PrintedIsMeaning(ds);
    MeaningIsBytes(START, ds);
  }
}
