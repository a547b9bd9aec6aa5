/** Numbers, strings and block comments as they may be written: every base and sign of an integer
    literal, every escape of a string literal, and a comment anywhere outside the literals.
 */
module LiteralLaws {
  import opened Scanner
  import opened Directives
  import opened PrintParse

  // ----- integer literals ---------------------------------------------------------------------------------

  /** How a number is written: in decimal, in hexadecimal with small or capital letters, in octal. */
  datatype Radix = Decimally | Hexadecimally(capitals: bool) | Octally

  function DigitIn(k: nat, capitals: bool): char
    requires k < 16
  {
    if k < 10 then ('0' as int + k) as char
    else if capitals then ('A' as int + k - 10) as char
    else ('a' as int + k - 10) as char
  }

  /** The digits of a number in a base up to 16. */
  function InBase(n: nat, base: nat, capitals: bool): (s: string)
    requires 2 <= base <= 16
    ensures |s| > 0
  {
    if n < base then [DigitIn(n, capitals)] else InBase(n / base, base, capitals) + [DigitIn(n % base, capitals)]
  }

  function InRadix(n: nat, r: Radix): string {
    match r
    case Decimally => Decimal(n)
    case Hexadecimally(capitals) => (if capitals then "0X" else "0x") + InBase(n, 16, capitals)
    case Octally => "0" + InBase(n, 8, false)
  }

  lemma DigitIsValue(k: nat, capitals: bool)
    requires k < 16
    ensures DigitValue(DigitIn(k, capitals)) == k
  {
  }

  lemma NoDigits(base: nat)
    ensures DigitsValue([], base) == 0
  {
  }

  lemma OneMoreDigit(s: string, c: char, base: nat)
    ensures DigitsValue(s + [c], base) == DigitsValue(s, base) * base + DigitValue(c)
  {
    hide DigitValue;
    assert (s + [c])[..|s + [c]| - 1] == s;
  }

  lemma Quotient(n: nat, base: nat)
    requires base > 0
    ensures n / base * base + n % base == n
  {
  }

  lemma {:induction false} InBaseIsValue(n: nat, base: nat, capitals: bool)
    requires 2 <= base <= 16
    ensures DigitsValue(InBase(n, base, capitals), base) == n
    ensures forall i :: 0 <= i < |InBase(n, base, capitals)| ==> DigitValue(InBase(n, base, capitals)[i]) < base
    decreases n
  {
    hide DigitValue, DigitIn, DigitsValue;
    NoDigits(base);
    if n < base {
      DigitIsValue(n, capitals);
      OneMoreDigit([], DigitIn(n, capitals), base);
      assert [] + [DigitIn(n, capitals)] == [DigitIn(n, capitals)];
    } else {
      InBaseIsValue(n / base, base, capitals);
      DigitIsValue(n % base, capitals);
      OneMoreDigit(InBase(n / base, base, capitals), DigitIn(n % base, capitals), base);
      Quotient(n, base);
    }
  }

  lemma {:induction false} LeadingZero(s: string, base: nat)
    ensures DigitsValue("0" + s, base) == DigitsValue(s, base)
    decreases |s|
  {
    if s == [] {
      assert "0" + s == "0" && "0"[..0] == [];
      assert DigitsValue([], base) == 0;
    } else {
      assert ("0" + s)[..|"0" + s| - 1] == "0" + s[..|s| - 1];
      LeadingZero(s[..|s| - 1], base);
    }
  }

  /** What is behind a number does not go on with it. */
  predicate Ends(n: nat, r: Radix, rest: string) {
    rest != [] ==>
      var c := rest[0];
      match r
      case Decimally => !('0' <= c <= '9') && (n == 0 ==> c != 'x' && c != 'X')
      case Hexadecimally(_) => !('0' <= c <= '9') && !('a' <= c <= 'f') && !('A' <= c <= 'F')
      case Octally => !('0' <= c <= '7')
  }

  lemma EndsIs(n: nat, r: Radix, rest: string)
    requires Ends(n, r, rest)
    ensures rest == [] || DigitValue(rest[0]) >= if r.Decimally? then 10 else if r.Octally? then 8 else 16
  {
  }

  lemma HexadecimalIsRead(n: nat, capitals: bool, rest: string)
    requires Ends(n, Hexadecimally(capitals), rest)
    ensures ParseDigits(InRadix(n, Hexadecimally(capitals)) + rest) == Number(n, rest)
  {
    hide DigitCount, DigitsValue, InBase, DigitValue, Ends;
    var d := InBase(n, 16, capitals);
    EndsIs(n, Hexadecimally(capitals), rest);
    var s := InRadix(n, Hexadecimally(capitals)) + rest;
    InBaseIsValue(n, 16, capitals);
    CountAll(d, rest, 16);
    assert s[2..] == d + rest && s[2] == d[0];
    assert (d + rest)[..|d|] == d && (d + rest)[|d|..] == rest;
  }

  lemma OctalIsRead(n: nat, rest: string)
    requires Ends(n, Octally, rest)
    ensures ParseDigits(InRadix(n, Octally) + rest) == Number(n, rest)
  {
    hide DigitCount, DigitsValue, InBase, Ends;
    var d := InBase(n, 8, false);
    EndsIs(n, Octally, rest);
    InBaseIsValue(n, 8, false);
    LeadingZero(d, 8);
    var z := "0" + d;
    forall i | 0 <= i < |z|
      ensures DigitValue(z[i]) < 8
    {
      assert i > 0 ==> z[i] == d[i - 1];
    }
    CountAll(z, rest, 8);
    assert InRadix(n, Octally) + rest == z + rest;
    assert z[1] == d[0];
    assert (z + rest)[..|z|] == z && (z + rest)[|z|..] == rest;
  }

  lemma RadixIsRead(n: nat, r: Radix, rest: string)
    requires Ends(n, r, rest)
    ensures ParseDigits(InRadix(n, r) + rest) == Number(n, rest)
    ensures InRadix(n, r) != [] && Digit(InRadix(n, r)[0])
  {
    hide ParseDigits, InBase, Decimal;
    match r
    case Decimally =>
      EndsIs(n, Decimally, rest);
      DecimalParses(n, rest);
      DecimalIsDigits(n);
    case Hexadecimally(capitals) => HexadecimalIsRead(n, capitals, rest);
    case Octally => OctalIsRead(n, rest);
  }

  /** A 64-bit integer, the nearest one if the number has more bits. */
  function Nearest(v: int): int {
    if v < -0x8000_0000_0000_0000 then -0x8000_0000_0000_0000
    else if v > 0x7fff_ffff_ffff_ffff then 0x7fff_ffff_ffff_ffff
    else v
  }

  function Signed(sign: string, n: int): int {
    if sign == "-" then -n else n
  }

  lemma SignIsRead(sign: string, digits: string, n: nat, rest: string)
    requires sign == "" || sign == "+" || sign == "-"
    requires digits != [] && Digit(digits[0]) && ParseDigits(digits) == Number(n, rest)
    ensures ParseInt(sign + digits) == Number(Nearest(Signed(sign, n)), rest)
  {
    hide ParseDigits;
    assert sign == "" ==> sign + digits == digits;
    assert sign != "" ==> (sign + digits)[1..] == digits;
  }

  /** An integer literal of any base and sign is read as its value, or as the nearest 64-bit integer. */
  lemma NumberIsRead(sign: string, n: nat, r: Radix, rest: string)
    requires (sign == "" || sign == "+" || sign == "-") && Ends(n, r, rest)
    ensures ParseInt(sign + (InRadix(n, r) + rest)) == Number(Nearest(Signed(sign, n)), rest)
  {
    hide ParseDigits, ParseInt, InRadix, Ends;
    RadixIsRead(n, r, rest);
    SignIsRead(sign, InRadix(n, r) + rest, n, rest);
  }

  /** `0x` without a hexadecimal digit is the number 0 with a letter behind it. */
  lemma PrefixAlone(x: char, rest: string)
    requires (x == 'x' || x == 'X') && Ends(0, Hexadecimally(false), rest)
    ensures ParseInt("0" + ([x] + rest)) == Number(0, [x] + rest)
  {
    var s := "0" + ([x] + rest);
    EndsIs(0, Hexadecimally(false), rest);
    assert s[1..] == [x] + rest && s[1] == x && (|s| > 2 ==> s[2] == rest[0]);
    assert DigitValue(x) >= 8 && DigitCount([x] + rest, 8) == 0;
    assert s[..1] == "0" && DigitsValue("0", 8) == 0 by {
      assert "0"[..0] == [];
    }
  }

  // ----- lists of integers --------------------------------------------------------------------------------

  /** An integer as it may be written, with blanks around it. */
  datatype Written = Written(before: string, sign: string, n: nat, radix: Radix, behind: string)

  /** Blank, tab, line feed, vertical tab, form feed or carriage return. */
  predicate BlankChar(c: char) {
    c == ' ' || 9 <= c as int <= 13
  }

  predicate Blank(s: string) {
    forall i :: 0 <= i < |s| ==> BlankChar(s[i])
  }

  predicate WrittenOk(w: Written) {
    Blank(w.before) && Blank(w.behind) && (w.sign == "" || w.sign == "+" || w.sign == "-")
  }

  predicate AllWritten(ws: seq<Written>) {
    forall i :: 0 <= i < |ws| ==> WrittenOk(ws[i])
  }

  function ValueOf(w: Written): int {
    Nearest(Signed(w.sign, w.n))
  }

  function ValuesOf(ws: seq<Written>): (vs: seq<int>)
    ensures |vs| == |ws|
  {
    if ws == [] then [] else [ValueOf(ws[0])] + ValuesOf(ws[1..])
  }

  function NumberText(w: Written): string {
    w.sign + InRadix(w.n, w.radix)
  }

  /** The integers, with commas between them. */
  function WrittenList(ws: seq<Written>): string {
    if ws == [] then []
    else ws[0].before + (NumberText(ws[0]) + (ws[0].behind + if |ws| == 1 then [] else "," + WrittenList(ws[1..])))
  }

  lemma {:induction false} BlanksGo(b: string, s: string)
    requires Blank(b)
    ensures LTrim(b + s) == LTrim(s)
    decreases |b|
  {
    if b == [] {
      assert b + s == s;
    } else {
      assert (b + s)[1..] == b[1..] + s;
      BlanksGo(b[1..], s);
    }
  }

  lemma BlankEnds(n: nat, r: Radix, b: string, s: string)
    requires Blank(b) && (s == [] || s[0] == ',')
    ensures Ends(n, r, b + s)
  {
  }

  lemma NumberStarts(w: Written, rest: string)
    requires WrittenOk(w)
    ensures NumberText(w) != [] && LTrim(NumberText(w) + rest) == NumberText(w) + rest
  {
    hide InBase, Decimal, Blank;
    DecimalIsDigits(w.n);
    var s := InRadix(w.n, w.radix);
    assert s != [] && Digit(s[0]);
    assert (NumberText(w) + rest)[0] == if w.sign == "" then s[0] else w.sign[0];
  }

  /** One integer of a list, with its blanks, and what is behind it. */
  lemma OneIsRead(w: Written, rest: string)
    requires WrittenOk(w) && (rest == [] || rest[0] == ',')
    ensures
      var s := w.before + (NumberText(w) + (w.behind + rest));
      && LTrim(s) == NumberText(w) + (w.behind + rest) != []
      && ParseInt(LTrim(s)) == ParseInt(s) == Number(ValueOf(w), w.behind + rest)
      && LTrim(w.behind + rest) == rest
      && AfterNumber(w.behind + rest) == if rest == [] then [] else rest[1..]
  {
    hide ParseInt, LTrim, InRadix, Ends, Blank, Nearest, Signed;
    var t := w.behind + rest;
    BlankEnds(w.n, w.radix, w.behind, rest);
    NumberIsRead(w.sign, w.n, w.radix, t);
    assert NumberText(w) + t == w.sign + (InRadix(w.n, w.radix) + t);
    NumberStarts(w, t);
    BlanksGo(w.before, NumberText(w) + t);
    SameNumber(w.before + (NumberText(w) + t), NumberText(w) + t);
    BlanksGo(w.behind, rest);
    CommaStays(rest);
  }

  lemma CommaStays(rest: string)
    requires rest == [] || rest[0] == ','
    ensures LTrim(rest) == rest
  {
  }

  lemma SameNumber(a: string, b: string)
    requires LTrim(a) == LTrim(b)
    ensures ParseInt(a) == ParseInt(b)
  {
    hide LTrim, ParseDigits;
  }

  /** A list of integers is read in order, however they are written; one too many is an error. */
  lemma {:induction false} ListIsRead(ws: seq<Written>, max: nat)
    requires AllWritten(ws)
    ensures ListValues(WrittenList(ws)) == ValuesOf(ws) && AllNumbers(WrittenList(ws))
    ensures ParseOperands(WrittenList(ws), max) == if |ws| <= max then Operands(ValuesOf(ws)) else BadOperands
    decreases |ws|
  {
    hide ParseInt, LTrim, InRadix, AfterNumber, ListValues, AllNumbers, ParseOperands, WrittenOk, NumberText, ValueOf;
    NothingToParse();
    NoOperandsAtAll(max);
    if ws != [] {
      var rest := if |ws| == 1 then [] else "," + WrittenList(ws[1..]);
      var s := WrittenList(ws);
      OneIsRead(ws[0], rest);
      ListIsRead(ws[1..], if max > 0 then max - 1 else 0);
      assert rest != [] ==> rest[1..] == WrittenList(ws[1..]);
      assert |ws| == 1 ==> ws[1..] == [];
      NumberStep(s, ValueOf(ws[0]), ws[0].behind + rest, max);
    }
  }

  lemma NoOperandsAtAll(max: nat)
    ensures ParseOperands([], max) == Operands([])
  {
  }

  lemma NumberStep(s: string, v: int, rest: string, max: nat)
    requires LTrim(s) != [] && ParseInt(LTrim(s)) == ParseInt(s) == Number(v, rest)
    ensures ListValues(s) == [v] + ListValues(AfterNumber(rest))
    ensures AllNumbers(s) <==> LTrim(rest) == [] || (LTrim(rest)[0] == ',' && AllNumbers(LTrim(rest)[1..]))
    ensures
      var u := LTrim(rest);
      ParseOperands(s, max) ==
      if max == 0 then BadOperands
      else if u == [] then Operands([v])
      else if u[0] != ',' then BadOperands
      else
        match ParseOperands(u[1..], max - 1)
        case BadOperands => BadOperands
        case Operands(vs) => Operands([v] + vs)
  {
    hide ParseInt, LTrim, AfterNumber;
  }

  /** The cast to `int` keeps the low 32 bits and is a 32-bit integer. */
  lemma CastIsCongruent(n: int)
    ensures -0x8000_0000 <= Int32(n) < 0x8000_0000
    ensures (n - Int32(n)) % 0x1_0000_0000 == 0
  {
  }

  // ----- string literals ----------------------------------------------------------------------------------

  /** A character with its escape, if there is one for it. */
  function WithEscape(c: char): string {
    match c
    case '\n' => "\\n"
    case '\t' => "\\t"
    case '\r' => "\\r"
    case '\0' => "\\0"
    case '"' => "\\\""
    case '\\' => "\\\\"
    case _ => [c]
  }

  function FullyEscaped(s: string): string {
    if s == [] then [] else WithEscape(s[0]) + FullyEscaped(s[1..])
  }

  lemma EscapeIsRead(c: char, rest: string, text: string)
    ensures ParseLiteral(WithEscape(c) + rest, text) == ParseLiteral(rest, text + [c])
  {
    var e := WithEscape(c);
    if |e| == 2 {
      assert (e + rest)[2..] == rest;
    } else {
      assert (e + rest)[1..] == rest;
    }
  }

  /** Every escape stands for its character. */
  lemma {:induction false} EscapesAreRead(s: string, text: string, rest: string)
    ensures ParseLiteral(FullyEscaped(s) + ("\"" + rest), text) == Closed(text + s, rest)
    decreases |s|
  {
    hide WithEscape;
    if s == [] {
      assert FullyEscaped(s) + ("\"" + rest) == "\"" + rest && text + s == text && ("\"" + rest)[1..] == rest;
    } else {
      hide ParseLiteral;
      assert FullyEscaped(s) + ("\"" + rest) == WithEscape(s[0]) + (FullyEscaped(s[1..]) + ("\"" + rest));
      EscapeIsRead(s[0], FullyEscaped(s[1..]) + ("\"" + rest), text);
      EscapesAreRead(s[1..], text + [s[0]], rest);
      assert text + [s[0]] + s[1..] == text + s;
    }
  }

  /** A backslash before any other character stands for that character. */
  lemma OtherEscapesAreDropped(c: char, rest: string, text: string)
    requires c != 'n' && c != 't' && c != 'r' && c != '0'
    ensures ParseLiteral("\\" + ([c] + rest), text) == ParseLiteral(rest, text + [c])
  {
    assert ("\\" + ([c] + rest))[2..] == rest;
  }

  // ----- statements ---------------------------------------------------------------------------------------

  /** No line end and no semicolon outside the literals. */
  predicate Unbroken(q: Quote, s: string) {
    forall k :: 0 <= k < |s| && After(q, s[..k]).Out? ==> s[k] != '\n' && s[k] != ';'
  }

  lemma UnbrokenTail(q: Quote, s: string)
    requires s != [] && Unbroken(q, s)
    ensures (q.Out? ==> s[0] != '\n' && s[0] != ';') && Unbroken(Next(q, s[0]), s[1..])
  {
    assert s[..0] == [];
    forall k | 0 <= k < |s[1..]| && After(Next(q, s[0]), s[1..][..k]).Out?
      ensures s[1..][k] != '\n' && s[1..][k] != ';'
    {
      assert s[..k + 1][1..] == s[1..][..k] && s[..k + 1][0] == s[0];
      assert After(q, s[..k + 1]).Out?;
    }
  }

  lemma {:induction false} BrokenOff(q: Quote, s: string, c: char, rest: string, cur: string)
    requires Unbroken(q, s) && After(q, s).Out? && (c == '\n' || c == ';')
    ensures Statements(q, s + ([c] + rest), cur) == [cur + s] + Statements(Out, rest, [])
    ensures Statements(q, s, cur) == if cur + s == [] then [] else [cur + s]
    decreases |s|
  {
    if s == [] {
      assert s + ([c] + rest) == [c] + rest && ([c] + rest)[1..] == rest && cur + s == cur;
    } else {
      hide Unbroken;
      UnbrokenTail(q, s);
      assert (s + ([c] + rest))[1..] == s[1..] + ([c] + rest);
      BrokenOff(Next(q, s[0]), s[1..], c, rest, cur + [s[0]]);
      assert cur + [s[0]] + s[1..] == cur + s;
    }
  }

  /** A statement ends at the first line end or semicolon outside the literals; what follows is read on
      its own. */
  lemma StatementsEnd(s: string, c: char, rest: string)
    requires Unbroken(Out, s) && After(Out, s).Out? && (c == '\n' || c == ';')
    ensures Statements(Out, s + ([c] + rest), []) == [s] + Statements(Out, rest, [])
    ensures Statements(Out, s, []) == if s == [] then [] else [s]
  {
    hide Statements, Unbroken, After;
    BrokenOff(Out, s, c, rest, []);
    assert [] + s == s;
  }

  // ----- block comments -----------------------------------------------------------------------------------

  predicate Closes(s: string, k: int) {
    0 <= k < |s| - 1 && s[k] == '*' && s[k + 1] == '/'
  }

  lemma {:induction false} CommentEnds(c: string, b: string)
    requires forall k :: 0 <= k < |c| ==> !Closes(c + "*/", k)
    ensures AfterComment(c + ("*/" + b)) == b
    decreases |c|
  {
    var s := c + ("*/" + b);
    if c == [] {
      assert s == "*/" + b && s[2..] == b;
    } else {
      assert s[1..] == c[1..] + ("*/" + b);
      forall k | 0 <= k < |c[1..]|
        ensures !Closes(c[1..] + "*/", k)
      {
        assert !Closes(c + "*/", k + 1);
        assert (c[1..] + "*/")[k] == (c + "*/")[k + 1] && (c[1..] + "*/")[k + 1] == (c + "*/")[k + 2];
      }
      assert !Closes(c + "*/", 0);
      assert s[0] == (c + "*/")[0] && s[1] == (c + "*/")[1];
      CommentEnds(c[1..], b);
    }
  }

  lemma {:induction false} CommentRunsOn(c: string)
    requires forall k :: 0 <= k < |c| ==> !Closes(c, k)
    ensures AfterComment(c) == []
    decreases |c|
  {
    if |c| >= 2 {
      assert !Closes(c, 0);
      forall k | 0 <= k < |c[1..]|
        ensures !Closes(c[1..], k)
      {
        assert !Closes(c, k + 1);
      }
      CommentRunsOn(c[1..]);
    }
  }

  lemma NoOpening(a: string, t: string)
    requires a != [] && (a[|a| - 1] != '/' || t == [] || t[0] != '*')
    ensures OpensComment(a + t) ==> OpensComment(a)
  {
  }

  /** No `/` and `*` next to each other outside the literals. */
  predicate Uncommented(q: Quote, s: string) {
    forall k :: 0 <= k < |s| - 1 && After(q, s[..k]).Out? ==> !(s[k] == '/' && s[k + 1] == '*')
  }

  lemma UncommentedStep(q: Quote, s: string)
    requires s != []
    ensures Uncommented(q, s) <==>
              !(q.Out? && |s| > 1 && s[0] == '/' && s[1] == '*') && Uncommented(Next(q, s[0]), s[1..])
  {
    hide Next;
    var t := s[1..];
    assert s[..0] == [];
    forall k | 0 < k <= |s|
      ensures After(q, s[..k]) == After(Next(q, s[0]), t[..k - 1])
    {
      assert s[..k][1..] == t[..k - 1];
    }
    if Uncommented(q, s) {
      forall k | 0 <= k < |t| - 1 && After(Next(q, s[0]), t[..k]).Out?
        ensures !(t[k] == '/' && t[k + 1] == '*')
      {
        assert After(q, s[..k + 1]).Out?;
      }
    }
    if Uncommented(Next(q, s[0]), t) {
      forall k | 0 < k < |s| - 1 && After(q, s[..k]).Out?
        ensures !(s[k] == '/' && s[k + 1] == '*')
      {
        assert After(Next(q, s[0]), t[..k - 1]).Out? && t[k - 1] == s[k] && t[k] == s[k + 1];
      }
    }
  }

  lemma {:induction false} CleanIff(q: Quote, s: string)
    ensures Clean(q, s) <==> Uncommented(q, s)
    decreases |s|
  {
    if s != [] {
      hide Uncommented;
      UncommentedStep(q, s);
      CleanIff(Next(q, s[0]), s[1..]);
    }
  }

  /** Text in which no comment opens outside the literals is kept as it is. */
  lemma NothingElseIsStripped(s: string)
    requires Uncommented(Out, s)
    ensures Stripped(Out, s) == s
  {
    hide Uncommented;
    CleanIff(Out, s);
    CleanIsKept(Out, s);
  }

  lemma AfterNothing(q: Quote)
    ensures After(q, []) == q
  {
  }

  lemma CleanStep(q: Quote, a: string)
    requires a != [] && Clean(q, a)
    ensures !(q.Out? && OpensComment(a)) && Clean(Next(q, a[0]), a[1..]) && After(q, a) == After(Next(q, a[0]), a[1..])
  {
  }

  lemma StrippedStep(q: Quote, s: string)
    requires s != [] && !(q.Out? && OpensComment(s))
    ensures Stripped(q, s) == [s[0]] + Stripped(Next(q, s[0]), s[1..])
  {
  }

  lemma {:induction false} StrippedBehind(q: Quote, a: string, t: string)
    requires Clean(q, a) && After(q, a).Out? && (a != [] ==> a[|a| - 1] != '/' || t == [] || t[0] != '*')
    ensures Stripped(q, a + t) == a + Stripped(Out, t)
    decreases |a|
  {
    hide Stripped, Next, AfterComment, Clean, After, OpensComment;
    if a == [] {
      AfterNothing(q);
      assert a + t == t && [] + Stripped(Out, t) == Stripped(Out, t);
    } else {
      CleanStep(q, a);
      NoOpening(a, t);
      StrippedStep(q, a + t);
      assert (a + t)[1..] == a[1..] + t;
      StrippedBehind(Next(q, a[0]), a[1..], t);
      assert [a[0]] + (a[1..] + Stripped(Out, t)) == a + Stripped(Out, t);
    }
  }

  /** A block comment outside the literals becomes one space, and the text around it stays; one that is
      not closed takes the rest of the text. */
  lemma CommentBecomesSpace(a: string, c: string, b: string)
    requires Uncommented(Out, a) && After(Out, a).Out?
    ensures (forall k :: 0 <= k < |c| ==> !Closes(c + "*/", k)) ==>
              Stripped(Out, a + ("/*" + (c + ("*/" + b)))) == a + (" " + Stripped(Out, b))
    ensures (forall k :: 0 <= k < |c| ==> !Closes(c, k)) ==> Stripped(Out, a + ("/*" + c)) == a + " "
  {
    hide AfterComment, Clean, After, Uncommented;
    CleanIff(Out, a);
    if forall k :: 0 <= k < |c| ==> !Closes(c + "*/", k) {
      var t := "/*" + (c + ("*/" + b));
      StrippedBehind(Out, a, t);
      CommentEnds(c, b);
      assert t[2..] == c + ("*/" + b);
    }
    if forall k :: 0 <= k < |c| ==> !Closes(c, k) {
      var t := "/*" + c;
      StrippedBehind(Out, a, t);
      CommentRunsOn(c);
      assert t[2..] == c;
      assert " " + Stripped(Out, []) == " ";
    }
  }
}
