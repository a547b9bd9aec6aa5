/** One statement at a time (`process` and `handle_directive` in src/nyxstone.cpp): labels,
    integer lists, string literals and the directives, turned into requests to gas.
 */
module Directives {
  import opened Scanner

  /** A request of the front end to gas, in the order they are made. */
  datatype Event =
    | Label(name: string)                          // colon
    | NumericLabel(number: nat)                    // fb_label
    | Instruction(line: string)                    // md_assemble
    | Bytes(data: string)                          // emit_bytes
    | Expressions(args: string, width: nat)        // cons
    | Align(power: nat, fill: int, max: nat)       // frag_align
    | Org(target: nat, fill: int)                  // an rs_org frag
    | SetSymbol(name: string, value: string)       // equals

  /** Why the front end itself rejects a directive; NoError while it has not. */
  datatype DirectiveError =
    | NoError
    | NotAString(directive: string)
    | Unterminated(directive: string)
    | MissingOperand(directive: string)
    | NegativeOperand(directive: string)
    | BadAlignment(directive: string)
    | Malformed(directive: string)
    | Unsupported(directive: string)

  /** What the statements read so far amount to. */
  datatype Front = Front(events: seq<Event>, violation: bool, error: DirectiveError) {
    /** The first error wins. */
    function Fail(e: DirectiveError): Front {
      if error.NoError? then this.(error := e) else this
    }

    function Emit(e: Event): Front {
      this.(events := events + [e])
    }

    /** `nyxstone_glue_emit_bytes`: nothing happens for no bytes. */
    function EmitBytes(data: string): Front {
      if data == [] then this else Emit(Bytes(data))
    }
  }

  const START := Front([], false, NoError)

  // ----- characters (the C locale) ------------------------------------------------------------------

  predicate Space(c: char) {
    c == ' ' || '\t' <= c <= '\r'
  }

  predicate Digit(c: char) {
    '0' <= c <= '9'
  }

  predicate LabelChar(c: char) {
    Digit(c) || 'a' <= c <= 'z' || 'A' <= c <= 'Z' || c == '_' || c == '.' || c == '$'
  }

  function LTrim(s: string): (r: string)
    ensures |r| <= |s|
    decreases |s|
  {
    if s != [] && Space(s[0]) then LTrim(s[1..]) else s
  }

  function RTrim(s: string): (r: string)
    ensures |r| <= |s|
    decreases |s|
  {
    if s != [] && Space(s[|s| - 1]) then RTrim(s[..|s| - 1]) else s
  }

  // ----- integer literals -------------------------------------------------------------------------------

  const MAX_INT64: int := 0x7fff_ffff_ffff_ffff
  const MIN_INT64: int := -0x8000_0000_0000_0000

  /** The value of a character as a digit; 36 for everything else. */
  function DigitValue(c: char): nat {
    if Digit(c) then c as int - '0' as int
    else if 'a' <= c <= 'z' then 10 + c as int - 'a' as int
    else if 'A' <= c <= 'Z' then 10 + c as int - 'A' as int
    else 36
  }

  /** The number of leading digits of the base. */
  function DigitCount(s: string, base: nat): (n: nat)
    ensures n <= |s|
    decreases |s|
  {
    if s == [] || DigitValue(s[0]) >= base then 0 else 1 + DigitCount(s[1..], base)
  }

  function DigitsValue(s: string, base: nat): nat
    decreases |s|
  {
    if s == [] then 0 else DigitsValue(s[..|s| - 1], base) * base + DigitValue(s[|s| - 1])
  }

  /** A number and what is left of the text, if the text starts with a number. */
  datatype Parse = NoNumber | Number(value: int, rest: string)

  function Clamp(n: int): int {
    if n > MAX_INT64 then MAX_INT64 else if n < MIN_INT64 then MIN_INT64 else n
  }

  /** The digits of a number in the base its prefix asks for. */
  function ParseDigits(s: string): (p: Parse)
    ensures p.Number? ==> |p.rest| < |s|
  {
    if |s| > 2 && s[0] == '0' && (s[1] == 'x' || s[1] == 'X') && DigitValue(s[2]) < 16 then
      var n := DigitCount(s[2..], 16);
      Number(DigitsValue(s[2..][..n], 16), s[2..][n..])
    else
      var base := if s != [] && s[0] == '0' then 8 else 10;
      var n := DigitCount(s, base);
      if n == 0 then NoNumber else Number(DigitsValue(s[..n], base), s[n..])
  }

  /** `parse_int`: `strtoll` with base 0, clamped to 64 bits. */
  function ParseInt(s: string): (p: Parse)
    ensures p.Number? ==> |p.rest| < |s|
  {
    var t := LTrim(s);
    if t == [] then NoNumber
    else
      var negative := t[0] == '-';
      var p := ParseDigits(if negative || t[0] == '+' then t[1..] else t);
      if p.NoNumber? then NoNumber else Number(Clamp(if negative then -p.value else p.value), p.rest)
  }

  /** Behind a number: blanks, then at most one comma. */
  function AfterNumber(s: string): (r: string)
    ensures |r| <= |s|
  {
    var t := LTrim(s);
    if t != [] && t[0] == ',' then t[1..] else t
  }

  /** `n` as `width` little-endian bytes. */
  function LittleEndian(n: int, width: nat): (s: string)
    ensures |s| == width
    decreases width
  {
    if width == 0 then [] else [(n % 256) as char] + LittleEndian(n / 256, width - 1)
  }

  /** The numbers `emit_int_list` takes from the text; it stops at the first thing it cannot read. */
  function ListValues(args: string): seq<int>
    decreases |args|
  {
    match ParseInt(args)
    case NoNumber => []
    case Number(v, rest) => [v] + ListValues(AfterNumber(rest))
  }

  function EmitValues(f: Front, values: seq<int>, width: nat): Front
    decreases |values|
  {
    if values == [] then f else EmitValues(f.EmitBytes(LittleEndian(values[0], width)), values[1..], width)
  }

  /** `all_int_literals`: the text is a comma-separated list of numbers. */
  predicate AllNumbers(args: string)
    decreases |args|
  {
    LTrim(args) == [] ||
    match ParseInt(LTrim(args))
    case NoNumber => false
    case Number(_, rest) =>
      var t := LTrim(rest);
      t == [] || (t[0] == ',' && AllNumbers(t[1..]))
  }

  /** `parse_int_args`: up to `max` numbers, or nothing if the text holds anything else. */
  datatype Operands = BadOperands | Operands(values: seq<int>)

  function ParseOperands(args: string, max: nat): (r: Operands)
    ensures r.Operands? ==> |r.values| <= max
    decreases max
  {
    var t := LTrim(args);
    if t == [] then Operands([])
    else if max == 0 then BadOperands
    else
      match ParseInt(t)
      case NoNumber => BadOperands
      case Number(v, rest) =>
        var u := LTrim(rest);
        if u == [] then Operands([v])
        else if u[0] != ',' then BadOperands
        else
          match ParseOperands(u[1..], max - 1)
          case BadOperands => BadOperands
          case Operands(vs) => Operands([v] + vs)
  }

  // ----- string literals ------------------------------------------------------------------------------------

  /** The character an escape stands for. */
  function Unescaped(c: char): char {
    match c
    case 'n' => '\n'
    case 't' => '\t'
    case 'r' => '\r'
    case '0' => '\0'
    case _ => c
  }

  /** A literal up to its closing quote, and what follows the quote. */
  datatype Literal = NotClosed | Closed(text: string, rest: string)

  function ParseLiteral(s: string, text: string): (l: Literal)
    ensures l.Closed? ==> |l.rest| < |s|
    decreases |s|
  {
    if s == [] then NotClosed
    else if s[0] == '"' then Closed(text, s[1..])
    else if s[0] == '\\' && |s| > 1 then ParseLiteral(s[2..], text + [Unescaped(s[1])])
    else ParseLiteral(s[1..], text + [s[0]])
  }

  /** `emit_ascii`, from the text still to read; `any` once a literal has been emitted. */
  function Ascii(f: Front, d: string, args: string, zero: bool, any: bool): Front
    decreases |args|
  {
    var t := LTrim(args);
    if t == [] then (if any then f else f.Fail(NotAString(d)))
    else if t[0] != '"' then f.Fail(NotAString(d))
    else
      match ParseLiteral(t[1..], [])
      case NotClosed => f.Fail(Unterminated(d))
      case Closed(text, rest) =>
        var g := f.EmitBytes(text);
        Ascii(if zero then g.EmitBytes("\0") else g, d, AfterNumber(rest), zero, true)
  }

  // ----- the other directives ---------------------------------------------------------------------------------

  /** The cast `(int)`. */
  function Int32(n: int): int {
    var m := n % 0x1_0000_0000;
    if m >= 0x8000_0000 then m - 0x1_0000_0000 else m
  }

  function Operand(values: seq<int>, i: nat): int {
    if i < |values| then values[i] else 0
  }

  predicate PowerOfTwo(b: int) {
    b == 1 || (b > 1 && b % 2 == 0 && PowerOfTwo(b / 2))
  }

  function Log2(b: int): nat {
    if b <= 1 then 0 else 1 + Log2(b / 2)
  }

  /** The width of a data directive, 0 for any other. */
  function DataWidth(d: string): nat {
    if d == ".byte" then 1
    else if d == ".half" || d == ".hword" || d == ".short" || d == ".2byte" then 2
    else if d == ".word" || d == ".int" || d == ".long" || d == ".4byte" then 4
    else if d == ".quad" || d == ".8byte" then 8
    else 0
  }

  function DataList(f: Front, args: string, width: nat): Front {
    if AllNumbers(args) then EmitValues(f, ListValues(args), width) else f.Emit(Expressions(args, width))
  }

  function Skip(f: Front, d: string, args: string): Front {
    match ParseOperands(args, if d == ".zero" then 1 else 2)
    case BadOperands => f.Fail(MissingOperand(d))
    case Operands(vs) =>
      if |vs| < 1 then f.Fail(MissingOperand(d))
      else if vs[0] < 0 then f.Fail(NegativeOperand(d))
      else f.EmitBytes(seq(vs[0], i => (Operand(vs, 1) % 256) as char))
  }

  function SetOrigin(f: Front, d: string, args: string): Front {
    match ParseOperands(args, 2)
    case BadOperands => f.Fail(MissingOperand(d))
    case Operands(vs) =>
      if |vs| < 1 then f.Fail(MissingOperand(d))
      else if vs[0] < 0 then f.Fail(NegativeOperand(d))
      else f.Emit(Org(vs[0], Int32(Operand(vs, 1))))
  }

  function AlignTo(f: Front, d: string, args: string): Front {
    match ParseOperands(args, 3)
    case BadOperands => f.Fail(MissingOperand(d))
    case Operands(vs) =>
      var max := if |vs| >= 3 && vs[2] > 0 then vs[2] % 0x1_0000_0000 else 0;
      if |vs| < 1 then f.Fail(MissingOperand(d))
      else if d == ".balign" then
        if !PowerOfTwo(vs[0]) then f.Fail(BadAlignment(d))
        else f.Emit(Align(Log2(vs[0]), Int32(Operand(vs, 1)), max))
      else if vs[0] < 0 || vs[0] > 30 then f.Fail(BadAlignment(d))
      else f.Emit(Align(vs[0], Int32(Operand(vs, 1)), max))
  }

  function IndexOf(s: string, c: char): (i: nat)
    ensures i <= |s|
    decreases |s|
  {
    if s == [] || s[0] == c then 0 else 1 + IndexOf(s[1..], c)
  }

  function Equate(f: Front, d: string, args: string): Front {
    var comma := IndexOf(args, ',');
    var name := RTrim(args[..comma]);
    var value := if comma < |args| then RTrim(LTrim(args[comma + 1..])) else [];
    if name == [] || value == [] then f.Fail(Malformed(d)) else f.Emit(SetSymbol(name, value))
  }

  /** The length of the first word. */
  function WordLength(s: string): (n: nat)
    ensures n <= |s|
    decreases |s|
  {
    if s == [] || Space(s[0]) then 0 else 1 + WordLength(s[1..])
  }

  function SectionName(args: string): string {
    var w := args[..WordLength(args)];
    w[..IndexOf(w, ',')]
  }

  predicate TextSectionName(name: string) {
    name == ".text" || ".text." <= name
  }

  predicate LeavesText(d: string) {
    d == ".data" || d == ".bss" || d == ".rodata" || d == ".sdata" || d == ".sbss" || d == ".tdata" || d == ".tbss"
    || d == ".pushsection" || d == ".previous"
  }

  predicate Metadata(d: string) {
    d == ".global" || d == ".globl" || d == ".local" || d == ".weak" || d == ".type" || d == ".size" || d == ".file"
    || d == ".ident" || d == ".syntax" || d == ".cpu" || d == ".arch" || d == ".extern" || d == ".end"
  }

  function Operandless(f: Front, d: string, args: string): Front {
    if d == ".text" then f
    else if d == ".section" then (if TextSectionName(SectionName(LTrim(args))) then f else f.(violation := true))
    else if LeavesText(d) then f.(violation := true)
    else if Metadata(d) then f
    else f.Fail(Unsupported(d))
  }

  /** `handle_directive`, and the error for a directive it does not know. */
  function Directive(f: Front, line: string): Front {
    var n := WordLength(line);
    var d := line[..n];
    var args := RTrim(LTrim(if n < |line| then line[n + 1..] else []));
    if DataWidth(d) > 0 then DataList(f, args, DataWidth(d))
    else if d == ".ascii" then Ascii(f, d, args, false, false)
    else if d == ".asciz" || d == ".string" then Ascii(f, d, args, true, false)
    else if d == ".skip" || d == ".space" || d == ".zero" then Skip(f, d, args)
    else if d == ".org" then SetOrigin(f, d, args)
    else if d == ".align" || d == ".p2align" || d == ".balign" then AlignTo(f, d, args)
    else if d == ".equ" || d == ".set" then Equate(f, d, args)
    else Operandless(f, d, args)
  }

  // ----- statements ----------------------------------------------------------------------------------------------

  function LabelLength(s: string): (n: nat)
    ensures n <= |s|
    decreases |s|
  {
    if s == [] || !LabelChar(s[0]) then 0 else 1 + LabelLength(s[1..])
  }

  predicate AllDigits(s: string) {
    forall i :: 0 <= i < |s| ==> Digit(s[i])
  }

  /** `(unsigned) strtoul (name, NULL, 10)` */
  function NumericName(s: string): nat {
    var n := DigitsValue(s, 10);
    (if n > 0xffff_ffff_ffff_ffff then 0xffff_ffff_ffff_ffff else n) % 0x1_0000_0000
  }

  function LabelEvent(name: string): Event {
    if AllDigits(name) then NumericLabel(NumericName(name)) else Label(name)
  }

  predicate StartsWithLabel(s: string) {
    0 < LabelLength(s) < |s| && s[LabelLength(s)] == ':'
  }

  /** Labels first, then a directive or an instruction. */
  function Labelled(f: Front, line: string): Front
    decreases |line|
  {
    if line == [] then f
    else if StartsWithLabel(line) then
      Labelled(f.Emit(LabelEvent(line[..LabelLength(line)])), LTrim(line[LabelLength(line) + 1..]))
    else if line[0] == '.' then Directive(f, line)
    else f.Emit(Instruction(line))
  }

  /** `process` */
  function Statement(f: Front, line: string): Front {
    var t := LTrim(line);
    Labelled(f, RTrim(t[..CommentAt(Out, t)]))
  }

  function AllStatements(f: Front, lines: seq<string>): Front
    decreases |lines|
  {
    if lines == [] then f else AllStatements(Statement(f, lines[0]), lines[1..])
  }

  /** The front end on a whole source. */
  function Source(src: string): Front {
    AllStatements(START, Statements(Out, Stripped(Out, src), []))
  }
}
