/** The front end of src/nyxstone.cpp as an object: cursor loops that hand requests to gas and set
    the two flags, `g_section_violation` and `g_directive_error`.  Each loop is proved against the
    function that specifies it in Scanner or Directives.
 */
module FrontEnd {
  import opened Scanner
  import opened Directives
  import Frags
  import Values

  class Reader {
    var events: seq<Event>
    var violation: bool
    var error: DirectiveError

    constructor ()
      ensures View() == START
    {
      events, violation, error := [], false, NoError;
    }

    function View(): Front
      reads this
    {
      Front(events, violation, error)
    }

    method Set(f: Front)
      modifies this
      ensures View() == f
    {
      events, violation, error := f.events, f.violation, f.error;
    }

    /** `all_int_literals` */
    static method AllIntLiterals(args: string) returns (b: bool)
      ensures b <==> AllNumbers(args)
    {
      hide ParseInt;
      var rest := args;
      while true
        invariant AllNumbers(rest) == AllNumbers(args)
        decreases |rest|
      {
        rest := LTrim(rest);
        LTrimOnce(rest);
        if rest == [] {
          return true;
        }
        match ParseInt(rest) {
          case NoNumber => return false;
          case Number(_, next) =>
            var t := LTrim(next);
            if t == [] {
              return true;
            }
            if t[0] != ',' {
              return false;
            }
            rest := t[1..];
        }
      }
    }

    /** `parse_int_args` */
    static method ParseIntArgs(args: string, max: nat) returns (r: Operands)
      ensures r == ParseOperands(args, max)
    {
      hide ParseInt, ParseOperands, LTrim, Behind;
      var rest := args;
      var values := [];
      BehindNothing(ParseOperands(args, max));
      while |values| < max
        invariant |values| <= max
        invariant ParseOperands(args, max) == Behind(values, ParseOperands(rest, max - |values|))
        decreases max - |values|
      {
        OperandsStep(values, rest, max - |values|);
        var t := LTrim(rest);
        if t == [] {
          return Operands(values);
        }
        match ParseInt(t) {
          case NoNumber => return BadOperands;
          case Number(v, next) =>
            values := values + [v];
            var u := LTrim(next);
            if u == [] {
              return Operands(values);
            }
            if u[0] != ',' {
              return BadOperands;
            }
            rest := u[1..];
        }
      }
      OperandsStep(values, rest, 0);
      return if LTrim(rest) == [] then Operands(values) else BadOperands;
    }

    /** `emit_int_list` */
    method EmitIntList(args: string, width: nat)
      modifies this
      ensures View() == EmitValues(old(View()), ListValues(args), width)
    {
      hide ParseInt, LittleEndian, AfterNumber;
      var rest := args;
      while true
        invariant EmitValues(View(), ListValues(rest), width) == EmitValues(old(View()), ListValues(args), width)
        decreases |rest|
      {
        match ParseInt(rest) {
          case NoNumber => break;
          case Number(v, next) =>
            assert ListValues(rest)[0] == v && ListValues(rest)[1..] == ListValues(AfterNumber(next));
            Set(View().EmitBytes(LittleEndian(v, width)));
            rest := AfterNumber(next);
        }
      }
    }

    /** The loop over the characters of a string literal; `rest` is at the closing quote on exit. */
    static method ReadLiteral(s: string) returns (l: Literal)
      ensures l == ParseLiteral(s, [])
    {
      hide Unescaped;
      var text, rest := [], s;
      while rest != [] && rest[0] != '"'
        invariant ParseLiteral(rest, text) == ParseLiteral(s, [])
        decreases |rest|
      {
        if rest[0] == '\\' && |rest| > 1 {
          text, rest := text + [Unescaped(rest[1])], rest[2..];
        } else {
          text, rest := text + [rest[0]], rest[1..];
        }
      }
      return if rest == [] then NotClosed else Closed(text, rest[1..]);
    }

    /** `emit_ascii` */
    method EmitAscii(d: string, args: string, zero: bool)
      modifies this
      ensures View() == Ascii(old(View()), d, args, zero, false)
    {
      hide ParseLiteral, AfterNumber;
      var rest := args;
      var any := false;
      while true
        invariant Ascii(View(), d, rest, zero, any) == Ascii(old(View()), d, args, zero, false)
        decreases |rest|
      {
        var t := LTrim(rest);
        if t == [] {
          break;
        }
        if t[0] != '"' {
          Set(View().Fail(NotAString(d)));
          return;
        }
        any := true;
        var l := ReadLiteral(t[1..]);
        match l {
          case NotClosed =>
            Set(View().Fail(Unterminated(d)));
            return;
          case Closed(text, next) =>
            Set(View().EmitBytes(text));
            if zero {
              Set(View().EmitBytes("\0"));
            }
            rest := AfterNumber(next);
        }
      }
      if !any {
        Set(View().Fail(NotAString(d)));
      }
    }

    /** `.skip`, `.space`, `.zero` */
    method SkipBytes(d: string, args: string)
      modifies this
      ensures View() == Skip(old(View()), d, args)
    {
      hide ParseOperands;
      var r := ParseIntArgs(args, if d == ".zero" then 1 else 2);
      if r.BadOperands? || |r.values| < 1 {
        Set(View().Fail(MissingOperand(d)));
      } else if r.values[0] < 0 {
        Set(View().Fail(NegativeOperand(d)));
      } else {
        var values := r.values;
        var byte := (Operand(values, 1) % 256) as char;
        assert seq(values[0], _ => byte) == seq(values[0], i => (Operand(values, 1) % 256) as char);
        Set(View().EmitBytes(seq(values[0], _ => byte)));
      }
    }

    /** `.org` */
    method Origin(d: string, args: string)
      modifies this
      ensures View() == SetOrigin(old(View()), d, args)
    {
      hide ParseOperands, Int32;
      var r := ParseIntArgs(args, 2);
      if r.BadOperands? || |r.values| < 1 {
        Set(View().Fail(MissingOperand(d)));
      } else if r.values[0] < 0 {
        Set(View().Fail(NegativeOperand(d)));
      } else {
        Set(View().Emit(Org(r.values[0], Int32(Operand(r.values, 1)))));
      }
    }

    /** The loop that finds the exponent of a power of two. */
    static method Exponent(b: int) returns (power: nat)
      requires PowerOfTwo(b)
      ensures power == Log2(b) && Frags.Pow2(power) == b
    {
      hide PowerOfTwo, Log2;
      Values.ExponentIsExact(b);
      power := 0;
      var shifted := 1;
      while shifted < b
        invariant shifted == Frags.Pow2(power) <= b && power <= Log2(b)
        decreases b - shifted
      {
        Grows(power, Log2(b));
        Grows(power + 1, Log2(b));
        power := power + 1;
        shifted := 2 * shifted;
      }
      Grows(power, Log2(b));
    }

    /** `.align`, `.p2align`, `.balign` */
    method Alignment(d: string, args: string)
      modifies this
      ensures View() == AlignTo(old(View()), d, args)
    {
      hide ParseOperands, Int32, PowerOfTwo, Log2, Frags.Pow2;
      var r := ParseIntArgs(args, 3);
      if r.BadOperands? || |r.values| < 1 {
        Set(View().Fail(MissingOperand(d)));
        return;
      }
      var power: nat := 0;
      if d == ".balign" {
        if !PowerOfTwo(r.values[0]) {
          Set(View().Fail(BadAlignment(d)));
          return;
        }
        power := Exponent(r.values[0]);
      } else {
        if r.values[0] < 0 || r.values[0] > 30 {
          Set(View().Fail(BadAlignment(d)));
          return;
        }
        power := r.values[0];
      }
      var max := if |r.values| >= 3 && r.values[2] > 0 then r.values[2] % 0x1_0000_0000 else 0;
      Set(View().Emit(Align(power, Int32(Operand(r.values, 1)), max)));
    }

    /** `.equ`, `.set`: the text is cut at the first comma. */
    method Definition(d: string, args: string)
      modifies this
      ensures View() == Equate(old(View()), d, args)
    {
      hide RTrim, LTrim;
      var comma := 0;
      assert args[0..] == args;
      while comma < |args| && args[comma] != ','
        invariant comma <= |args| && comma + IndexOf(args[comma..], ',') == IndexOf(args, ',')
      {
        assert args[comma..][1..] == args[comma + 1..];
        comma := comma + 1;
      }
      var name := RTrim(args[..comma]);
      var value := if comma < |args| then RTrim(LTrim(args[comma + 1..])) else [];
      if name == [] || value == [] {
        Set(View().Fail(Malformed(d)));
      } else {
        Set(View().Emit(SetSymbol(name, value)));
      }
    }

    /** `handle_directive` */
    method HandleDirective(line: string)
      modifies this
      ensures View() == Directive(old(View()), line)
    {
      hide Ascii, EmitValues, AlignTo, SetOrigin, Skip, Equate, Operandless, AllNumbers, ListValues, RTrim, LTrim,
        WordLength;
      var n := WordLength(line);
      var d := line[..n];
      var args := RTrim(LTrim(if n < |line| then line[n + 1..] else []));
      var width := DataWidth(d);
      if width > 0 {
        var fast := AllIntLiterals(args);
        if fast {
          EmitIntList(args, width);
        } else {
          Set(View().Emit(Expressions(args, width)));
        }
      } else if d == ".ascii" {
        EmitAscii(d, args, false);
      } else if d == ".asciz" || d == ".string" {
        EmitAscii(d, args, true);
      } else if d == ".skip" || d == ".space" || d == ".zero" {
        SkipBytes(d, args);
      } else if d == ".org" {
        Origin(d, args);
      } else if d == ".align" || d == ".p2align" || d == ".balign" {
        Alignment(d, args);
      } else if d == ".equ" || d == ".set" {
        Definition(d, args);
      } else {
        Set(Operandless(View(), d, args));
      }
    }

    /** `process` */
    method Process(line: string)
      modifies this
      ensures View() == Statement(old(View()), line)
    {
      hide Directive, LTrim, RTrim, CommentAt, LabelEvent, LabelLength;
      var t := LTrim(line);
      var cut := StripComment(t);
      var rest := RTrim(cut);
      while rest != [] && StartsWithLabel(rest)
        invariant Labelled(View(), rest) == Statement(old(View()), line)
        decreases |rest|
      {
        var cp := LabelLength(rest);
        Set(View().Emit(LabelEvent(rest[..cp])));
        rest := LTrim(rest[cp + 1..]);
      }
      if rest == [] {
        return;
      }
      if rest[0] == '.' {
        HandleDirective(rest);
      } else {
        Set(View().Emit(Instruction(rest)));
      }
    }

    /** `run`: split into statements and process each as soon as it is complete. */
    method Run(text: string)
      modifies this
      ensures View() == AllStatements(old(View()), Statements(Out, text, []))
    {
      hide Statement;
      var cur := [];
      var inString := false;
      var i := 0;
      while i < |text|
        invariant i <= |text|
        invariant AllStatements(View(), Statements(Flag(inString), text[i..], cur)) ==
          AllStatements(old(View()), Statements(Out, text, []))
      {
        var c := text[i];
        SplitStep(text, i, cur);
        if inString {
          cur := cur + [c];
          if c == '\\' && i + 1 < |text| {
            i := i + 1;
            cur := cur + [text[i]];
          } else if c == '"' {
            inString := false;
          }
        } else if c == '"' {
          inString := true;
          cur := cur + [c];
        } else if c == '\n' || c == ';' {
          Process(cur);
          cur := [];
        } else {
          cur := cur + [c];
        }
        i := i + 1;
      }
      assert text[i..] == [];
      if cur != [] {
        Process(cur);
      }
    }

    /** The whole source: block comments first. */
    method Read(source: string)
      modifies this
      ensures View() == AllStatements(old(View()), Statements(Out, Stripped(Out, source), []))
    {
      var text := StripBlockComments(source);
      Run(text);
    }
  }

  /** Powers of two grow. */
  lemma {:induction false} Grows(j: nat, k: nat)
    ensures j < k ==> Frags.Pow2(j) < Frags.Pow2(k)
    decreases k
  {
    if j < k {
      Grows(j, k - 1);
    }
  }

  /** Operands behind those already read. */
  function Behind(values: seq<int>, r: Operands): Operands {
    if r.BadOperands? then r else Operands(values + r.values)
  }

  lemma BehindNothing(r: Operands)
    ensures Behind([], r) == r
  {
    if r.Operands? {
      assert [] + r.values == r.values;
    }
  }

  lemma OperandsStep(values: seq<int>, rest: string, room: nat)
    ensures
      var t := LTrim(rest);
      Behind(values, ParseOperands(rest, room)) ==
      if t == [] then Operands(values)
      else if room == 0 then BadOperands
      else
        match ParseInt(t)
        case NoNumber => BadOperands
        case Number(v, next) =>
          var u := LTrim(next);
          if u == [] then Operands(values + [v])
          else if u[0] != ',' then BadOperands
          else Behind(values + [v], ParseOperands(u[1..], room - 1))
  {
    hide ParseInt, LTrim;
    assert values + [] == values;
    var t := LTrim(rest);
    if t != [] && room > 0 && ParseInt(t).Number? {
      var v, u := ParseInt(t).value, LTrim(ParseInt(t).rest);
      if u != [] && u[0] == ',' {
        var r := ParseOperands(u[1..], room - 1);
        if r.Operands? {
          assert values + ([v] + r.values) == values + [v] + r.values;
        }
      }
    }
  }

  lemma LTrimOnce(s: string)
    ensures LTrim(LTrim(s)) == LTrim(s)
    decreases |s|
  {
    if s != [] && Space(s[0]) {
      LTrimOnce(s[1..]);
    }
  }

  /** One character of the splitting loop. */
  lemma SplitStep(text: string, i: nat, cur: string)
    requires i < |text|
    ensures Statements(Out, text[i..], cur) ==
            if Separator(text[i]) then [cur] + Statements(Out, text[i + 1..], [])
            else Statements(Next(Out, text[i]), text[i + 1..], cur + [text[i]])
    ensures Statements(In, text[i..], cur) == Statements(Next(In, text[i]), text[i + 1..], cur + [text[i]])
    ensures i + 1 < |text| ==>
              Statements(Esc, text[i + 1..], cur + [text[i]])
                == Statements(In, text[i + 2..], cur + [text[i]] + [text[i + 1]])
    ensures i + 1 == |text| ==>
              Statements(Esc, text[i + 1..], cur + [text[i]]) == Statements(In, text[i + 1..], cur + [text[i]])
  {
    assert text[i..][1..] == text[i + 1..];
    if i + 1 < |text| {
      assert text[i + 1..][1..] == text[i + 2..];
    }
  }
}
