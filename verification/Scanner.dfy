/** The quote-aware scanners of src/nyxstone.cpp: block comments are stripped from the whole text,
    the text is split into statements, and each statement loses its line comment.  Three loops of
    the source track string literals on their own; here each is proved against a function on one
    automaton, and the lemmas say that they agree on where the literals are.
 */
module Scanner {

  /** Outside a string literal, inside one, or inside one right after a backslash. */
  datatype Quote = Out | In | Esc

  function Next(q: Quote, c: char): Quote {
    match q
    case Out => if c == '"' then In else Out
    case In => if c == '\\' then Esc else if c == '"' then Out else In
    case Esc => In
  }

  function After(q: Quote, s: string): Quote
    decreases |s|
  {
    if s == [] then q else After(Next(q, s[0]), s[1..])
  }

  lemma {:induction false} AfterConcat(q: Quote, a: string, b: string)
    ensures After(q, a + b) == After(After(q, a), b)
    decreases |a|
  {
    if a == [] {
      assert a + b == b;
    } else {
      assert (a + b)[1..] == a[1..] + b;
      AfterConcat(Next(q, a[0]), a[1..], b);
    }
  }

  /** The automaton states a loop with a flag goes through: it consumes an escape in one step. */
  function Flag(inString: bool): Quote {
    if inString then In else Out
  }

  // ----- block comments -------------------------------------------------------------------------

  predicate OpensComment(s: string) {
    |s| >= 2 && s[0] == '/' && s[1] == '*'
  }

  /** What follows a block comment whose opening has been consumed; nothing if it is not closed. */
  function AfterComment(s: string): (r: string)
    ensures |r| <= |s|
  {
    if |s| < 2 then [] else if s[0] == '*' && s[1] == '/' then s[2..] else AfterComment(s[1..])
  }

  /** The text with every block comment replaced by a space. */
  function Stripped(q: Quote, s: string): string
    decreases |s|
  {
    if s == [] then []
    else if q.Out? && OpensComment(s) then " " + Stripped(Out, AfterComment(s[2..]))
    else [s[0]] + Stripped(Next(q, s[0]), s[1..])
  }

  /** The inner loop: from behind the opening of a comment to its last character. */
  method SkipComment(src: string, from: nat) returns (last: int)
    requires 0 < from <= |src|
    ensures from - 1 <= last < |src| && src[last + 1..] == AfterComment(src[from..])
  {
    var i := from;
    while i + 1 < |src| && !(src[i] == '*' && src[i + 1] == '/')
      invariant from <= i <= |src|
      invariant AfterComment(src[i..]) == AfterComment(src[from..])
    {
      assert src[i..][1..] == src[i + 1..];
      i := i + 1;
    }
    if i + 1 < |src| {
      assert src[i..][2..] == src[i + 2..];
      return i + 1;
    }
    return |src| - 1;
  }

  lemma StringStep(src: string, i: nat)
    requires i < |src|
    ensures Stripped(In, src[i..]) == [src[i]] + Stripped(Next(In, src[i]), src[i + 1..])
    ensures i + 1 < |src| ==> Stripped(Esc, src[i + 1..]) == [src[i + 1]] + Stripped(In, src[i + 2..])
    ensures i + 1 == |src| ==> Stripped(Esc, src[i + 1..]) == [] == Stripped(In, src[i + 1..])
  {
    assert src[i..][1..] == src[i + 1..];
    if i + 1 < |src| {
      assert src[i + 1..][1..] == src[i + 2..];
    }
  }

  lemma CodeStep(src: string, i: nat)
    requires i < |src|
    ensures OpensComment(src[i..]) <==> i + 1 < |src| && src[i] == '/' && src[i + 1] == '*'
    ensures Stripped(Out, src[i..]) ==
            if OpensComment(src[i..]) then " " + Stripped(Out, AfterComment(src[i + 2..]))
            else [src[i]] + Stripped(Next(Out, src[i]), src[i + 1..])
  {
    assert src[i..][1..] == src[i + 1..];
    if OpensComment(src[i..]) {
      assert src[i..][2..] == src[i + 2..];
    }
  }

  method StripBlockComments(src: string) returns (out: string)
    ensures out == Stripped(Out, src)
  {
    hide Stripped, AfterComment, OpensComment;
    out := [];
    var inString := false;
    var i := 0;
    while i < |src|
      invariant i <= |src|
      invariant out + Stripped(Flag(inString), src[i..]) == Stripped(Out, src)
    {
      var c := src[i];
      if inString {
        StringStep(src, i);
        out := out + [c];
        if c == '\\' && i + 1 < |src| {
          i := i + 1;
          out := out + [src[i]];
        } else if c == '"' {
          inString := false;
        }
      } else {
        CodeStep(src, i);
        if c == '"' {
          inString := true;
          out := out + [c];
        } else if c == '/' && i + 1 < |src| && src[i + 1] == '*' {
          i := SkipComment(src, i + 2);
          out := out + " ";
        } else {
          out := out + [c];
        }
      }
      i := i + 1;
    }
    NothingLeft(Flag(inString));
    assert src[i..] == [];
  }

  lemma NothingLeft(q: Quote)
    ensures Stripped(q, []) == []
  {
  }

  /** No block comment opens outside a string literal. */
  predicate Clean(q: Quote, s: string)
    decreases |s|
  {
    s == [] || (!(q.Out? && OpensComment(s)) && Clean(Next(q, s[0]), s[1..]))
  }

  lemma {:induction false} StrippedIsClean(q: Quote, s: string)
    ensures Clean(q, Stripped(q, s))
    decreases |s|
  {
    if s != [] {
      var t := Stripped(q, s);
      if q.Out? && OpensComment(s) {
        StrippedIsClean(Out, AfterComment(s[2..]));
        assert t[1..] == Stripped(Out, AfterComment(s[2..]));
      } else {
        StrippedIsClean(Next(q, s[0]), s[1..]);
        assert t[1..] == Stripped(Next(q, s[0]), s[1..]);
      }
    }
  }

  lemma {:induction false} CleanIsKept(q: Quote, s: string)
    requires Clean(q, s)
    ensures Stripped(q, s) == s
    decreases |s|
  {
    if s != [] {
      CleanIsKept(Next(q, s[0]), s[1..]);
    }
  }

  /** Stripping leaves no comment opening outside a literal, so a second pass changes nothing. */
  lemma StripIsIdempotent(s: string)
    ensures Clean(Out, Stripped(Out, s))
    ensures Stripped(Out, Stripped(Out, s)) == Stripped(Out, s)
  {
    StrippedIsClean(Out, s);
    CleanIsKept(Out, Stripped(Out, s));
  }

  // ----- line comments -----------------------------------------------------------------------------

  predicate OpensLineComment(s: string) {
    |s| > 0 && (s[0] == '#' || (s[0] == '/' && |s| > 1 && s[1] == '/'))
  }

  /** The length of the statement without its line comment. */
  function CommentAt(q: Quote, s: string): (n: nat)
    ensures n <= |s|
    decreases |s|
  {
    if s == [] || (q.Out? && OpensLineComment(s)) then 0 else 1 + CommentAt(Next(q, s[0]), s[1..])
  }

  method StripComment(s: string) returns (r: string)
    ensures r == s[..CommentAt(Out, s)]
  {
    var inString := false;
    var i := 0;
    while i < |s|
      invariant i <= |s|
      invariant CommentAt(Out, s) == i + CommentAt(Flag(inString), s[i..])
    {
      var c := s[i];
      ghost var rest := s[i..];
      assert rest[0] == c && rest[1..] == s[i + 1..];
      if inString {
        if c == '\\' && i + 1 < |s| {
          assert rest[1..][1..] == s[i + 2..];
          i := i + 1;
        } else if c == '"' {
          inString := false;
        } else if c == '\\' {
          assert s[i + 1..] == [];
        }
      } else if c == '"' {
        inString := true;
      } else if c == '#' || (c == '/' && i + 1 < |s| && s[i + 1] == '/') {
        return s[..i];
      }
      i := i + 1;
    }
    assert s[i..] == [];
    r := s;
    assert s[..|s|] == s;
  }

  /** The cut falls outside every literal, at the first place outside one where a comment opens. */
  lemma {:induction false} CutOutsideLiterals(q: Quote, s: string)
    ensures var n := CommentAt(q, s);
      && (n < |s| ==> After(q, s[..n]).Out? && OpensLineComment(s[n..]))
      && forall k :: 0 <= k < n && After(q, s[..k]).Out? ==> !OpensLineComment(s[k..])
    decreases |s|
  {
    var n := CommentAt(q, s);
    if n > 0 {
      CutOutsideLiterals(Next(q, s[0]), s[1..]);
      assert s[..n][1..] == s[1..][..n - 1];
      forall k | 0 <= k < n && After(q, s[..k]).Out?
        ensures !OpensLineComment(s[k..])
      {
        if k > 0 {
          assert s[..k][1..] == s[1..][..k - 1];
          assert s[1..][k - 1..] == s[k..];
        } else {
          assert s[..k] == [] && s[k..] == s;
        }
      }
    } else {
      assert s[..n] == [] && s[n..] == s;
    }
  }

  // ----- statements ------------------------------------------------------------------------------------

  predicate Separator(c: char) {
    c == '\n' || c == ';'
  }

  /** The statements of the text, with `cur` already read of the first one. */
  function Statements(q: Quote, s: string, cur: string): seq<string>
    decreases |s|
  {
    if s == [] then (if cur == [] then [] else [cur])
    else if q.Out? && Separator(s[0]) then [cur] + Statements(Out, s[1..], [])
    else Statements(Next(q, s[0]), s[1..], cur + [s[0]])
  }

  /** The separators between them. */
  function Separators(q: Quote, s: string): string
    decreases |s|
  {
    if s == [] then []
    else if q.Out? && Separator(s[0]) then [s[0]] + Separators(Out, s[1..])
    else Separators(Next(q, s[0]), s[1..])
  }

  /** Statements followed by their separators. */
  function Joined(parts: seq<string>, seps: string): string {
    if parts == [] then []
    else if seps == [] then parts[0] + Joined(parts[1..], [])
    else parts[0] + [seps[0]] + Joined(parts[1..], seps[1..])
  }

  lemma {:induction false} SplitJoin(q: Quote, s: string, cur: string)
    ensures Joined(Statements(q, s, cur), Separators(q, s)) == cur + s
    decreases |s|
  {
    if s == [] {
      assert cur + s == cur;
    } else if q.Out? && Separator(s[0]) {
      SplitJoin(Out, s[1..], []);
      var parts, seps := Statements(q, s, cur), Separators(q, s);
      assert parts[1..] == Statements(Out, s[1..], []) && seps[1..] == Separators(Out, s[1..]);
      assert cur + s == cur + [s[0]] + s[1..];
    } else {
      SplitJoin(Next(q, s[0]), s[1..], cur + [s[0]]);
      assert cur + s == cur + [s[0]] + s[1..];
    }
  }

  /** Splitting loses nothing: statements and separators make up the text. */
  lemma SplitLosesNothing(s: string)
    ensures Joined(Statements(Out, s, []), Separators(Out, s)) == s
  {
    SplitJoin(Out, s, []);
    assert [] + s == s;
  }

  /** The offset of statement `j` in the text. */
  function Offset(parts: seq<string>, j: nat): nat
    requires j <= |parts|
  {
    if j == 0 then 0 else Offset(parts, j - 1) + |parts[j - 1]| + 1
  }

  lemma {:induction false} OffsetTail(parts: seq<string>, j: nat)
    requires 0 < j <= |parts|
    ensures Offset(parts, j) == |parts[0]| + 1 + Offset(parts[1..], j - 1)
  {
    if j > 1 {
      OffsetTail(parts, j - 1);
    }
  }

  lemma {:induction false} FirstStatement(q: Quote, s: string, cur: string)
    requires Statements(q, s, cur) != []
    ensures var p := Statements(q, s, cur)[0];
      && |cur| <= |p| <= |cur| + |s| && p == cur + s[..|p| - |cur|]
      && (|Statements(q, s, cur)| > 1 ==> |p| < |cur| + |s|)
      && (|p| < |cur| + |s| ==>
            var k := |p| - |cur|;
            && After(q, s[..k]).Out? && Separator(s[k])
            && Statements(q, s, cur)[1..] == Statements(Out, s[k + 1..], []))
    decreases |s|
  {
    if s == [] {
      assert cur + s[..0] == cur;
    } else if q.Out? && Separator(s[0]) {
      assert s[..0] == [] && cur + s[..0] == cur;
      assert Statements(q, s, cur)[1..] == Statements(Out, s[1..], []);
    } else {
      FirstStatement(Next(q, s[0]), s[1..], cur + [s[0]]);
      var p := Statements(q, s, cur)[0];
      var k := |p| - |cur|;
      assert cur + [s[0]] + s[1..][..k - 1] == cur + s[..k];
      assert s[..k][1..] == s[1..][..k - 1];
      if k < |s| {
        assert s[1..][k..] == s[k + 1..];
      }
    }
  }

  /** `p` is the statement at offset `o`: both of its ends are outside every literal. */
  predicate StatementAt(s: string, o: nat, p: string) {
    && o + |p| <= |s| && p == s[o..o + |p|]
    && After(Out, s[..o]).Out?
    && (o + |p| < |s| ==> After(Out, s[..o + |p|]).Out? && Separator(s[o + |p|]))
  }

  /** Past a separator outside every literal, the text is scanned as if it started there. */
  lemma Prefixes(s: string, n: nat, o: nat)
    requires n + 1 + o <= |s| && After(Out, s[..n]).Out? && Separator(s[n])
    ensures After(Out, s[..n + 1 + o]) == After(Out, s[n + 1..][..o])
  {
    var t := s[n + 1..];
    assert s[..n + 1 + o] == s[..n] + ([s[n]] + t[..o]);
    AfterConcat(Out, s[..n], [s[n]] + t[..o]);
    assert ([s[n]] + t[..o])[1..] == t[..o];
  }

  lemma Shifted(s: string, n: nat, o: nat, p: string)
    requires n < |s| && After(Out, s[..n]).Out? && Separator(s[n]) && StatementAt(s[n + 1..], o, p)
    ensures StatementAt(s, n + 1 + o, p)
  {
    hide After;
    Prefixes(s, n, o);
    Prefixes(s, n, o + |p|);
    assert s[n + 1..][o..o + |p|] == s[n + 1 + o..n + 1 + o + |p|];
  }

  lemma FirstFound(s: string)
    requires Statements(Out, s, []) != []
    ensures StatementAt(s, 0, Statements(Out, s, [])[0])
  {
    hide Statements;
    FirstStatement(Out, s, []);
    var p := Statements(Out, s, [])[0];
    assert [] + s[..|p|] == s[..|p|];
    assert s[..0] == [];
  }

  lemma {:induction false} StatementFound(s: string, j: nat)
    requires j < |Statements(Out, s, [])|
    ensures StatementAt(s, Offset(Statements(Out, s, []), j), Statements(Out, s, [])[j])
    decreases j
  {
    hide Statements, After, StatementAt;
    var parts := Statements(Out, s, []);
    if j == 0 {
      FirstFound(s);
    } else {
      FirstStatement(Out, s, []);
      var n := |parts[0]|;
      assert [] + s[..n] == s[..n];
      assert parts[1..] == Statements(Out, s[n + 1..], []);
      StatementFound(s[n + 1..], j - 1);
      OffsetTail(parts, j);
      Shifted(s, n, Offset(parts[1..], j - 1), parts[j]);
    }
  }

  /** The scanners agree: each statement starts outside every literal of the text, so scanning it
      on its own, from its start, finds the very literals the text has there; and it ends at a
      separator that is outside every literal. */
  lemma StatementsAgreeWithText(s: string, j: nat, k: nat)
    requires j < |Statements(Out, s, [])| && k <= |Statements(Out, s, [])[j]|
    ensures
      var parts := Statements(Out, s, []);
      var o := Offset(parts, j);
      && StatementAt(s, o, parts[j])
      && After(Out, parts[j][..k]) == After(Out, s[..o + k])
  {
    hide Statements, After;
    StatementFound(s, j);
    var parts := Statements(Out, s, []);
    var o := Offset(parts, j);
    AfterConcat(Out, s[..o], parts[j][..k]);
    assert s[..o + k] == s[..o] + parts[j][..k];
  }
}
