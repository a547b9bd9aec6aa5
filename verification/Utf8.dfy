/** UTF-8 as Rust strings use it: validity after section 4 of RFC 3629, and the lossy conversion
    that replaces each ill-formed piece by U+FFFD.
 */
module Utf8 {

  type byte = x: int | 0 <= x < 256

  predicate Continues(s: seq<byte>, i: nat) {
    i < |s| && 0x80 <= s[i] <= 0xbf
  }

  /** The second byte of a sequence that starts with `lead`. */
  predicate SecondOk(lead: byte, s: seq<byte>)
  {
    |s| > 1 &&
    (if lead == 0xe0 then 0xa0 <= s[1] <= 0xbf
     else if lead == 0xed then 0x80 <= s[1] <= 0x9f
     else if lead == 0xf0 then 0x90 <= s[1] <= 0xbf
     else if lead == 0xf4 then 0x80 <= s[1] <= 0x8f
     else 0x80 <= s[1] <= 0xbf)
  }

  /** The length a first byte announces; 0 if none starts with it. */
  function Announced(lead: byte): nat {
    if lead < 0x80 then 1
    else if 0xc2 <= lead <= 0xdf then 2
    else if 0xe0 <= lead <= 0xef then 3
    else if 0xf0 <= lead <= 0xf4 then 4
    else 0
  }

  /** The length of the character at the front, 0 if the bytes there are ill-formed. */
  function CharLength(s: seq<byte>): (n: nat)
    requires s != []
    ensures n <= |s|
  {
    var n := Announced(s[0]);
    if n <= 1 || (SecondOk(s[0], s) && (n > 2 ==> Continues(s, 2)) && (n > 3 ==> Continues(s, 3))) then n else 0
  }

  predicate Valid(s: seq<byte>)
    decreases |s|
  {
    s == [] || (CharLength(s) > 0 && Valid(s[CharLength(s)..]))
  }

  // ----- what valid bytes are: the encodings of Unicode scalar values (section 3 of RFC 3629) ----------------

  predicate Scalar(c: nat) {
    c < 0xd800 || 0xe000 <= c < 0x11_0000
  }

  /** The bits of a character, six in each byte behind the first. */
  function Encoded(c: nat): (s: seq<byte>)
    requires Scalar(c)
    ensures s != []
  {
    if c < 0x80 then [c]
    else if c < 0x800 then [0xc0 + c / 0x40, 0x80 + c % 0x40]
    else if c < 0x1_0000 then [0xe0 + c / 0x1000, 0x80 + c / 0x40 % 0x40, 0x80 + c % 0x40]
    else [0xf0 + c / 0x4_0000, 0x80 + c / 0x1000 % 0x40, 0x80 + c / 0x40 % 0x40, 0x80 + c % 0x40]
  }

  lemma ScalarIsCharacter(c: nat, rest: seq<byte>)
    requires Scalar(c)
    ensures CharLength(Encoded(c) + rest) == |Encoded(c)|
  {
    var e := Encoded(c);
    if c < 0x80 {
      FirstBytes(e, rest);
    } else if c < 0x800 {
      FirstBytes(e, rest);
    } else if c < 0x1_0000 {
      ThreeByteLead(c);
      FirstBytes(e, rest);
    } else {
      FourByteLead(c);
      FirstBytes(e, rest);
    }
  }

  lemma FirstBytes(e: seq<byte>, rest: seq<byte>)
    requires e != [] && CharLength(e) == |e|
    ensures CharLength(e + rest) == |e|
  {
  }

  lemma ThreeByteLead(c: nat)
    requires 0x800 <= c < 0x1_0000 && Scalar(c)
    ensures CharLength(Encoded(c)) == 3
  {
    var a, b := c / 0x1000, c / 0x40 % 0x40;
    assert a == 0 ==> b >= 0x20;
    assert a == 0xd ==> b < 0x20;
  }

  lemma FourByteLead(c: nat)
    requires 0x1_0000 <= c < 0x11_0000
    ensures CharLength(Encoded(c)) == 4
  {
    var a, b := c / 0x4_0000, c / 0x1000 % 0x40;
    assert a == 0 ==> b >= 0x10;
    assert a == 4 ==> b < 0x10;
  }

  lemma SixBits(q: nat, b: nat)
    requires b < 0x40
    ensures (q * 0x40 + b) / 0x40 == q && (q * 0x40 + b) % 0x40 == b
  {
  }

  lemma TwoBytes(a: byte, b: byte) returns (c: nat)
    requires 0xc2 <= a <= 0xdf && 0x80 <= b <= 0xbf
    ensures Scalar(c) && Encoded(c) == [a, b]
  {
    c := (a as int - 0xc0) * 0x40 + (b as int - 0x80);
    SixBits(a as int - 0xc0, b as int - 0x80);
  }

  lemma ThreeBytes(a: byte, b: byte, d: byte) returns (c: nat)
    requires 0xe0 <= a <= 0xef && 0x80 <= b <= 0xbf && 0x80 <= d <= 0xbf
    requires (a == 0xe0 ==> b >= 0xa0) && (a == 0xed ==> b <= 0x9f)
    ensures Scalar(c) && Encoded(c) == [a, b, d]
  {
    var q := (a as int - 0xe0) * 0x40 + (b as int - 0x80);
    c := q * 0x40 + (d as int - 0x80);
    SixBits(a as int - 0xe0, b as int - 0x80);
    SixBits(q, d as int - 0x80);
    DividedTwice(c);
  }

  lemma FourBytes(a: byte, b: byte, d: byte, e: byte) returns (c: nat)
    requires 0xf0 <= a <= 0xf4 && 0x80 <= b <= 0xbf && 0x80 <= d <= 0xbf && 0x80 <= e <= 0xbf
    requires (a == 0xf0 ==> b >= 0x90) && (a == 0xf4 ==> b <= 0x8f)
    ensures Scalar(c) && Encoded(c) == [a, b, d, e]
  {
    var p := (a as int - 0xf0) * 0x40 + (b as int - 0x80);
    var q := p * 0x40 + (d as int - 0x80);
    c := q * 0x40 + (e as int - 0x80);
    SixBits(a as int - 0xf0, b as int - 0x80);
    SixBits(p, d as int - 0x80);
    SixBits(q, e as int - 0x80);
    DividedTwice(c);
    DividedTwice(q);
    DividedThrice(c);
  }

  lemma DividedTwice(c: nat)
    ensures c / 0x40 / 0x40 == c / 0x1000
  {
  }

  lemma DividedThrice(c: nat)
    ensures c / 0x40 / 0x40 / 0x40 == c / 0x4_0000
  {
  }

  lemma CharacterIsScalar(s: seq<byte>) returns (c: nat)
    requires s != [] && CharLength(s) > 0
    ensures Scalar(c) && s[..CharLength(s)] == Encoded(c)
  {
    var n := CharLength(s);
    if n == 1 {
      c := s[0];
      assert s[..1] == [s[0]];
    } else if n == 2 {
      c := TwoBytes(s[0], s[1]);
      assert s[..2] == [s[0], s[1]];
    } else if n == 3 {
      c := ThreeBytes(s[0], s[1], s[2]);
      assert s[..3] == [s[0], s[1], s[2]];
    } else {
      c := FourBytes(s[0], s[1], s[2], s[3]);
      assert s[..4] == [s[0], s[1], s[2], s[3]];
    }
  }

  predicate Scalars(cs: seq<nat>) {
    forall i :: 0 <= i < |cs| ==> Scalar(cs[i])
  }

  function EncodedAll(cs: seq<nat>): seq<byte>
    requires Scalars(cs)
  {
    if cs == [] then [] else Encoded(cs[0]) + EncodedAll(cs[1..])
  }

  /** Every sequence of scalar values is encoded as valid bytes. */
  lemma {:induction false} EncodingIsValid(cs: seq<nat>)
    requires Scalars(cs)
    ensures Valid(EncodedAll(cs))
    decreases |cs|
  {
    hide CharLength, Encoded;
    if cs != [] {
      var rest := EncodedAll(cs[1..]);
      EncodingIsValid(cs[1..]);
      ScalarIsCharacter(cs[0], rest);
      assert (Encoded(cs[0]) + rest)[|Encoded(cs[0])|..] == rest;
    }
  }

  /** And valid bytes are nothing else. */
  lemma {:induction false} ValidIsEncoding(s: seq<byte>) returns (cs: seq<nat>)
    requires Valid(s)
    ensures Scalars(cs) && EncodedAll(cs) == s
    decreases |s|
  {
    hide CharLength, Encoded, Scalar;
    if s == [] {
      cs := [];
    } else {
      var c := CharacterIsScalar(s);
      var more := ValidIsEncoding(s[CharLength(s)..]);
      cs := [c] + more;
      assert cs[1..] == more;
    }
  }

  /** A Rust `String`. */
  type Str = s: seq<byte> | Valid(s)

  /** How much of an ill-formed front one replacement character stands for. */
  function BadLength(s: seq<byte>): (n: nat)
    requires s != []
    ensures 0 < n <= |s|
  {
    if Announced(s[0]) < 3 || !SecondOk(s[0], s) then 1
    else if Announced(s[0]) == 3 || !Continues(s, 2) then 2
    else 3
  }

  const REPLACEMENT: seq<byte> := [0xef, 0xbf, 0xbd]

  /** `String::from_utf8_lossy` */
  function Lossy(s: seq<byte>): seq<byte>
    decreases |s|
  {
    if s == [] then []
    else if CharLength(s) > 0 then s[..CharLength(s)] + Lossy(s[CharLength(s)..])
    else REPLACEMENT + Lossy(s[BadLength(s)..])
  }

  lemma CharThenValid(c: seq<byte>, rest: seq<byte>)
    requires c != [] && CharLength(c) == |c| && Valid(rest)
    ensures Valid(c + rest)
  {
    assert CharLength(c + rest) == |c|;
    assert (c + rest)[|c|..] == rest;
  }

  lemma CharAlone(s: seq<byte>)
    requires s != [] && CharLength(s) > 0
    ensures CharLength(s[..CharLength(s)]) == CharLength(s)
  {
  }

  lemma {:induction false} LossyIsValid(s: seq<byte>)
    ensures Valid(Lossy(s))
    decreases |s|
  {
    if s != [] {
      if CharLength(s) > 0 {
        CharAlone(s);
        LossyIsValid(s[CharLength(s)..]);
        CharThenValid(s[..CharLength(s)], Lossy(s[CharLength(s)..]));
      } else {
        LossyIsValid(s[BadLength(s)..]);
        CharThenValid(REPLACEMENT, Lossy(s[BadLength(s)..]));
      }
    }
  }

  lemma {:induction false} LossyKeepsValid(s: seq<byte>)
    requires Valid(s)
    ensures Lossy(s) == s
    decreases |s|
  {
    if s != [] {
      LossyKeepsValid(s[CharLength(s)..]);
    }
  }

  lemma CharKept(a: seq<byte>, b: seq<byte>)
    requires a != [] && CharLength(a) > 0
    ensures CharLength(a + b) == CharLength(a)
  {
  }

  /** The valid text before an ill-formed piece is kept. */
  lemma {:induction false} LossyKeepsFront(a: seq<byte>, b: seq<byte>)
    requires Valid(a)
    ensures Lossy(a + b) == a + Lossy(b)
    decreases |a|
  {
    hide CharLength, BadLength;
    if a == [] {
      assert a + b == b && [] + Lossy(b) == Lossy(b);
    } else {
      var n := CharLength(a);
      CharKept(a, b);
      LossyKeepsFront(a[n..], b);
      assert (a + b)[n..] == a[n..] + b && (a + b)[..n] == a[..n];
      assert a[..n] + (a[n..] + Lossy(b)) == a + Lossy(b);
    }
  }

  /** The bytes are the beginning of a character. */
  ghost predicate Begins(p: seq<byte>) {
    exists c: nat :: Scalar(c) && p <= Encoded(c)
  }

  lemma BeginsTwo(a: byte, b: byte)
    requires Announced(a) > 1 && SecondOk(a, [a, b])
    ensures Begins([a, b])
  {
    hide Encoded, Scalar;
    var c: nat;
    if Announced(a) == 2 {
      c := TwoBytes(a, b);
    } else if Announced(a) == 3 {
      c := ThreeBytes(a, b, 0x80);
    } else {
      c := FourBytes(a, b, 0x80, 0x80);
    }
    assert [a, b] <= Encoded(c);
  }

  lemma BeginsThree(a: byte, b: byte, d: byte)
    requires Announced(a) > 2 && SecondOk(a, [a, b]) && 0x80 <= d <= 0xbf
    ensures Begins([a, b, d])
  {
    hide Encoded, Scalar;
    var c: nat;
    if Announced(a) == 3 {
      c := ThreeBytes(a, b, d);
    } else {
      c := FourBytes(a, b, d, 0x80);
    }
    assert [a, b, d] <= Encoded(c);
  }

  lemma BeginsFour(a: byte, b: byte, d: byte, e: byte)
    requires Announced(a) == 4 && SecondOk(a, [a, b]) && 0x80 <= d <= 0xbf && 0x80 <= e <= 0xbf
    ensures Begins([a, b, d, e])
  {
    hide Encoded, Scalar;
    var c := FourBytes(a, b, d, e);
    assert [a, b, d, e] <= Encoded(c);
  }

  /** What the beginning of a character looks like. */
  lemma BeginningIs(p: seq<byte>)
    requires |p| > 1 && Begins(p)
    ensures |p| <= Announced(p[0]) && SecondOk(p[0], p)
    ensures (|p| > 2 ==> Continues(p, 2)) && (|p| > 3 ==> Continues(p, 3))
  {
    hide Encoded, Scalar;
    var c: nat :| Scalar(c) && p <= Encoded(c);
    ScalarIsCharacter(c, []);
    assert Encoded(c) + [] == Encoded(c);
  }

  /** Where a beginning goes on. */
  lemma GoesOn(p: seq<byte>, s: seq<byte>)
    requires p != [] && s != [] && (|p| > 1 ==> Begins(p))
    ensures |p| == 1 && Announced(p[0]) > 1 && SecondOk(p[0], p + s) ==> Begins(p + [s[0]])
    ensures |p| == 2 && Announced(p[0]) > 2 && Continues(p + s, 2) ==> Begins(p + [s[0]])
    ensures |p| == 3 && Announced(p[0]) > 3 && Continues(p + s, 3) ==> Begins(p + [s[0]])
  {
    hide Encoded, Scalar, Begins;
    var t := p + s;
    if |p| > 1 {
      BeginningIs(p);
    }
    if |p| == 1 && Announced(p[0]) > 1 && SecondOk(p[0], t) {
      BeginsTwo(p[0], s[0]);
      assert p + [s[0]] == [p[0], s[0]];
    } else if |p| == 2 && Announced(p[0]) > 2 && Continues(t, 2) {
      BeginsThree(p[0], p[1], s[0]);
      assert p + [s[0]] == [p[0], p[1], s[0]];
    } else if |p| == 3 && Announced(p[0]) > 3 && Continues(t, 3) {
      BeginsFour(p[0], p[1], p[2], s[0]);
      assert p + [s[0]] == [p[0], p[1], p[2], s[0]];
    }
  }

  /** A beginning as long as it announces is a character. */
  lemma WholeIsCharacter(p: seq<byte>)
    requires p != [] && (|p| > 1 ==> Begins(p))
    ensures |p| == Announced(p[0]) ==> exists c: nat :: Scalar(c) && p == Encoded(c)
  {
    hide Encoded, Scalar, Begins;
    if |p| > 1 {
      BeginningIs(p);
    }
    if |p| == Announced(p[0]) {
      WholeIsEncoded(p);
    }
  }

  /** How long an ill-formed piece is: a byte, or as much as begins a character, up to where no character
      goes on in that way. */
  lemma PieceIs(p: seq<byte>, s: seq<byte>)
    requires p != [] && (|p| == 1 || Begins(p)) && forall c: nat :: Scalar(c) ==> p != Encoded(c)
    requires s == [] || !Begins(p + [s[0]])
    ensures CharLength(p + s) == 0 && BadLength(p + s) == |p|
  {
    hide Encoded, Scalar, Begins;
    if |p| > 1 {
      BeginningIs(p);
    }
    WholeIsCharacter(p);
    if s != [] {
      GoesOn(p, s);
    }
  }

  lemma WholeIsEncoded(p: seq<byte>)
    requires p != [] && CharLength(p) == |p|
    ensures exists c: nat :: Scalar(c) && p == Encoded(c)
  {
    hide Encoded, Scalar, CharLength;
    var c := CharacterIsScalar(p);
    assert p[..|p|] == p;
  }

  /** Each ill-formed piece becomes one U+FFFD, 0xef 0xbf 0xbd: a byte that begins no character, or the
      beginning of a character up to where no character goes on in that way. */
  lemma PieceIsReplaced(p: seq<byte>, s: seq<byte>)
    requires p != [] && (|p| == 1 || Begins(p)) && forall c: nat :: Scalar(c) ==> p != Encoded(c)
    requires s == [] || !Begins(p + [s[0]])
    ensures Lossy(p + s) == [0xef, 0xbf, 0xbd] + Lossy(s)
  {
    hide Encoded, Scalar, Begins, CharLength, BadLength;
    PieceIs(p, s);
    assert (p + s)[|p|..] == s;
  }

  lemma {:induction false} ValidConcat(a: seq<byte>, b: seq<byte>)
    requires Valid(a) && Valid(b)
    ensures Valid(a + b)
    decreases |a|
  {
    hide CharLength;
    if a == [] {
      assert a + b == b;
    } else {
      var n := CharLength(a);
      CharAlone(a);
      ValidConcat(a[n..], b);
      CharThenValid(a[..n], a[n..] + b);
      assert a[..n] + (a[n..] + b) == a + b;
    }
  }

  lemma {:induction false} AsciiIsValid(s: seq<byte>)
    requires forall i :: 0 <= i < |s| ==> s[i] < 0x80
    ensures Valid(s)
    decreases |s|
  {
    if s != [] {
      AsciiIsValid(s[1..]);
    }
  }
}
