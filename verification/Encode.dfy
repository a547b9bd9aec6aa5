/** `encode_pcrel_field` (src/nyxstone_glue.c): choosing the form of a relocation by its howto
    and writing the value into the section image in place.
 */
module Encode {
  import opened Options
  import opened Fields

  /** The cast `(uint32_t) v`. */
  function U32(v: bv64): bv32 {
    (v & 0xffff_ffff) as bv32
  }

  // ----- little-endian words in a byte buffer ---------------------------------------------

  /** Byte `i` of a word: `(uint8_t) (w >> 8 * i)`. */
  function LeByte(w: bv32, i: nat): bv8
    requires i < 4
  {
    if i == 0 then (w & 0xff) as bv8
    else if i == 1 then ((w >> 8) & 0xff) as bv8
    else if i == 2 then ((w >> 16) & 0xff) as bv8
    else (w >> 24) as bv8
  }

  /** Byte `b` at position `i` of a word: `(uint32_t) b << 8 * i`. */
  function Lane(b: bv8, i: nat): bv32
    requires i < 4
  {
    if i == 0 then b as bv32
    else if i == 1 then (b as bv32) << 8
    else if i == 2 then (b as bv32) << 16
    else (b as bv32) << 24
  }

  /** One step of the reading loop. */
  function OrByte(w: bv32, b: bv8, i: nat): bv32
    requires i < 4
  {
    w | Lane(b, i)
  }

  function LeWord(s: seq<bv8>, at: nat, n: nat): bv32
    requires n <= 4 && at + n <= |s|
  {
    if n == 0 then 0 else OrByte(LeWord(s, at, n - 1), s[at + n - 1], n - 1)
  }

  function WithLe(s: seq<bv8>, at: nat, n: nat, w: bv32): (r: seq<bv8>)
    requires n <= 4 && at + n <= |s|
    ensures |r| == |s|
  {
    seq(|s|, k requires 0 <= k < |s| => if at <= k < at + n then LeByte(w, k - at) else s[k])
  }

  method ReadLe(buf: array<bv8>, at: nat, n: nat) returns (w: bv32)
    requires n <= 4 && at + n <= buf.Length
    ensures w == LeWord(buf[..], at, n)
  {
    hide OrByte;
    w := 0;
    for i := 0 to n
      invariant w == LeWord(buf[..], at, i)
    {
      w := OrByte(w, buf[at + i], i);
    }
  }

  method WriteLe(buf: array<bv8>, at: nat, n: nat, w: bv32)
    requires n <= 4 && at + n <= buf.Length
    modifies buf
    ensures buf[..] == WithLe(old(buf[..]), at, n, w)
  {
    for i := 0 to n
      invariant buf[..] == WithLe(old(buf[..]), at, i, w)
    {
      buf[at + i] := LeByte(w, i);
    }
  }

  lemma Lane1(b: bv8)
    ensures Lane(b, 1) == (b as bv32) << 8
  {
  }

  lemma Lane2(b: bv8)
    ensures Lane(b, 2) == (b as bv32) << 16
  {
  }

  lemma Lane3(b: bv8)
    ensures Lane(b, 3) == (b as bv32) << 24
  {
  }

  lemma Join1(w: bv32)
    ensures 0 | (((w & 0xff) as bv8) as bv32) == w & 0xff
  {
  }

  lemma Join2(w: bv32)
    ensures 0 | (((w & 0xff) as bv8) as bv32) | ((((w >> 8) & 0xff) as bv8 as bv32) << 8) == w & 0xffff
  {
  }

  lemma Join4(w: bv32)
    ensures 0 | (((w & 0xff) as bv8) as bv32) | ((((w >> 8) & 0xff) as bv8 as bv32) << 8)
            | ((((w >> 16) & 0xff) as bv8 as bv32) << 16) | (((w >> 24) as bv8 as bv32) << 24) == w
  {
  }

  lemma Bytes1(w: bv32)
    ensures OrByte(0, LeByte(w, 0), 0) == w & 0xff
  {
    Join1(w);
  }

  lemma Bytes2(w: bv32)
    ensures OrByte(OrByte(0, LeByte(w, 0), 0), LeByte(w, 1), 1) == w & 0xffff
  {
    Join2(w);
    Lane1(LeByte(w, 1));
  }

  lemma Bytes4(w: bv32)
    ensures OrByte(OrByte(OrByte(OrByte(0, LeByte(w, 0), 0), LeByte(w, 1), 1), LeByte(w, 2), 2), LeByte(w, 3), 3) == w
  {
    Join4(w);
    Lane1(LeByte(w, 1));
    Lane2(LeByte(w, 2));
    Lane3(LeByte(w, 3));
  }

  /** The low `n` bytes of a word. */
  function Cut(w: bv32, n: nat): bv32 {
    if n == 1 then w & 0xff else if n == 2 then w & 0xffff else w
  }

  /** What was written is read back, cut to its width. */
  lemma {:induction false} ReadBack(s: seq<bv8>, at: nat, n: nat, w: bv32)
    requires (n == 1 || n == 2 || n == 4) && at + n <= |s|
    ensures LeWord(WithLe(s, at, n, w), at, n) == Cut(w, n)
  {
    hide OrByte, LeByte;
    var r := WithLe(s, at, n, w);
    assert LeWord(r, at, 1) == OrByte(0, LeByte(w, 0), 0);
    if n == 1 {
      Bytes1(w);
    } else {
      assert LeWord(r, at, 2) == OrByte(LeWord(r, at, 1), LeByte(w, 1), 1);
      if n == 2 {
        Bytes2(w);
      } else {
        assert LeWord(r, at, 3) == OrByte(LeWord(r, at, 2), LeByte(w, 2), 2);
        assert LeWord(r, at, 4) == OrByte(LeWord(r, at, 3), LeByte(w, 3), 3);
        Bytes4(w);
      }
    }
  }

  /** A word is read with its lowest byte first. */
  lemma LowestByteFirst(s: seq<bv8>, at: nat)
    requires at + 4 <= |s|
    ensures LeWord(s, at, 1) == s[at] as bv32
    ensures LeWord(s, at, 2) == Or(s[at] as bv32, (s[at + 1] as bv32) << 8)
    ensures LeWord(s, at, 4) ==
            Or(LeWord(s, at, 2), Or((s[at + 2] as bv32) << 16, (s[at + 3] as bv32) << 24))
  {
    hide Or, OrByte, Lane;
    assert LeWord(s, at, 1) == OrByte(0, s[at], 0);
    assert LeWord(s, at, 2) == OrByte(LeWord(s, at, 1), s[at + 1], 1);
    assert LeWord(s, at, 3) == OrByte(LeWord(s, at, 2), s[at + 2], 2);
    assert LeWord(s, at, 4) == OrByte(LeWord(s, at, 3), s[at + 3], 3);
    OrByteIs(0, s[at], 0);
    OrByteIs(LeWord(s, at, 1), s[at + 1], 1);
    OrByteIs(LeWord(s, at, 2), s[at + 2], 2);
    OrByteIs(LeWord(s, at, 3), s[at + 3], 3);
    Lane0(s[at]);
    Lane1(s[at + 1]);
    Lane2(s[at + 2]);
    Lane3(s[at + 3]);
    OrZero(s[at] as bv32);
    OrTwice(LeWord(s, at, 2), (s[at + 2] as bv32) << 16, (s[at + 3] as bv32) << 24);
  }

  function Or(a: bv32, b: bv32): bv32 {
    a | b
  }

  lemma OrByteIs(w: bv32, b: bv8, i: nat)
    requires i < 4
    ensures OrByte(w, b, i) == Or(w, Lane(b, i))
  {
    hide Lane;
  }

  lemma Lane0(b: bv8)
    ensures Lane(b, 0) == b as bv32
  {
  }

  lemma OrZero(a: bv32)
    ensures Or(0, a) == a
  {
  }

  lemma OrTwice(a: bv32, b: bv32, c: bv32)
    ensures Or(Or(a, b), c) == Or(a, Or(b, c))
  {
  }

  // ----- the howto picks the form ---------------------------------------------------------------

  /** The parts of bfd's `reloc_howto_type` that the encoder looks at. */
  datatype Howto = Howto(name: Option<string>, dstMask: nat, bitpos: nat, pcRelative: bool, elfType: bv32)

  /** What a howto asks for: a plain little-endian data field, an instruction field, an `sm:`
      prefix (never legal on a resolved value), or a form the encoder does not know. */
  datatype Kind = Data(bytes: nat) | Insn(form: Form) | SmPrefix | Unknown

  /** The name without its `R_TRICORE_` prefix, if it has one. */
  function Suffix(name: string): string {
    if "R_TRICORE_" <= name then name[10..] else name
  }

  function InsnKind(r: string): Kind {
    if r == "24REL" then Insn(Rel24)
    else if r == "24ABS" then Insn(Abs24)
    else if r == "18ABS" then Insn(Abs18)
    else if r == "18ABS_14" then Insn(Abs18Page)
    else if r == "HI" then Insn(Hi)
    else if r == "HIADJ" then Insn(HiAdj)
    else if r == "LO" then Insn(Lo)
    else if r == "16CONST" then Insn(Const16)
    else if r == "LO2" then Insn(Lo2)
    else if r == "16OFF" then Insn(Off16)
    else if r == "10OFF" then Insn(Off10)
    else if r == "15REL" then Insn(Rel15)
    else if r == "8REL" then Insn(Rel8)
    else if r == "4REL" then Insn(Rel4)
    else if r == "4REL2" then Insn(Rel4Back)
    else if r == "5REL" then Insn(Rel5)
    else if r == "9SCONST" then Insn(SConst9)
    else if r == "9ZCONST" then Insn(ZConst9)
    else if r == "8CONST" then Insn(Const8)
    else if r == "16SM" || r == "10SM" || r == "16SM2" then SmPrefix
    else Unknown
  }

  function KindOf(h: Howto): (k: Kind)
    requires h.name.Some?
    ensures k.Data? ==> k.bytes == 1 || k.bytes == 2 || k.bytes == 4
  {
    var r := Suffix(h.name.value);
    if r == "32ABS" || r == "32REL" || h.dstMask == 0xffff_ffff then Data(4)
    else if r == "16ABS" || (h.dstMask == 0xffff && h.bitpos == 0) then Data(2)
    else if r == "8ABS" || (h.dstMask == 0xff && h.bitpos == 0) then Data(1)
    else InsnKind(r)
  }

  /** The forms by the names of their relocations. */
  const FORMS: seq<(string, Form)> := [
    ("24REL", Rel24), ("24ABS", Abs24), ("18ABS", Abs18), ("18ABS_14", Abs18Page), ("HI", Hi), ("HIADJ", HiAdj),
    ("LO", Lo), ("16CONST", Const16), ("LO2", Lo2), ("16OFF", Off16), ("10OFF", Off10), ("15REL", Rel15),
    ("8REL", Rel8), ("4REL", Rel4), ("4REL2", Rel4Back), ("5REL", Rel5), ("9SCONST", SConst9), ("9ZCONST", ZConst9),
    ("8CONST", Const8)]

  /** What a mask says on its own: all bits of 4, 2 or 1 bytes, at bit 0 unless there are 4. */
  predicate PlainMask(h: Howto) {
    h.dstMask == 0xffff_ffff || ((h.dstMask == 0xffff || h.dstMask == 0xff) && h.bitpos == 0)
  }

  /** Each name stands for its form, with or without the `R_TRICORE_` in front. */
  lemma NamesOfForms(h: Howto, i: nat, prefix: bool)
    requires i < |FORMS| && h.name == Some((if prefix then "R_TRICORE_" else "") + FORMS[i].0) && !PlainMask(h)
    ensures KindOf(h) == Insn(FORMS[i].1)
  {
    hide InsnKind;
    SuffixOf(FORMS[i].0, prefix);
    NoPrefix(i);
    KindOfForm(i);
  }

  lemma SuffixOf(r: string, prefix: bool)
    requires !("R_TRICORE_" <= r)
    ensures Suffix((if prefix then "R_TRICORE_" else "") + r) == r
  {
    if prefix {
      assert ("R_TRICORE_" + r)[..10] == "R_TRICORE_" && ("R_TRICORE_" + r)[10..] == r;
    } else {
      assert "" + r == r;
    }
  }

  lemma NoPrefix(i: nat)
    requires i < |FORMS|
    ensures !("R_TRICORE_" <= FORMS[i].0)
    ensures FORMS[i].0 !in ["32ABS", "32REL", "16ABS", "8ABS"]
  {
  }

  lemma KindOfForm(i: nat)
    requires i < |FORMS|
    ensures InsnKind(FORMS[i].0) == Insn(FORMS[i].1)
  {
  }

  /** Data forms: by name, or by a mask that covers whole bytes. */
  lemma DataForms(h: Howto)
    requires h.name.Some?
    ensures
      var name, mask, low := h.name.value, h.dstMask, h.bitpos == 0;
      if name in ["R_TRICORE_32ABS", "R_TRICORE_32REL", "32ABS", "32REL"] || mask == 0xffff_ffff then
        KindOf(h) == Data(4)
      else if name in ["R_TRICORE_16ABS", "16ABS"] || (mask == 0xffff && low) then KindOf(h) == Data(2)
      else name in ["R_TRICORE_8ABS", "8ABS"] || (mask == 0xff && low) ==> KindOf(h) == Data(1)
  {
    hide InsnKind, Suffix;
    var name := h.name.value;
    SuffixIff(name, "32ABS");
    SuffixIff(name, "32REL");
    SuffixIff(name, "16ABS");
    SuffixIff(name, "8ABS");
    assert "R_TRICORE_" + "32ABS" == "R_TRICORE_32ABS" && "R_TRICORE_" + "32REL" == "R_TRICORE_32REL";
    assert "R_TRICORE_" + "16ABS" == "R_TRICORE_16ABS" && "R_TRICORE_" + "8ABS" == "R_TRICORE_8ABS";
  }

  predicate Named(h: Howto, r: string)
    requires h.name.Some?
  {
    h.name.value == r || h.name.value == "R_TRICORE_" + r
  }

  /** The names of the SM forms, and those of the data forms. */
  const SPECIAL: seq<string> := ["16SM", "10SM", "16SM2", "32ABS", "32REL", "16ABS", "8ABS"]

  /** The three forms that are never legal on a resolved value; and a name that is none of all these, nor
      one of the data names, is unknown. */
  lemma OtherForms(h: Howto)
    requires h.name.Some? && !PlainMask(h)
    ensures Named(h, "16SM") || Named(h, "10SM") || Named(h, "16SM2") ==> KindOf(h) == SmPrefix
    ensures (forall i :: 0 <= i < |SPECIAL| ==> !Named(h, SPECIAL[i]))
            && (forall i :: 0 <= i < |FORMS| ==> !Named(h, FORMS[i].0)) ==>
              KindOf(h) == Unknown
  {
    hide Suffix, InsnKind, Named;
    var r := Suffix(h.name.value);
    SpecialNames();
    forall i | 0 <= i < |SPECIAL|
      ensures r == SPECIAL[i] <==> Named(h, SPECIAL[i])
    {
      NamedIff(h, SPECIAL[i]);
    }
    assert r == SPECIAL[0] <==> Named(h, "16SM");
    assert r == SPECIAL[1] <==> Named(h, "10SM");
    assert r == SPECIAL[2] <==> Named(h, "16SM2");
    if (forall i :: 0 <= i < |SPECIAL| ==> !Named(h, SPECIAL[i]))
      && forall i :: 0 <= i < |FORMS| ==> !Named(h, FORMS[i].0) {
      forall i | 0 <= i < |FORMS|
        ensures r != FORMS[i].0
      {
        FormStarts(i);
        NamedIff(h, FORMS[i].0);
      }
      NoForm(r);
      assert r != SPECIAL[3] && r != SPECIAL[4] && r != SPECIAL[5] && r != SPECIAL[6];
    }
  }

  lemma NamedIff(h: Howto, r: string)
    requires h.name.Some? && r != [] && r[0] != 'R'
    ensures Suffix(h.name.value) == r <==> Named(h, r)
  {
    hide Suffix;
    SuffixIff(h.name.value, r);
  }

  lemma SpecialNames()
    ensures InsnKind("16SM") == InsnKind("10SM") == InsnKind("16SM2") == SmPrefix
    ensures forall i :: 0 <= i < |SPECIAL| ==> SPECIAL[i] != [] && SPECIAL[i][0] != 'R'
  {
  }

  lemma FormStarts(i: nat)
    requires i < |FORMS|
    ensures FORMS[i].0 != [] && FORMS[i].0[0] != 'R'
  {
  }

  lemma NoForm(r: string)
    requires (forall i :: 0 <= i < |FORMS| ==> r != FORMS[i].0) && forall i :: 0 <= i < 3 ==> r != SPECIAL[i]
    ensures InsnKind(r) == Unknown
  {
    assert r != FORMS[0].0 && r != FORMS[1].0 && r != FORMS[2].0 && r != FORMS[3].0 && r != FORMS[4].0;
    assert r != FORMS[5].0 && r != FORMS[6].0 && r != FORMS[7].0 && r != FORMS[8].0 && r != FORMS[9].0;
    assert r != FORMS[10].0 && r != FORMS[11].0 && r != FORMS[12].0 && r != FORMS[13].0 && r != FORMS[14].0;
    assert r != FORMS[15].0 && r != FORMS[16].0 && r != FORMS[17].0 && r != FORMS[18].0;
    assert r != SPECIAL[0] && r != SPECIAL[1] && r != SPECIAL[2];
  }

  lemma SuffixIff(name: string, r: string)
    requires r != [] && r[0] != 'R'
    ensures Suffix(name) == r <==> name == r || name == "R_TRICORE_" + r
  {
    if "R_TRICORE_" <= name {
      assert name == "R_TRICORE_" + name[10..];
      assert name[0] == 'R';
    }
    if name == "R_TRICORE_" + r {
      assert name[..10] == "R_TRICORE_" && name[10..] == r;
    }
  }

  /** The low bit of the first byte tells a 32-bit instruction from a 16-bit one. */
  function InsnLen(first: bv8): (n: nat)
    ensures n == 2 || n == 4
  {
    if first & 1 != 0 then 4 else 2
  }

  /** The number of bytes a relocation of this kind covers at `at`. */
  function FieldLen(s: seq<bv8>, at: nat, k: Kind): nat
    requires at < |s|
  {
    if k.Data? then k.bytes else InsnLen(s[at])
  }

  /** The field at `at` holds `v`. */
  ghost predicate Holds(s: seq<bv8>, at: nat, k: Kind, v: bv64)
    requires at < |s|
  {
    && at + FieldLen(s, at, k) <= |s|
    && match k
       case Data(n) => n <= 4 && LeWord(s, at, n) == Cut(U32(v), n)
       case Insn(form) => Decode(form, LeWord(s, at, InsnLen(s[at]))) == FieldValue(form, v)
       case _ => false
  }

  // ----- the encoder ------------------------------------------------------------------------------

  /** The image after the encoder ran on it, and the encoder's return code. */
  function Encoded(s: seq<bv8>, at: nat, h: Howto, v: bv64): (r: (seq<bv8>, int))
    ensures |r.0| == |s|
  {
    if at >= |s| || h.name.None? then (s, 0)
    else
      var k := KindOf(h);
      if at + FieldLen(s, at, k) > |s| then (s, 0)
      else
        match k
        case Data(n) => (WithLe(s, at, n, U32(v)), 1)
        case SmPrefix => (s, -1)
        case Unknown => (s, 0)
        case Insn(form) =>
          var len := InsnLen(s[at]);
          match Place(form, LeWord(s, at, len), v)
          case Illegal => (s, -1)
          case Word(op) => (WithLe(s, at, len, op), 1)
  }

  lemma LowHalf(w: bv32)
    ensures LeByte(w & 0xffff, 0) == LeByte(w, 0)
  {
  }

  lemma HighHalf(w: bv32)
    ensures LeByte(w & 0xffff, 1) == LeByte(w, 1)
  {
  }

  /** Masking a word to 16 bits changes nothing when only two bytes of it are written. */
  lemma TwoBytes(s: seq<bv8>, at: nat, w: bv32)
    requires at + 2 <= |s|
    ensures WithLe(s, at, 2, w & 0xffff) == WithLe(s, at, 2, w)
  {
    hide LeByte;
    LowHalf(w);
    HighHalf(w);
  }

  method EncodeField(buf: array<bv8>, at: nat, h: Howto, value: bv64) returns (rc: int)
    modifies buf
    ensures (buf[..], rc) == Encoded(old(buf[..]), at, h, value)
  {
    hide InsnKind, Suffix, WithLe, U32, Place, LeWord;
    if at >= buf.Length || h.name.None? {
      return 0;
    }
    var k := KindOf(h);
    if k == Data(4) {
      if at + 4 > buf.Length {
        return 0;
      }
      WriteLe(buf, at, 4, U32(value));
      return 1;
    }
    if k == Data(2) {
      if at + 2 > buf.Length {
        return 0;
      }
      TwoBytes(buf[..], at, U32(value));
      WriteLe(buf, at, 2, U32(value) & 0xffff);
      return 1;
    }
    if k == Data(1) {
      WriteLe(buf, at, 1, U32(value));
      return 1;
    }
    var len := InsnLen(buf[at]);
    if at + len > buf.Length {
      return 0;
    }
    var op := ReadLe(buf, at, len);
    match k
    case Insn(form) =>
      match Place(form, op, value) {
        case Illegal => return -1;
        case Word(w) =>
          WriteLe(buf, at, len, w);
          return 1;
      }
    case SmPrefix => return -1;
    case Unknown => return 0;
  }

  // ----- what an encoded field means ----------------------------------------------------------------

  /** Forms that live in the low 16 bits of the word, so in either instruction width. */
  predicate Short(form: Form) {
    form.Rel8? || form.Rel4? || form.Rel4Back? || form.Rel5? || form.Const8?
  }

  /** The width marker of the instruction at `at` leaves room for the field. */
  predicate MarkerFits(k: Kind, first: bv8) {
    k.Insn? ==> Short(k.form) || first & 1 != 0
  }

  /** No form touches the width marker. */
  lemma MarkerKept(form: Form, a: bv32, b: bv32)
    requires Same(Outside(form), b, a)
    ensures a & 1 == b & 1
  {
  }

  /** The upper half of the word is clear. */
  predicate Narrow(w: bv32) {
    w & 0xffff == w
  }

  lemma ShortKept(form: Form, v: bv64, a: bv32, b: bv32)
    requires Short(form) && Narrow(a) && Carries(form, a, v, b)
    ensures Narrow(b)
  {
    hide Decode, FieldValue;
  }

  lemma LowBitWritten(w: bv32)
    ensures LeByte(w, 0) & 1 == ((w & 1) as bv8)
  {
  }

  lemma LowBitOr(w: bv32, b: bv8, i: nat)
    requires 1 <= i < 4
    ensures OrByte(w, b, i) & 1 == w & 1
  {
    if i == 1 {
      Lane1(b);
    } else if i == 2 {
      Lane2(b);
    } else {
      Lane3(b);
    }
  }

  lemma LowBitFirst(b: bv8)
    ensures OrByte(0, b, 0) & 1 == ((b & 1) as bv32)
  {
  }

  /** The low bit of a word is the low bit of its first byte. */
  lemma {:induction false} LowBitRead(s: seq<bv8>, at: nat, n: nat)
    requires 1 <= n <= 4 && at + n <= |s|
    ensures LeWord(s, at, n) & 1 == ((s[at] & 1) as bv32)
  {
    hide OrByte;
    if n == 1 {
      LowBitFirst(s[at]);
    } else {
      LowBitRead(s, at, n - 1);
      LowBitOr(LeWord(s, at, n - 1), s[at + n - 1], n - 1);
    }
  }

  lemma HalfOr(w: bv32, b: bv8, c: bv8)
    ensures Narrow(OrByte(OrByte(0, b, 0), c, 1))
  {
    Lane1(c);
  }

  lemma HalfRead(s: seq<bv8>, at: nat)
    requires at + 2 <= |s|
    ensures Narrow(LeWord(s, at, 2))
  {
    hide OrByte, Narrow;
    assert LeWord(s, at, 1) == OrByte(0, s[at], 0);
    HalfOr(0, s[at], s[at + 1]);
  }

  lemma SameBit(a: bv8, b: bv8)
    requires (a & 1) as bv32 == (b & 1) as bv32
    ensures a & 1 == b & 1
  {
  }

  /** Placing a field keeps the width of its instruction. */
  lemma LenKept(s: seq<bv8>, at: nat, form: Form, v: bv64, op: bv32)
    requires at < |s| && at + InsnLen(s[at]) <= |s|
    requires Carries(form, LeWord(s, at, InsnLen(s[at])), v, op)
    ensures InsnLen(WithLe(s, at, InsnLen(s[at]), op)[at]) == InsnLen(s[at])
  {
    hide Outside, Decode, FieldValue, LeByte, LeWord;
    var len := InsnLen(s[at]);
    MarkerKept(form, LeWord(s, at, len), op);
    LowBitWritten(op);
    LowBitRead(s, at, len);
    SameBit(LeByte(op, 0), s[at]);
  }

  lemma PlacedIff(form: Form, op: bv32, v: bv64)
    ensures Place(form, op, v).Word? <==> Representable(form, v)
  {
    hide Decode, FieldValue, Outside, Place;
    assert PlacedRight(form, op, v, Place(form, op, v));
  }

  /** The return code, for every howto and every value: 0 outside the buffer and for unknown forms,
      -1 for the `sm:` prefixes and for values no instruction word of the form can carry, and 1 for
      data and for exactly the values some word can carry. */
  lemma EncodedIff(s: seq<bv8>, at: nat, h: Howto, v: bv64)
    ensures
      Encoded(s, at, h, v).1 ==
      if at >= |s| || h.name.None? then 0
      else if at + FieldLen(s, at, KindOf(h)) > |s| then 0
      else
        match KindOf(h)
        case Data(_) => 1
        case SmPrefix => -1
        case Unknown => 0
        case Insn(form) => if Representable(form, v) then 1 else -1
  {
    hide Place, Representable, Suffix, InsnKind, LeWord, LeByte, WithLe;
    if at < |s| && h.name.Some? && KindOf(h).Insn? && at + FieldLen(s, at, KindOf(h)) <= |s| {
      PlacedIff(KindOf(h).form, LeWord(s, at, InsnLen(s[at])), v);
    }
  }

  /** The encoder touches the bytes of the field only, and nothing unless it succeeds. */
  lemma EncodedFrame(s: seq<bv8>, at: nat, h: Howto, v: bv64)
    ensures Encoded(s, at, h, v).1 != 1 ==> Encoded(s, at, h, v).0 == s
    ensures Encoded(s, at, h, v).1 == 1 ==>
              && at < |s| && h.name.Some? && at + FieldLen(s, at, KindOf(h)) <= |s|
              && FieldLen(Encoded(s, at, h, v).0, at, KindOf(h)) == FieldLen(s, at, KindOf(h))
    ensures at < |s| && h.name.Some? ==>
              forall k | 0 <= k < |s| && !(at <= k < at + FieldLen(s, at, KindOf(h))) :: Encoded(s, at, h, v).0[k] ==
                s[k]
  {
    hide LeWord, LeByte, Place, Decode, FieldValue, Outside, Suffix, InsnKind, U32;
    if at < |s| && h.name.Some? {
      var k := KindOf(h);
      if at + FieldLen(s, at, k) <= |s| && k.Insn? {
        var op := LeWord(s, at, InsnLen(s[at]));
        match Place(k.form, op, v)
        case Illegal =>
        case Word(w) =>
          assert PlacedRight(k.form, op, v, Place(k.form, op, v));
          LenKept(s, at, k.form, v, w);
      }
    }
  }

  lemma DataHolds(s: seq<bv8>, at: nat, n: nat, v: bv64)
    requires (n == 1 || n == 2 || n == 4) && at + n <= |s|
    ensures Holds(WithLe(s, at, n, U32(v)), at, Data(n), v)
  {
    hide LeWord, LeByte, U32, Cut, WithLe;
    ReadBack(s, at, n, U32(v));
  }

  /** A 16-bit instruction: the upper half of the word stays clear, so nothing is lost. */
  lemma ShortWord(s: seq<bv8>, at: nat, form: Form, v: bv64, w: bv32)
    requires at + 2 <= |s| && Short(form) && Carries(form, LeWord(s, at, 2), v, w)
    ensures Narrow(w)
  {
    hide LeWord, Narrow, Carries;
    HalfRead(s, at);
    ShortKept(form, v, LeWord(s, at, 2), w);
  }

  lemma InsnHolds(s: seq<bv8>, at: nat, form: Form, v: bv64, w: bv32)
    requires at < |s| && at + InsnLen(s[at]) <= |s| && MarkerFits(Insn(form), s[at])
    requires Carries(form, LeWord(s, at, InsnLen(s[at])), v, w)
    ensures Holds(WithLe(s, at, InsnLen(s[at]), w), at, Insn(form), v)
  {
    hide LeWord, LeByte, Decode, FieldValue, Outside, WithLe;
    var len := InsnLen(s[at]);
    LenKept(s, at, form, v, w);
    assert LeWord(WithLe(s, at, len, w), at, len) == w by {
      ReadBack(s, at, len, w);
      if len == 2 {
        ShortWord(s, at, form, v, w);
      }
    }
  }

  lemma EncodedNameless(s: seq<bv8>, at: nat, h: Howto, v: bv64)
    requires h.name.None?
    ensures Encoded(s, at, h, v) == (s, 0)
  {
    hide WithLe, Place, LeWord, Suffix, InsnKind;
  }

  lemma EncodedCode(s: seq<bv8>, at: nat, h: Howto, v: bv64)
    ensures -1 <= Encoded(s, at, h, v).1 <= 1
  {
    hide WithLe, Place, LeWord, Suffix, InsnKind;
  }

  /** On success the field holds the value, if the width marker leaves room for the field, and an
      instruction keeps its width marker. */
  lemma EncodedHolds(s: seq<bv8>, at: nat, h: Howto, v: bv64)
    requires Encoded(s, at, h, v).1 == 1
    requires at < |s| && h.name.Some? ==> MarkerFits(KindOf(h), s[at])
    ensures at < |s| && h.name.Some? && Holds(Encoded(s, at, h, v).0, at, KindOf(h), v)
    ensures KindOf(h).Insn? ==> InsnLen(Encoded(s, at, h, v).0[at]) == InsnLen(s[at])
  {
    EncodedFrame(s, at, h, v);
    hide LeWord, LeByte, Place, Carries, Holds, Suffix, InsnKind, U32, WithLe, InsnLen;
    match KindOf(h)
    case Data(n) => DataHolds(s, at, n, v);
    case Insn(form) =>
      var op := LeWord(s, at, InsnLen(s[at]));
      assert PlacedRight(form, op, v, Place(form, op, v));
      InsnHolds(s, at, form, v, Place(form, op, v).op);
  }

  lemma {:induction false} LeWordFrame(s: seq<bv8>, t: seq<bv8>, at: nat, n: nat)
    requires n <= 4 && at + n <= |s| && at + n <= |t|
    requires forall k :: at <= k < at + n ==> s[k] == t[k]
    ensures LeWord(s, at, n) == LeWord(t, at, n)
  {
    hide OrByte;
    if n > 0 {
      LeWordFrame(s, t, at, n - 1);
    }
  }

  /** A field is a matter of its own bytes. */
  lemma HoldsFrame(s: seq<bv8>, t: seq<bv8>, at: nat, k: Kind, v: bv64)
    requires at < |s| == |t| && at + FieldLen(s, at, k) <= |s| && FieldLen(s, at, k) > 0
    requires forall j :: at <= j < at + FieldLen(s, at, k) ==> s[j] == t[j]
    ensures FieldLen(t, at, k) == FieldLen(s, at, k)
    ensures Holds(s, at, k, v) == Holds(t, at, k, v)
  {
    hide LeWord, InsnLen, Decode, FieldValue, U32, Cut;
    assert s[at] == t[at];
    if FieldLen(s, at, k) <= 4 {
      LeWordFrame(s, t, at, FieldLen(s, at, k));
    }
  }
}
