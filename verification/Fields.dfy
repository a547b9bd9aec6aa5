/** The TriCore relocation fields: how a resolved value is spread over an opcode word
    (`encode_pcrel_field` in src/nyxstone_glue.c), and, independently, how the processor
    reads the value back out of the word.  Words are `bv32`; the C type `long` is a two's
    complement `bv64`.
 */
module Fields {

  /** The instruction relocation forms, named after the `R_TRICORE_` suffixes. */
  datatype Form =
    | Rel24      // 24REL
    | Abs24      // 24ABS
    | Abs18      // 18ABS
    | Abs18Page  // 18ABS_14
    | Hi         // HI
    | HiAdj      // HIADJ
    | Lo         // LO
    | Const16    // 16CONST
    | Lo2        // LO2
    | Off16      // 16OFF
    | Off10      // 10OFF
    | Rel15      // 15REL
    | Rel8       // 8REL
    | Rel4       // 4REL
    | Rel4Back   // 4REL2
    | Rel5       // 5REL
    | SConst9    // 9SCONST
    | ZConst9    // 9ZCONST
    | Const8     // 8CONST

  /** The outcome of a placement: the value does not fit the form, or the new opcode word. */
  datatype Placed = Illegal | Word(op: bv32)

  // ----- what the processor reads ---------------------------------------------------------

  /** B format: disp[15:0] in bits 31..16, disp[23:16] in bits 15..8. */
  function Field24(op: bv32): (r: bv64)
    ensures r & !0xff_ffff == 0
  {
    ((((op >> 8) & 0xff) << 16) | (op >> 16)) as bv64
  }

  /** ABS format: off[17:14] in bits 15..12, off[13:10] in 25..22, off[9:6] in 31..28, off[5:0] in 21..16. */
  function Field18(op: bv32): (r: bv64)
    ensures r & !0x3_ffff == 0
  {
    ((((op >> 12) & 0xf) << 14) | (((op >> 22) & 0xf) << 10) | ((op >> 28) << 6) | ((op >> 16) & 0x3f)) as bv64
  }

  /** RLC format: const16 in bits 27..12. */
  function FieldRlc(op: bv32): (r: bv64)
    ensures r & !0xffff == 0
  {
    ((op >> 12) & 0xffff) as bv64
  }

  /** BOL format: off[15:10] in bits 27..22, off[9:6] in 31..28, off[5:0] in 21..16. */
  function FieldBol(op: bv32): (r: bv64)
    ensures r & !0xffff == 0
  {
    ((((op >> 22) & 0x3f) << 10) | ((op >> 28) << 6) | ((op >> 16) & 0x3f)) as bv64
  }

  /** BO format: off[9:6] in bits 31..28, off[5:0] in 21..16. */
  function FieldBo(op: bv32): (r: bv64)
    ensures r & !0x3ff == 0
  {
    (((op >> 28) << 6) | ((op >> 16) & 0x3f)) as bv64
  }

  /** BRC format: disp15 in bits 30..16. */
  function FieldBrc(op: bv32): (r: bv64)
    ensures r & !0x7fff == 0
  {
    ((op >> 16) & 0x7fff) as bv64
  }

  /** RC format: const9 in bits 20..12. */
  function FieldRc(op: bv32): (r: bv64)
    ensures r & !0x1ff == 0
  {
    ((op >> 12) & 0x1ff) as bv64
  }

  /** SB and SC formats: eight bits at 15..8. */
  function FieldSb(op: bv32): (r: bv64)
    ensures r & !0xff == 0
  {
    ((op >> 8) & 0xff) as bv64
  }

  /** SBR format: disp4 in bits 11..8. */
  function FieldSbr(op: bv32): (r: bv64)
    ensures r & !0xf == 0
  {
    ((op >> 8) & 0xf) as bv64
  }

  /** SBC format with five displacement bits: disp[4] in bit 7, disp[3:0] in 11..8. */
  function FieldSbc(op: bv32): (r: bv64)
    ensures r & !0x1f == 0
  {
    ((((op >> 7) & 1) << 4) | ((op >> 8) & 0xf)) as bv64
  }

  // The value of a field, from its raw bits.

  /** Displacements count halfwords. */
  function Twice(h: bv64): bv64 {
    h << 1
  }

  function Signed24(f: bv64): bv64 {
    if f & 0x80_0000 != 0 then f | 0xffff_ffff_ff80_0000 else f
  }

  function Addr24(f: bv64): bv64 {
    ((f >> 20) << 28) | ((f & 0xf_ffff) << 1)
  }

  function Addr18(f: bv64): bv64 {
    ((f >> 14) << 28) | (f & 0x3fff)
  }

  function Page18(f: bv64): bv64 {
    f << 14
  }

  function Signed16(f: bv64): bv64 {
    if f & 0x8000 != 0 then f | 0xffff_ffff_ffff_8000 else f
  }

  function Signed10(f: bv64): bv64 {
    if f & 0x200 != 0 then f | 0xffff_ffff_ffff_fe00 else f
  }

  function Signed15(f: bv64): bv64 {
    if f & 0x4000 != 0 then f | 0xffff_ffff_ffff_c000 else f
  }

  function Signed8(f: bv64): bv64 {
    if f & 0x80 != 0 then f | 0xffff_ffff_ffff_ff80 else f
  }

  /** The bits above a backward displacement are ones. */
  function Backward4(f: bv64): bv64 {
    (f << 1) | 0xffff_ffff_ffff_ffe0
  }

  function Signed9(f: bv64): bv64 {
    if f & 0x100 != 0 then f | 0xffff_ffff_ffff_ff00 else f
  }

  /** The value the processor computes from the field of an instruction word. */
  function Decode(form: Form, op: bv32): bv64 {
    match form
    case Rel24 => Twice(Signed24(Field24(op)))
    case Abs24 => Addr24(Field24(op))
    case Abs18 => Addr18(Field18(op))
    case Abs18Page => Page18(Field18(op))
    case Hi => FieldRlc(op)
    case HiAdj => FieldRlc(op)
    case Lo => FieldRlc(op)
    case Const16 => Signed16(FieldRlc(op))
    case Lo2 => FieldBol(op)
    case Off16 => Signed16(FieldBol(op))
    case Off10 => Signed10(FieldBo(op))
    case Rel15 => Twice(Signed15(FieldBrc(op)))
    case Rel8 => Twice(Signed8(FieldSb(op)))
    case Rel4 => Twice(FieldSbr(op))
    case Rel4Back => Backward4(FieldSbr(op))
    case Rel5 => Twice(FieldSbc(op))
    case SConst9 => Signed9(FieldRc(op))
    case ZConst9 => FieldRc(op)
    case Const8 => FieldSb(op)
  }

  /** The upper half of a value, rounded for a signed lower half. */
  function Rounded(v: bv64): bv64 {
    (v + 0x8000) >> 16
  }

  /** What the field has to hold for the value `v`: one half of it (HI, HIADJ, LO, LO2),
      a 32-bit address (24ABS, 18ABS, 18ABS_14: the upper half of the `long` is not looked
      at), or `v` itself. */
  function FieldValue(form: Form, v: bv64): bv64 {
    match form
    case Hi => (v >> 16) & 0xffff
    case HiAdj => Rounded(v) & 0xffff
    case Lo | Lo2 => v & 0xffff
    case Abs24 | Abs18 | Abs18Page => v & 0xffff_ffff
    case _ => v
  }

  /** The bits of the word that do not belong to the field; bit 0, the width marker, is one of them. */
  function Outside(form: Form): bv32 {
    match form
    case Rel24 | Abs24 => 0xff
    case Abs18 | Abs18Page => 0xc00_0fff
    case Hi | HiAdj | Lo | Const16 => 0xf000_0fff
    case Lo2 | Off16 => 0xffff
    case Off10 => 0xfc0_ffff
    case Rel15 => 0x8000_ffff
    case Rel8 | Const8 => 0xffff_00ff
    case Rel4 | Rel4Back => 0xffff_f0ff
    case Rel5 => 0xffff_f07f
    case SConst9 | ZConst9 => 0xffe0_0fff
  }

  /** Some instruction word carries the value. */
  ghost predicate Representable(form: Form, v: bv64) {
    exists w: bv32 :: Decode(form, w) == FieldValue(form, v)
  }

  /** The words agree on the bits of the mask. */
  predicate Same(mask: bv32, a: bv32, b: bv32) {
    a & mask == b & mask
  }

  /** `after` is `before` with `v` in its field. */
  ghost predicate Carries(form: Form, before: bv32, v: bv64, after: bv32) {
    Decode(form, after) == FieldValue(form, v) && Same(Outside(form), after, before)
  }

  /** What placing `v` into the word `op` has to come out as. */
  ghost predicate PlacedRight(form: Form, op: bv32, v: bv64, r: Placed) {
    match r
    case Illegal => !Representable(form, v)
    case Word(w) => Carries(form, op, v, w)
  }

  // ----- the C operators -------------------------------------------------------------------

  /** Signed `<`. */
  predicate Slt(a: bv64, b: bv64) {
    (a ^ 0x8000_0000_0000_0000) < (b ^ 0x8000_0000_0000_0000)
  }

  /** Signed `>> 1`. */
  function Half(v: bv64): bv64 {
    (v >> 1) | (v & 0x8000_0000_0000_0000)
  }

  // ----- every field value is in range, and every value in range is a field value ------------------

  /** The bits of `v` selected by `ext` are all zeros or all ones. */
  predicate Uniform(v: bv64, ext: bv64) {
    v & ext == 0 || v & ext == ext
  }

  lemma HalfExact(v: bv64)
    requires v & 1 == 0
    ensures Twice(Half(v)) == v
  {
  }

  lemma SignSigned24(v: bv64)
    requires !Slt(v, 0xffff_ffff_ff00_0000) && !Slt(16777214, v)
    ensures Uniform(Half(v), 0xffff_ffff_ff80_0000)
  {
  }

  lemma ExtendSigned24(h: bv64)
    requires Uniform(h, 0xffff_ffff_ff80_0000)
    ensures Signed24(h & 0xff_ffff) == h
  {
    if h & 0x80_0000 != 0 {
      assert (h & 0xff_ffff) | 0xffff_ffff_ff80_0000 == h;
    } else {
      assert h & 0xff_ffff == h;
    }
  }

  lemma ExactSigned24(v: bv64)
    requires !Slt(v, 0xffff_ffff_ff00_0000) && !Slt(16777214, v)
    ensures Signed24(Half(v) & 0xff_ffff) == Half(v)
  {
    hide *;
    SignSigned24(v);
    ExtendSigned24(Half(v));
  }

  lemma RangeSigned24(f: bv64)
    requires f & !0xff_ffff == 0
    ensures Twice(Signed24(f)) & 1 == 0 && !Slt(Twice(Signed24(f)), 0xffff_ffff_ff00_0000)
      && !Slt(16777214, Twice(Signed24(f)))
  {
  }

  lemma SignSigned16(v: bv64)
    requires !Slt(v, 0xffff_ffff_ffff_8000) && !Slt(32767, v)
    ensures Uniform(v, 0xffff_ffff_ffff_8000)
  {
  }

  lemma ExtendSigned16(h: bv64)
    requires Uniform(h, 0xffff_ffff_ffff_8000)
    ensures Signed16(h & 0xffff) == h
  {
    if h & 0x8000 != 0 {
      assert (h & 0xffff) | 0xffff_ffff_ffff_8000 == h;
    } else {
      assert h & 0xffff == h;
    }
  }

  lemma ExactSigned16(v: bv64)
    requires !Slt(v, 0xffff_ffff_ffff_8000) && !Slt(32767, v)
    ensures Signed16(v & 0xffff) == v
  {
    hide *;
    SignSigned16(v);
    ExtendSigned16(v);
  }

  lemma RangeSigned16(f: bv64)
    requires f & !0xffff == 0
    ensures !Slt(Signed16(f), 0xffff_ffff_ffff_8000) && !Slt(32767, Signed16(f))
  {
  }

  lemma SignSigned10(v: bv64)
    requires !Slt(v, 0xffff_ffff_ffff_fe00) && !Slt(511, v)
    ensures Uniform(v, 0xffff_ffff_ffff_fe00)
  {
  }

  lemma ExtendSigned10(h: bv64)
    requires Uniform(h, 0xffff_ffff_ffff_fe00)
    ensures Signed10(h & 0x3ff) == h
  {
    if h & 0x200 != 0 {
      assert (h & 0x3ff) | 0xffff_ffff_ffff_fe00 == h;
    } else {
      assert h & 0x3ff == h;
    }
  }

  lemma ExactSigned10(v: bv64)
    requires !Slt(v, 0xffff_ffff_ffff_fe00) && !Slt(511, v)
    ensures Signed10(v & 0x3ff) == v
  {
    hide *;
    SignSigned10(v);
    ExtendSigned10(v);
  }

  lemma RangeSigned10(f: bv64)
    requires f & !0x3ff == 0
    ensures !Slt(Signed10(f), 0xffff_ffff_ffff_fe00) && !Slt(511, Signed10(f))
  {
  }

  lemma SignSigned15(v: bv64)
    requires !Slt(v, 0xffff_ffff_ffff_8000) && !Slt(32766, v)
    ensures Uniform(Half(v), 0xffff_ffff_ffff_c000)
  {
  }

  lemma ExtendSigned15(h: bv64)
    requires Uniform(h, 0xffff_ffff_ffff_c000)
    ensures Signed15(h & 0x7fff) == h
  {
    if h & 0x4000 != 0 {
      assert (h & 0x7fff) | 0xffff_ffff_ffff_c000 == h;
    } else {
      assert h & 0x7fff == h;
    }
  }

  lemma ExactSigned15(v: bv64)
    requires !Slt(v, 0xffff_ffff_ffff_8000) && !Slt(32766, v)
    ensures Signed15(Half(v) & 0x7fff) == Half(v)
  {
    hide *;
    SignSigned15(v);
    ExtendSigned15(Half(v));
  }

  lemma RangeSigned15(f: bv64)
    requires f & !0x7fff == 0
    ensures Twice(Signed15(f)) & 1 == 0 && !Slt(Twice(Signed15(f)), 0xffff_ffff_ffff_8000)
      && !Slt(32766, Twice(Signed15(f)))
  {
  }

  lemma SignSigned8(v: bv64)
    requires !Slt(v, 0xffff_ffff_ffff_ff00) && !Slt(254, v)
    ensures Uniform(Half(v), 0xffff_ffff_ffff_ff80)
  {
  }

  lemma ExtendSigned8(h: bv64)
    requires Uniform(h, 0xffff_ffff_ffff_ff80)
    ensures Signed8(h & 0xff) == h
  {
    if h & 0x80 != 0 {
      assert (h & 0xff) | 0xffff_ffff_ffff_ff80 == h;
    } else {
      assert h & 0xff == h;
    }
  }

  lemma ExactSigned8(v: bv64)
    requires !Slt(v, 0xffff_ffff_ffff_ff00) && !Slt(254, v)
    ensures Signed8(Half(v) & 0xff) == Half(v)
  {
    hide *;
    SignSigned8(v);
    ExtendSigned8(Half(v));
  }

  lemma RangeSigned8(f: bv64)
    requires f & !0xff == 0
    ensures Twice(Signed8(f)) & 1 == 0 && !Slt(Twice(Signed8(f)), 0xffff_ffff_ffff_ff00) && !Slt(254, Twice(Signed8(f)))
  {
  }

  lemma ExactForward4(v: bv64)
    requires v & 1 == 0 && !Slt(v, 0) && !Slt(30, v)
    ensures Twice(Half(v) & 0xf) == v
  {
  }

  lemma RangeForward4(f: bv64)
    requires f & !0xf == 0
    ensures Twice(f) & 1 == 0 && !Slt(Twice(f), 0) && !Slt(30, Twice(f))
  {
  }

  lemma ExactBackward4(v: bv64)
    requires v & 1 == 0 && !Slt(v, 0xffff_ffff_ffff_ffe0) && !Slt(0xffff_ffff_ffff_fffe, v)
    ensures Backward4(Half(v) & 0xf) == v
  {
  }

  lemma RangeBackward4(f: bv64)
    requires f & !0xf == 0
    ensures Backward4(f) & 1 == 0 && !Slt(Backward4(f), 0xffff_ffff_ffff_ffe0)
      && !Slt(0xffff_ffff_ffff_fffe, Backward4(f))
  {
  }

  lemma ExactForward5(v: bv64)
    requires v & 1 == 0 && !Slt(v, 0) && !Slt(62, v)
    ensures Twice(Half(v) & 0x1f) == v
  {
  }

  lemma RangeForward5(f: bv64)
    requires f & !0x1f == 0
    ensures Twice(f) & 1 == 0 && !Slt(Twice(f), 0) && !Slt(62, Twice(f))
  {
  }

  lemma SignSigned9(v: bv64)
    requires !Slt(v, 0xffff_ffff_ffff_ff00) && !Slt(255, v)
    ensures Uniform(v, 0xffff_ffff_ffff_ff00)
  {
  }

  lemma ExtendSigned9(h: bv64)
    requires Uniform(h, 0xffff_ffff_ffff_ff00)
    ensures Signed9(h & 0x1ff) == h
  {
    if h & 0x100 != 0 {
      assert (h & 0x1ff) | 0xffff_ffff_ffff_ff00 == h;
    } else {
      assert h & 0x1ff == h;
    }
  }

  lemma ExactSigned9(v: bv64)
    requires !Slt(v, 0xffff_ffff_ffff_ff00) && !Slt(255, v)
    ensures Signed9(v & 0x1ff) == v
  {
    hide *;
    SignSigned9(v);
    ExtendSigned9(v);
  }

  lemma RangeSigned9(f: bv64)
    requires f & !0x1ff == 0
    ensures !Slt(Signed9(f), 0xffff_ffff_ffff_ff00) && !Slt(255, Signed9(f))
  {
  }

  lemma ExactAddr24(v: bv64)
    requires v & 0x0fe0_0001 == 0
    ensures Addr24((Half(v) | ((Half(v) & 0x7800_0000) >> 7)) & 0xff_ffff) == v & 0xffff_ffff
  {
  }

  lemma RangeAddr24(v: bv64, f: bv64)
    requires f & !0xff_ffff == 0 && Addr24(f) == v & 0xffff_ffff
    ensures v & 0x0fe0_0001 == 0
  {
  }

  lemma ExactAddr18(v: bv64)
    requires v & 0x0fff_c000 == 0
    ensures Addr18((v & 0x3fff) | (((v >> 28) & 0xf) << 14)) == v & 0xffff_ffff
  {
  }

  lemma RangeAddr18(v: bv64, f: bv64)
    requires f & !0x3_ffff == 0 && Addr18(f) == v & 0xffff_ffff
    ensures v & 0x0fff_c000 == 0
  {
  }

  lemma ExactPage18(v: bv64)
    requires v & 0x3fff == 0
    ensures Page18(((v >> 14) & 0x3fff) | (((v >> 28) & 0xf) << 14)) == v & 0xffff_ffff
  {
  }

  lemma RangePage18(v: bv64, f: bv64)
    requires f & !0x3_ffff == 0 && Page18(f) == v & 0xffff_ffff
    ensures v & 0x3fff == 0
  {
  }

  // ----- writing a field ------------------------------------------------------------------------

  /** The field holds the bits of `val` under the mask. */
  predicate FieldHolds(field: bv64, mask: bv64, val: bv64) {
    field == val & mask
  }

  /** The field of an 18-bit address: its low 14 bits and its top 4. */
  predicate FieldHolds18(field: bv64, low: bv64, top: bv64) {
    field == (low & 0x3fff) | ((top & 0xf) << 14)
  }

  function Insert24(op0: bv32, val: bv64): (op: bv32)
    ensures FieldHolds(Field24(op), 0xff_ffff, val) && Same(0xff, op, op0)
  {
    (op0 & !(0xffff_0000 | 0xff00)) | ((((val & 0xffff) as bv32) << 16)) | ((((val & 0xff0000) as bv32) >> 8))
  }

  function Word18(op0: bv32, low: bv64, top: bv64): bv32 {
    (op0 & !0xf3ff_f000) | ((((low & 0x3f) as bv32) << 16)) | ((((low & 0x3c0) as bv32) << 22))
    | ((((low & 0x3c00) as bv32) << 12)) | ((((top & 0xf) as bv32) << 12))
  }

  lemma Word18Holds(op0: bv32, low: bv64, top: bv64)
    ensures FieldHolds18(Field18(Word18(op0, low, top)), low, top)
  {
  }

  lemma Word18Frame(op0: bv32, low: bv64, top: bv64)
    ensures Same(0xc00_0fff, Word18(op0, low, top), op0)
  {
  }

  function Insert18(op0: bv32, low: bv64, top: bv64): (op: bv32)
    ensures FieldHolds18(Field18(op), low, top) && Same(0xc00_0fff, op, op0)
  {
    hide *;
    Word18Holds(op0, low, top);
    Word18Frame(op0, low, top);
    Word18(op0, low, top)
  }

  function InsertRlc(op0: bv32, val: bv64): (op: bv32)
    ensures FieldHolds(FieldRlc(op), 0xffff, val) && Same(0xf000_0fff, op, op0)
  {
    (op0 & !0x0fff_f000) | ((((val & 0xffff) as bv32) << 12))
  }

  function InsertBol(op0: bv32, val: bv64): (op: bv32)
    ensures FieldHolds(FieldBol(op), 0xffff, val) && Same(0xffff, op, op0)
  {
    (op0 & !(0x003f_0000 | 0xf000_0000 | 0x0fc0_0000))
    | ((((val & 0x3f) as bv32) << 16)) | ((((val & 0x3c0) as bv32) << 22))
    | ((((val & 0xfc00) as bv32) << 12))
  }

  function InsertBo(op0: bv32, val: bv64): (op: bv32)
    ensures FieldHolds(FieldBo(op), 0x3ff, val) && Same(0xfc0_ffff, op, op0)
  {
    (op0 & !(0x003f_0000 | 0xf000_0000)) | ((((val & 0x3f) as bv32) << 16)) | ((((val & 0x3c0) as bv32) << 22))
  }

  function InsertBrc(op0: bv32, val: bv64): (op: bv32)
    ensures FieldHolds(FieldBrc(op), 0x7fff, val) && Same(0x8000_ffff, op, op0)
  {
    (op0 & !0x7fff_0000) | ((((val & 0x7fff) as bv32) << 16))
  }

  function InsertRc(op0: bv32, val: bv64): (op: bv32)
    ensures FieldHolds(FieldRc(op), 0x1ff, val) && Same(0xffe0_0fff, op, op0)
  {
    (op0 & !0x1f_f000) | ((((val & 0x1ff) as bv32) << 12))
  }

  function InsertSb(op0: bv32, val: bv64): (op: bv32)
    ensures FieldHolds(FieldSb(op), 0xff, val) && Same(0xffff_00ff, op, op0)
  {
    (op0 & !0xff00) | ((((val & 0xff) as bv32) << 8))
  }

  function InsertSbr(op0: bv32, val: bv64): (op: bv32)
    ensures FieldHolds(FieldSbr(op), 0xf, val) && Same(0xffff_f0ff, op, op0)
  {
    (op0 & !0xf00) | ((((val & 0xf) as bv32) << 8))
  }

  function InsertSbc(op0: bv32, val: bv64): (op: bv32)
    ensures FieldHolds(FieldSbc(op), 0x1f, val) && Same(0xffff_f07f, op, op0)
  {
    (op0 & !(0xf00 | 0x80)) | ((((val & 0xf) as bv32) << 8)) | ((((val & 0x10) as bv32) << 3))
  }

  // ----- placement, one branch of the switch each -------------------------------------------------

  lemma Accept24Rel(op0: bv32, v: bv64, op: bv32)
    requires v & 1 == 0
    requires !Slt(v, 0xffff_ffff_ff00_0000) && !Slt(16777214, v)
    requires FieldHolds(Field24(op), 0xff_ffff, Half(v)) && Same(0xff, op, op0)
    ensures Carries(Rel24, op0, v, op)
  {
    hide Slt, Field24, Signed24, Half, Twice, Same;
    ExactSigned24(v);
    HalfExact(v);
  }

  lemma Reject24Rel(v: bv64)
    requires v & 1 != 0 || Slt(v, 0xffff_ffff_ff00_0000) || Slt(16777214, v)
    ensures !Representable(Rel24, v)
  {
    hide Slt, Field24, Signed24, Half, Twice;
    forall w: bv32
      ensures Decode(Rel24, w) != FieldValue(Rel24, v)
    {
      RangeSigned24(Field24(w));
    }
  }

  function Place24Rel(op0: bv32, v: bv64): (r: Placed)
    ensures PlacedRight(Rel24, op0, v, r)
  {
    hide Slt, Field24, Signed24, Half, Twice, Insert24, Carries, Representable, Same, FieldHolds;
    if v & 1 != 0 || Slt(v, 0xffff_ffff_ff00_0000) || Slt(16777214, v) then
      Reject24Rel(v);
      Illegal
    else
      var op := Insert24(op0, Half(v));
      Accept24Rel(op0, v, op);
      Word(op)
  }

  lemma Accept24Abs(op0: bv32, v: bv64, op: bv32)
    requires v & 0x0fe0_0001 == 0
    requires FieldHolds(Field24(op), 0xff_ffff, Half(v) | ((Half(v) & 0x7800_0000) >> 7)) && Same(0xff, op, op0)
    ensures Carries(Abs24, op0, v, op)
  {
    hide Field24, Addr24, Half, Same;
    ExactAddr24(v);
  }

  lemma Reject24Abs(v: bv64)
    requires v & 0x0fe0_0001 != 0
    ensures !Representable(Abs24, v)
  {
    hide Field24, Addr24, Half;
    forall w: bv32
      ensures Decode(Abs24, w) != FieldValue(Abs24, v)
    {
      if Addr24(Field24(w)) == v & 0xffff_ffff {
        RangeAddr24(v, Field24(w));
      }
    }
  }

  function Place24Abs(op0: bv32, v: bv64): (r: Placed)
    ensures PlacedRight(Abs24, op0, v, r)
  {
    hide Field24, Addr24, Half, Insert24, Carries, Representable, Same, FieldHolds;
    if v & 0x0fe0_0001 != 0 then
      Reject24Abs(v);
      Illegal
    else
      var val := Half(v);
      var op := Insert24(op0, val | ((val & 0x7800_0000) >> 7));
      Accept24Abs(op0, v, op);
      Word(op)
  }

  lemma Accept18Abs(op0: bv32, v: bv64, op: bv32)
    requires v & 0x0fff_c000 == 0
    requires FieldHolds18(Field18(op), v, v >> 28) && Same(0xc00_0fff, op, op0)
    ensures Carries(Abs18, op0, v, op)
  {
    hide Field18, Addr18, Same;
    ExactAddr18(v);
  }

  lemma Reject18Abs(v: bv64)
    requires v & 0x0fff_c000 != 0
    ensures !Representable(Abs18, v)
  {
    hide Field18, Addr18;
    forall w: bv32
      ensures Decode(Abs18, w) != FieldValue(Abs18, v)
    {
      if Addr18(Field18(w)) == v & 0xffff_ffff {
        RangeAddr18(v, Field18(w));
      }
    }
  }

  function Place18Abs(op0: bv32, v: bv64): (r: Placed)
    ensures PlacedRight(Abs18, op0, v, r)
  {
    hide Field18, Addr18, Insert18, Carries, Representable, Same, FieldHolds18;
    if v & 0x0fff_c000 != 0 then
      Reject18Abs(v);
      Illegal
    else
      var op := Insert18(op0, v, v >> 28);
      Accept18Abs(op0, v, op);
      Word(op)
  }

  lemma Accept18AbsPage(op0: bv32, v: bv64, op: bv32)
    requires v & 0x3fff == 0
    requires FieldHolds18(Field18(op), v >> 14, v >> 28) && Same(0xc00_0fff, op, op0)
    ensures Carries(Abs18Page, op0, v, op)
  {
    hide Field18, Page18, Same;
    ExactPage18(v);
  }

  lemma Reject18AbsPage(v: bv64)
    requires v & 0x3fff != 0
    ensures !Representable(Abs18Page, v)
  {
    hide Field18, Page18;
    forall w: bv32
      ensures Decode(Abs18Page, w) != FieldValue(Abs18Page, v)
    {
      if Page18(Field18(w)) == v & 0xffff_ffff {
        RangePage18(v, Field18(w));
      }
    }
  }

  function Place18AbsPage(op0: bv32, v: bv64): (r: Placed)
    ensures PlacedRight(Abs18Page, op0, v, r)
  {
    hide Field18, Page18, Insert18, Carries, Representable, Same, FieldHolds18;
    if v & 0x3fff != 0 then
      Reject18AbsPage(v);
      Illegal
    else
      var op := Insert18(op0, v >> 14, v >> 28);
      Accept18AbsPage(op0, v, op);
      Word(op)
  }

  lemma AcceptHi(op0: bv32, v: bv64, op: bv32)
    requires FieldHolds(FieldRlc(op), 0xffff, v >> 16) && Same(0xf000_0fff, op, op0)
    ensures Carries(Hi, op0, v, op)
  {
    hide FieldRlc, Same;
  }

  function PlaceHi(op0: bv32, v: bv64): (r: Placed)
    ensures PlacedRight(Hi, op0, v, r)
  {
    hide FieldRlc, InsertRlc, Carries, Representable, Same, FieldHolds;
    var op := InsertRlc(op0, v >> 16);
    AcceptHi(op0, v, op);
    Word(op)
  }

  lemma AcceptHiAdj(op0: bv32, v: bv64, op: bv32)
    requires FieldHolds(FieldRlc(op), 0xffff, Rounded(v)) && Same(0xf000_0fff, op, op0)
    ensures Carries(HiAdj, op0, v, op)
  {
    hide FieldRlc, Same, Rounded;
  }

  function PlaceHiAdj(op0: bv32, v: bv64): (r: Placed)
    ensures PlacedRight(HiAdj, op0, v, r)
  {
    hide FieldRlc, InsertRlc, Carries, Representable, Same, FieldHolds, Rounded;
    var op := InsertRlc(op0, Rounded(v));
    AcceptHiAdj(op0, v, op);
    Word(op)
  }

  lemma AcceptLo(op0: bv32, v: bv64, op: bv32)
    requires FieldHolds(FieldRlc(op), 0xffff, v) && Same(0xf000_0fff, op, op0)
    ensures Carries(Lo, op0, v, op)
  {
    hide FieldRlc, Same;
  }

  function PlaceLo(op0: bv32, v: bv64): (r: Placed)
    ensures PlacedRight(Lo, op0, v, r)
  {
    hide FieldRlc, InsertRlc, Carries, Representable, Same, FieldHolds;
    var op := InsertRlc(op0, v);
    AcceptLo(op0, v, op);
    Word(op)
  }

  lemma Accept16Const(op0: bv32, v: bv64, op: bv32)
    requires !Slt(v, 0xffff_ffff_ffff_8000) && !Slt(32767, v)
    requires FieldHolds(FieldRlc(op), 0xffff, v) && Same(0xf000_0fff, op, op0)
    ensures Carries(Const16, op0, v, op)
  {
    hide Slt, FieldRlc, Signed16, Same;
    ExactSigned16(v);
  }

  lemma Reject16Const(v: bv64)
    requires Slt(v, 0xffff_ffff_ffff_8000) || Slt(32767, v)
    ensures !Representable(Const16, v)
  {
    hide Slt, FieldRlc, Signed16;
    forall w: bv32
      ensures Decode(Const16, w) != FieldValue(Const16, v)
    {
      RangeSigned16(FieldRlc(w));
    }
  }

  function Place16Const(op0: bv32, v: bv64): (r: Placed)
    ensures PlacedRight(Const16, op0, v, r)
  {
    hide Slt, FieldRlc, Signed16, InsertRlc, Carries, Representable, Same, FieldHolds;
    if Slt(v, 0xffff_ffff_ffff_8000) || Slt(32767, v) then
      Reject16Const(v);
      Illegal
    else
      var op := InsertRlc(op0, v);
      Accept16Const(op0, v, op);
      Word(op)
  }

  lemma AcceptLo2(op0: bv32, v: bv64, op: bv32)
    requires FieldHolds(FieldBol(op), 0xffff, v) && Same(0xffff, op, op0)
    ensures Carries(Lo2, op0, v, op)
  {
    hide FieldBol, Same;
  }

  function PlaceLo2(op0: bv32, v: bv64): (r: Placed)
    ensures PlacedRight(Lo2, op0, v, r)
  {
    hide FieldBol, InsertBol, Carries, Representable, Same, FieldHolds;
    var op := InsertBol(op0, v);
    AcceptLo2(op0, v, op);
    Word(op)
  }

  lemma Accept16Off(op0: bv32, v: bv64, op: bv32)
    requires !Slt(v, 0xffff_ffff_ffff_8000) && !Slt(32767, v)
    requires FieldHolds(FieldBol(op), 0xffff, v) && Same(0xffff, op, op0)
    ensures Carries(Off16, op0, v, op)
  {
    hide Slt, FieldBol, Signed16, Same;
    ExactSigned16(v);
  }

  lemma Reject16Off(v: bv64)
    requires Slt(v, 0xffff_ffff_ffff_8000) || Slt(32767, v)
    ensures !Representable(Off16, v)
  {
    hide Slt, FieldBol, Signed16;
    forall w: bv32
      ensures Decode(Off16, w) != FieldValue(Off16, v)
    {
      RangeSigned16(FieldBol(w));
    }
  }

  function Place16Off(op0: bv32, v: bv64): (r: Placed)
    ensures PlacedRight(Off16, op0, v, r)
  {
    hide Slt, FieldBol, Signed16, InsertBol, Carries, Representable, Same, FieldHolds;
    if Slt(v, 0xffff_ffff_ffff_8000) || Slt(32767, v) then
      Reject16Off(v);
      Illegal
    else
      var op := InsertBol(op0, v);
      Accept16Off(op0, v, op);
      Word(op)
  }

  lemma Accept10Off(op0: bv32, v: bv64, op: bv32)
    requires !Slt(v, 0xffff_ffff_ffff_fe00) && !Slt(511, v)
    requires FieldHolds(FieldBo(op), 0x3ff, v) && Same(0xfc0_ffff, op, op0)
    ensures Carries(Off10, op0, v, op)
  {
    hide Slt, FieldBo, Signed10, Same;
    ExactSigned10(v);
  }

  lemma Reject10Off(v: bv64)
    requires Slt(v, 0xffff_ffff_ffff_fe00) || Slt(511, v)
    ensures !Representable(Off10, v)
  {
    hide Slt, FieldBo, Signed10;
    forall w: bv32
      ensures Decode(Off10, w) != FieldValue(Off10, v)
    {
      RangeSigned10(FieldBo(w));
    }
  }

  function Place10Off(op0: bv32, v: bv64): (r: Placed)
    ensures PlacedRight(Off10, op0, v, r)
  {
    hide Slt, FieldBo, Signed10, InsertBo, Carries, Representable, Same, FieldHolds;
    if Slt(v, 0xffff_ffff_ffff_fe00) || Slt(511, v) then
      Reject10Off(v);
      Illegal
    else
      var op := InsertBo(op0, v);
      Accept10Off(op0, v, op);
      Word(op)
  }

  lemma Accept15Rel(op0: bv32, v: bv64, op: bv32)
    requires v & 1 == 0
    requires !Slt(v, 0xffff_ffff_ffff_8000) && !Slt(32766, v)
    requires FieldHolds(FieldBrc(op), 0x7fff, Half(v)) && Same(0x8000_ffff, op, op0)
    ensures Carries(Rel15, op0, v, op)
  {
    hide Slt, FieldBrc, Signed15, Half, Twice, Same;
    ExactSigned15(v);
    HalfExact(v);
  }

  lemma Reject15Rel(v: bv64)
    requires v & 1 != 0 || Slt(v, 0xffff_ffff_ffff_8000) || Slt(32766, v)
    ensures !Representable(Rel15, v)
  {
    hide Slt, FieldBrc, Signed15, Half, Twice;
    forall w: bv32
      ensures Decode(Rel15, w) != FieldValue(Rel15, v)
    {
      RangeSigned15(FieldBrc(w));
    }
  }

  function Place15Rel(op0: bv32, v: bv64): (r: Placed)
    ensures PlacedRight(Rel15, op0, v, r)
  {
    hide Slt, FieldBrc, Signed15, Half, Twice, InsertBrc, Carries, Representable, Same, FieldHolds;
    if v & 1 != 0 || Slt(v, 0xffff_ffff_ffff_8000) || Slt(32766, v) then
      Reject15Rel(v);
      Illegal
    else
      var op := InsertBrc(op0, Half(v));
      Accept15Rel(op0, v, op);
      Word(op)
  }

  lemma Accept8Rel(op0: bv32, v: bv64, op: bv32)
    requires v & 1 == 0
    requires !Slt(v, 0xffff_ffff_ffff_ff00) && !Slt(254, v)
    requires FieldHolds(FieldSb(op), 0xff, Half(v)) && Same(0xffff_00ff, op, op0)
    ensures Carries(Rel8, op0, v, op)
  {
    hide Slt, FieldSb, Signed8, Half, Twice, Same;
    ExactSigned8(v);
    HalfExact(v);
  }

  lemma Reject8Rel(v: bv64)
    requires v & 1 != 0 || Slt(v, 0xffff_ffff_ffff_ff00) || Slt(254, v)
    ensures !Representable(Rel8, v)
  {
    hide Slt, FieldSb, Signed8, Half, Twice;
    forall w: bv32
      ensures Decode(Rel8, w) != FieldValue(Rel8, v)
    {
      RangeSigned8(FieldSb(w));
    }
  }

  function Place8Rel(op0: bv32, v: bv64): (r: Placed)
    ensures PlacedRight(Rel8, op0, v, r)
  {
    hide Slt, FieldSb, Signed8, Half, Twice, InsertSb, Carries, Representable, Same, FieldHolds;
    if v & 1 != 0 || Slt(v, 0xffff_ffff_ffff_ff00) || Slt(254, v) then
      Reject8Rel(v);
      Illegal
    else
      var op := InsertSb(op0, Half(v));
      Accept8Rel(op0, v, op);
      Word(op)
  }

  lemma Accept4Rel(op0: bv32, v: bv64, op: bv32)
    requires v & 1 == 0
    requires !Slt(v, 0) && !Slt(30, v)
    requires FieldHolds(FieldSbr(op), 0xf, Half(v)) && Same(0xffff_f0ff, op, op0)
    ensures Carries(Rel4, op0, v, op)
  {
    hide Slt, FieldSbr, Twice, Half, Same;
    ExactForward4(v);
  }

  lemma Reject4Rel(v: bv64)
    requires v & 1 != 0 || Slt(v, 0) || Slt(30, v)
    ensures !Representable(Rel4, v)
  {
    hide Slt, FieldSbr, Twice, Half;
    forall w: bv32
      ensures Decode(Rel4, w) != FieldValue(Rel4, v)
    {
      RangeForward4(FieldSbr(w));
    }
  }

  function Place4Rel(op0: bv32, v: bv64): (r: Placed)
    ensures PlacedRight(Rel4, op0, v, r)
  {
    hide Slt, FieldSbr, Twice, Half, InsertSbr, Carries, Representable, Same, FieldHolds;
    if v & 1 != 0 || Slt(v, 0) || Slt(30, v) then
      Reject4Rel(v);
      Illegal
    else
      var op := InsertSbr(op0, Half(v));
      Accept4Rel(op0, v, op);
      Word(op)
  }

  lemma Accept4RelBack(op0: bv32, v: bv64, op: bv32)
    requires v & 1 == 0
    requires !Slt(v, 0xffff_ffff_ffff_ffe0) && !Slt(0xffff_ffff_ffff_fffe, v)
    requires FieldHolds(FieldSbr(op), 0xf, Half(v)) && Same(0xffff_f0ff, op, op0)
    ensures Carries(Rel4Back, op0, v, op)
  {
    hide Slt, FieldSbr, Backward4, Half, Same;
    ExactBackward4(v);
  }

  lemma Reject4RelBack(v: bv64)
    requires v & 1 != 0 || Slt(v, 0xffff_ffff_ffff_ffe0) || Slt(0xffff_ffff_ffff_fffe, v)
    ensures !Representable(Rel4Back, v)
  {
    hide Slt, FieldSbr, Backward4, Half;
    forall w: bv32
      ensures Decode(Rel4Back, w) != FieldValue(Rel4Back, v)
    {
      RangeBackward4(FieldSbr(w));
    }
  }

  function Place4RelBack(op0: bv32, v: bv64): (r: Placed)
    ensures PlacedRight(Rel4Back, op0, v, r)
  {
    hide Slt, FieldSbr, Backward4, Half, InsertSbr, Carries, Representable, Same, FieldHolds;
    if v & 1 != 0 || Slt(v, 0xffff_ffff_ffff_ffe0) || Slt(0xffff_ffff_ffff_fffe, v) then
      Reject4RelBack(v);
      Illegal
    else
      var op := InsertSbr(op0, Half(v));
      Accept4RelBack(op0, v, op);
      Word(op)
  }

  lemma Accept5Rel(op0: bv32, v: bv64, op: bv32)
    requires v & 1 == 0
    requires !Slt(v, 0) && !Slt(62, v)
    requires FieldHolds(FieldSbc(op), 0x1f, Half(v)) && Same(0xffff_f07f, op, op0)
    ensures Carries(Rel5, op0, v, op)
  {
    hide Slt, FieldSbc, Twice, Half, Same;
    ExactForward5(v);
  }

  lemma Reject5Rel(v: bv64)
    requires v & 1 != 0 || Slt(v, 0) || Slt(62, v)
    ensures !Representable(Rel5, v)
  {
    hide Slt, FieldSbc, Twice, Half;
    forall w: bv32
      ensures Decode(Rel5, w) != FieldValue(Rel5, v)
    {
      RangeForward5(FieldSbc(w));
    }
  }

  function Place5Rel(op0: bv32, v: bv64): (r: Placed)
    ensures PlacedRight(Rel5, op0, v, r)
  {
    hide Slt, FieldSbc, Twice, Half, InsertSbc, Carries, Representable, Same, FieldHolds;
    if v & 1 != 0 || Slt(v, 0) || Slt(62, v) then
      Reject5Rel(v);
      Illegal
    else
      var op := InsertSbc(op0, Half(v));
      Accept5Rel(op0, v, op);
      Word(op)
  }

  lemma Accept9SConst(op0: bv32, v: bv64, op: bv32)
    requires !Slt(v, 0xffff_ffff_ffff_ff00) && !Slt(255, v)
    requires FieldHolds(FieldRc(op), 0x1ff, v) && Same(0xffe0_0fff, op, op0)
    ensures Carries(SConst9, op0, v, op)
  {
    hide Slt, FieldRc, Signed9, Same;
    ExactSigned9(v);
  }

  lemma Reject9SConst(v: bv64)
    requires Slt(v, 0xffff_ffff_ffff_ff00) || Slt(255, v)
    ensures !Representable(SConst9, v)
  {
    hide Slt, FieldRc, Signed9;
    forall w: bv32
      ensures Decode(SConst9, w) != FieldValue(SConst9, v)
    {
      RangeSigned9(FieldRc(w));
    }
  }

  function Place9SConst(op0: bv32, v: bv64): (r: Placed)
    ensures PlacedRight(SConst9, op0, v, r)
  {
    hide Slt, FieldRc, Signed9, InsertRc, Carries, Representable, Same, FieldHolds;
    if Slt(v, 0xffff_ffff_ffff_ff00) || Slt(255, v) then
      Reject9SConst(v);
      Illegal
    else
      var op := InsertRc(op0, v);
      Accept9SConst(op0, v, op);
      Word(op)
  }

  lemma Accept9ZConst(op0: bv32, v: bv64, op: bv32)
    requires v & !511 == 0
    requires FieldHolds(FieldRc(op), 0x1ff, v) && Same(0xffe0_0fff, op, op0)
    ensures Carries(ZConst9, op0, v, op)
  {
    hide FieldRc, Same;
  }

  lemma Reject9ZConst(v: bv64)
    requires v & !511 != 0
    ensures !Representable(ZConst9, v)
  {
    hide FieldRc;
    forall w: bv32
      ensures Decode(ZConst9, w) != FieldValue(ZConst9, v)
    {
    }
  }

  function Place9ZConst(op0: bv32, v: bv64): (r: Placed)
    ensures PlacedRight(ZConst9, op0, v, r)
  {
    hide FieldRc, InsertRc, Carries, Representable, Same, FieldHolds;
    if v & !511 != 0 then
      Reject9ZConst(v);
      Illegal
    else
      var op := InsertRc(op0, v);
      Accept9ZConst(op0, v, op);
      Word(op)
  }

  lemma Accept8Const(op0: bv32, v: bv64, op: bv32)
    requires v & !255 == 0
    requires FieldHolds(FieldSb(op), 0xff, v) && Same(0xffff_00ff, op, op0)
    ensures Carries(Const8, op0, v, op)
  {
    hide FieldSb, Same;
  }

  lemma Reject8Const(v: bv64)
    requires v & !255 != 0
    ensures !Representable(Const8, v)
  {
    hide FieldSb;
    forall w: bv32
      ensures Decode(Const8, w) != FieldValue(Const8, v)
    {
    }
  }

  function Place8Const(op0: bv32, v: bv64): (r: Placed)
    ensures PlacedRight(Const8, op0, v, r)
  {
    hide FieldSb, InsertSb, Carries, Representable, Same, FieldHolds;
    if v & !255 != 0 then
      Reject8Const(v);
      Illegal
    else
      var op := InsertSb(op0, v);
      Accept8Const(op0, v, op);
      Word(op)
  }

  /** The placement switch of `encode_pcrel_field`: placed exactly when some word can carry
      the value, then read back as that value, and no bit outside the field moves. */
  function Place(form: Form, op0: bv32, v: bv64): (r: Placed)
    ensures PlacedRight(form, op0, v, r)
  {
    match form
    case Rel24 => Place24Rel(op0, v)
    case Abs24 => Place24Abs(op0, v)
    case Abs18 => Place18Abs(op0, v)
    case Abs18Page => Place18AbsPage(op0, v)
    case Hi => PlaceHi(op0, v)
    case HiAdj => PlaceHiAdj(op0, v)
    case Lo => PlaceLo(op0, v)
    case Const16 => Place16Const(op0, v)
    case Lo2 => PlaceLo2(op0, v)
    case Off16 => Place16Off(op0, v)
    case Off10 => Place10Off(op0, v)
    case Rel15 => Place15Rel(op0, v)
    case Rel8 => Place8Rel(op0, v)
    case Rel4 => Place4Rel(op0, v)
    case Rel4Back => Place4RelBack(op0, v)
    case Rel5 => Place5Rel(op0, v)
    case SConst9 => Place9SConst(op0, v)
    case ZConst9 => Place9ZConst(op0, v)
    case Const8 => Place8Const(op0, v)
  }

  // ----- what a placement is worth ------------------------------------------------------------------

  /** Forms whose field holds the value itself: not one half of it, not an address cut to 32 bits. */
  predicate WholeValue(form: Form) {
    !(form.Hi? || form.HiAdj? || form.Lo? || form.Lo2? || form.Abs24? || form.Abs18? || form.Abs18Page?)
  }

  /** Forms for absolute addresses. */
  predicate AddressForm(form: Form) {
    form.Abs24? || form.Abs18? || form.Abs18Page?
  }

  lemma WholeIsValue(form: Form, v: bv64)
    requires WholeValue(form)
    ensures FieldValue(form, v) == v
  {
  }

  /** Decoding undoes encoding, and the encoder accepts exactly the values a word can decode to. */
  lemma WholeValueCodec(form: Form, op: bv32, v: bv64)
    requires WholeValue(form)
    ensures Place(form, op, v).Word? <==> exists w: bv32 :: Decode(form, w) == v
    ensures Place(form, op, v).Word? ==> Decode(form, Place(form, op, v).op) == v
  {
    hide Place, Decode, FieldValue, Outside;
    WholeIsValue(form, v);
    assert PlacedRight(form, op, v, Place(form, op, v));
  }

  /** `(uint32_t) v`, as a `long`. */
  function Low32(v: bv64): bv64 {
    v & 0xffff_ffff
  }

  lemma AddressIsCut(form: Form, v: bv64)
    requires AddressForm(form)
    ensures FieldValue(form, v) == Low32(v)
  {
  }

  /** An address form decodes back exactly when the address fits 32 bits: the encoder's check does
      not look at the upper half of the `long`. */
  lemma AddressCodec(form: Form, op: bv32, v: bv64)
    requires AddressForm(form) && Place(form, op, v).Word?
    ensures Decode(form, Place(form, op, v).op) == v <==> Low32(v) == v
  {
    hide Place, Decode, FieldValue, Outside, Low32;
    AddressIsCut(form, v);
    assert PlacedRight(form, op, v, Place(form, op, v));
  }

  /** A 33-bit address is accepted by 24ABS and comes back as 0. */
  lemma WideAddressIsCut()
    ensures Place(Abs24, 1, 0x1_0000_0000).Word?
    ensures Decode(Abs24, Place(Abs24, 1, 0x1_0000_0000).op) == 0
  {
    assert (0x1_0000_0000 as bv64) & 0x0fe0_0001 == 0;
    assert (0x1_0000_0000 as bv64) & 0xffff_ffff == 0;
    hide Field24, Addr24, Half, Insert24, Same, FieldHolds;
    assert PlacedRight(Abs24, 1, 0x1_0000_0000, Place(Abs24, 1, 0x1_0000_0000));
  }

  lemma CarryClear(v: bv64)
    requires v & 0x8000 == 0
    ensures (((((v + 0x8000) >> 16) & 0xffff) << 16) + (v & 0xffff)) & 0xffff_ffff == v & 0xffff_ffff
  {
  }

  lemma CarrySet(v: bv64)
    requires v & 0x8000 != 0
    ensures (((((v + 0x8000) >> 16) & 0xffff) << 16) + ((v & 0xffff) | 0xffff_ffff_ffff_8000)) & 0xffff_ffff ==
      v & 0xffff_ffff
  {
  }

  lemma Bit15(v: bv64)
    ensures (v & 0xffff) & 0x8000 == v & 0x8000
  {
  }

  lemma AdjustedHalves(v: bv64, hi: bv64, lo: bv64)
    requires hi == ((v + 0x8000) >> 16) & 0xffff && lo == v & 0xffff
    ensures ((hi << 16) + Signed16(lo)) & 0xffff_ffff == v & 0xffff_ffff
  {
    Bit15(v);
    if v & 0x8000 == 0 {
      CarryClear(v);
    } else {
      CarrySet(v);
    }
  }

  lemma PlainHalves(v: bv64, hi: bv64, lo: bv64)
    requires hi == (v >> 16) & 0xffff && lo == v & 0xffff
    ensures ((hi << 16) + lo) & 0xffff_ffff == v & 0xffff_ffff
  {
  }

  predicate LowHalf(form: Form) {
    form.Lo? || form.Lo2?
  }

  lemma HighIs(v: bv64)
    ensures FieldValue(Hi, v) == (v >> 16) & 0xffff
  {
  }

  lemma HighAdjustedIs(v: bv64)
    ensures FieldValue(HiAdj, v) == ((v + 0x8000) >> 16) & 0xffff
  {
  }

  lemma LowIs(form: Form, v: bv64)
    requires LowHalf(form)
    ensures FieldValue(form, v) == v & 0xffff
  {
  }

  /** `movh hi:` followed by an instruction that adds a sign-extended `lo:` rebuilds any address. */
  lemma HighAdjustedPlusLow(h: bv32, l: bv32, form: Form, v: bv64, hi: bv32, lo: bv32)
    requires LowHalf(form) && Place(HiAdj, h, v) == Word(hi) && Place(form, l, v) == Word(lo)
    ensures ((Decode(HiAdj, hi) << 16) + Signed16(Decode(form, lo))) & 0xffff_ffff == v & 0xffff_ffff
  {
    hide Place, Decode, Outside, Signed16, FieldValue;
    HighAdjustedIs(v);
    LowIs(form, v);
    assert PlacedRight(HiAdj, h, v, Place(HiAdj, h, v)) && PlacedRight(form, l, v, Place(form, l, v));
    AdjustedHalves(v, Decode(HiAdj, hi), Decode(form, lo));
  }

  /** With the unadjusted high half, the low half is added zero-extended. */
  lemma HighPlusLow(h: bv32, l: bv32, form: Form, v: bv64, hi: bv32, lo: bv32)
    requires LowHalf(form) && Place(Hi, h, v) == Word(hi) && Place(form, l, v) == Word(lo)
    ensures ((Decode(Hi, hi) << 16) + Decode(form, lo)) & 0xffff_ffff == v & 0xffff_ffff
  {
    hide Place, Decode, Outside, FieldValue;
    HighIs(v);
    LowIs(form, v);
    assert PlacedRight(Hi, h, v, Place(Hi, h, v)) && PlacedRight(form, l, v, Place(form, l, v));
    PlainHalves(v, Decode(Hi, hi), Decode(form, lo));
  }
}
