/** The frag chain of the text section (src/nyxstone_glue.c): sizes, addresses, the section
    image, the sizing of `.align` and `.org` padding after relaxation, and the copy-back of an
    edited image.  Sizes and addresses are unbounded naturals.
 */
module Frags {

  datatype FragKind = Zeroed | Fill | Align | AlignCode | Org | Machine

  /** gas's `fragS`.  `rep` is `fr_var`, `symbol` an index into the symbol table. */
  datatype Frag = Frag(
    address: nat,
    fix: nat,
    kind: FragKind,
    offset: nat,
    rep: nat,
    subtype: nat,
    symbol: int,
    literal: seq<bv8>)

  /** The frag chain.  While the last frag is still the one gas emits into, its fixed size is
      not in `fix` yet but in the live obstack: `live` holds it, or is -1. */
  datatype Chain = Chain(frags: seq<Frag>, live: int)

  // ----- sizes and addresses ----------------------------------------------------------------

  function FixSize(c: Chain, i: nat): nat
    requires i < |c.frags|
  {
    if i == |c.frags| - 1 && c.live >= 0 then c.live else c.frags[i].fix
  }

  function FillSize(f: Frag): nat {
    if f.kind == Fill && f.rep > 0 && f.offset > 0 then f.offset * f.rep else 0
  }

  /** The address of frag `i`: the bytes of all frags before it. */
  function Addr(c: Chain, i: nat): nat
    requires i <= |c.frags|
  {
    if i == 0 then 0 else Addr(c, i - 1) + FixSize(c, i - 1) + FillSize(c.frags[i - 1])
  }

  function End(c: Chain): nat {
    Addr(c, |c.frags|)
  }

  lemma {:induction false} AddrMonotone(c: Chain, i: nat, j: nat)
    requires i < j <= |c.frags|
    ensures Addr(c, i) + FixSize(c, i) + FillSize(c.frags[i]) <= Addr(c, j)
  {
    if i < j - 1 {
      AddrMonotone(c, i, j - 1);
    }
  }

  lemma AddrStart(c: Chain)
    ensures Addr(c, 0) == 0
  {
  }

  lemma AddrStep(c: Chain, i: nat)
    requires i < |c.frags|
    ensures Addr(c, i + 1) == Addr(c, i) + FixSize(c, i) + FillSize(c.frags[i])
  {
  }

  /** Addresses depend on the sizes of the frags before, and on nothing else. */
  lemma {:induction false} AddrSameSizes(c: Chain, d: Chain, i: nat)
    requires i <= |c.frags| && i <= |d.frags|
    requires forall k :: 0 <= k < i ==> FixSize(c, k) + FillSize(c.frags[k]) == FixSize(d, k) + FillSize(d.frags[k])
    ensures Addr(c, i) == Addr(d, i)
  {
    if i > 0 {
      AddrSameSizes(c, d, i - 1);
    }
  }

  /** `layout`: every frag at its cumulative offset. */
  function LaidOut(c: Chain): (d: Chain)
    ensures |d.frags| == |c.frags| && d.live == c.live
    ensures forall i :: 0 <= i < |c.frags| ==> d.frags[i] == c.frags[i].(address := Addr(c, i))
  {
    c.(frags := seq(|c.frags|, i requires 0 <= i < |c.frags| => c.frags[i].(address := Addr(c, i))))
  }

  // ----- padding ------------------------------------------------------------------------------

  function Pow2(k: nat): (p: nat)
    ensures p > 0
  {
    if k == 0 then 1 else 2 * Pow2(k - 1)
  }

  /** `(boundary - (off & (boundary - 1))) & (boundary - 1)`, boundary a power of two. */
  function AlignPad(off: nat, boundary: nat): (pad: nat)
    requires boundary > 0
    ensures pad < boundary
  {
    (boundary - off % boundary) % boundary
  }

  /** One step of `finalize_align_org`: the frag at `addr` with `fix` fixed bytes. */
  function Settle(f: Frag, addr: nat, fix: nat): Frag {
    var off := addr + fix;
    match f.kind
    case Align | AlignCode =>
      var pad := AlignPad(off, Pow2(f.offset));
      var pad := if f.subtype != 0 && pad > f.subtype then 0 else pad;
      f.(address := addr, kind := Fill, offset := pad, rep := 1)
    case Org =>
      f.(address := addr, kind := Fill, offset := if f.offset < off then 0 else f.offset - off, rep := 1)
    case _ => f.(address := addr)
  }

  /** The chain with its first `n` frags settled. */
  function Settled(c: Chain, n: nat): (d: Chain)
    requires n <= |c.frags|
    ensures |d.frags| == |c.frags| && d.live == c.live
    ensures forall i :: n <= i < |c.frags| ==> d.frags[i] == c.frags[i]
  {
    if n == 0 then c
    else
      var d := Settled(c, n - 1);
      d.(frags := d.frags[n - 1 := Settle(c.frags[n - 1], Addr(d, n - 1), FixSize(c, n - 1))])
  }

  predicate OrgBackwards(c: Chain, i: nat)
    requires i < |c.frags|
  {
    c.frags[i].kind == Org && c.frags[i].offset < Addr(Settled(c, i), i) + FixSize(c, i)
  }

  /** How often `finalize_align_org` reports "attempt to move .org backwards". */
  function OrgErrors(c: Chain, n: nat): nat
    requires n <= |c.frags|
  {
    if n == 0 then 0 else OrgErrors(c, n - 1) + if OrgBackwards(c, n - 1) then 1 else 0
  }

  function Finalized(c: Chain): (d: Chain)
    ensures |d.frags| == |c.frags| && d.live == c.live
  {
    Settled(c, |c.frags|)
  }

  lemma {:induction false} SettledPrefix(c: Chain, m: nat, n: nat)
    requires m <= n <= |c.frags|
    ensures forall i :: 0 <= i < m ==> Settled(c, n).frags[i] == Settled(c, m).frags[i]
    ensures Addr(Settled(c, n), m) == Addr(Settled(c, m), m)
  {
    if m < n {
      SettledPrefix(c, m, n - 1);
    }
    AddrSameSizes(Settled(c, n), Settled(c, m), m);
  }

  /** Frag `i` of the finalized chain. */
  lemma FinalizedAt(c: Chain, i: nat)
    requires i < |c.frags|
    ensures Finalized(c).frags[i] == Settle(c.frags[i], Addr(Finalized(c), i), FixSize(c, i))
    ensures FixSize(Finalized(c), i) == FixSize(c, i)
    ensures Addr(Settled(c, i), i) == Addr(Finalized(c), i)
  {
    SettledPrefix(c, i + 1, |c.frags|);
    SettledPrefix(c, i, |c.frags|);
  }

  /** One step of the pass. */
  lemma SettledStep(c: Chain, i: nat)
    requires i < |c.frags|
    ensures
      var d, e, addr := Settled(c, i), Settled(c, i + 1), Addr(Settled(c, i), i);
      var g := Settle(c.frags[i], addr, FixSize(c, i));
      && d.frags[i] == c.frags[i] && FixSize(d, i) == FixSize(c, i)
      && e == d.(frags := d.frags[i := g])
      && Addr(e, i + 1) == addr + FixSize(c, i) + FillSize(g)
  {
    AddrSameSizes(Settled(c, i), Settled(c, i + 1), i);
  }

  /** `layout` after `finalize_align_org` finds every address already right. */
  lemma LayoutAgrees(c: Chain)
    ensures LaidOut(Finalized(c)) == Finalized(c)
  {
    forall i | 0 <= i < |c.frags|
      ensures LaidOut(Finalized(c)).frags[i] == Finalized(c).frags[i]
    {
      FinalizedAt(c, i);
    }
    assert LaidOut(Finalized(c)).frags == Finalized(c).frags;
  }

  lemma QuotientUnique(x: int, b: nat, q: int, r: nat)
    requires b > 0 && x == b * q + r && r < b
    ensures x / b == q && x % b == r
  {
    var q', r' := x / b, x % b;
    assert x == b * q' + r';
    if q' > q {
      assert b * q' >= b * (q + 1) by {
        MulMonotone(b, q + 1, q');
      }
    } else if q' < q {
      assert b * q >= b * (q' + 1) by {
        MulMonotone(b, q' + 1, q);
      }
    }
  }

  lemma MulMonotone(b: nat, x: int, y: int)
    requires x <= y
    ensures b * x <= b * y
  {
  }

  predicate OnBoundary(x: nat, b: nat)
    requires b > 0
  {
    x % b == 0
  }

  /** The pad is the least number of bytes that reaches the boundary. */
  lemma AlignPadLeast(off: nat, b: nat, p: nat)
    requires b > 0 && p <= AlignPad(off, b)
    ensures OnBoundary(off + p, b) <==> p == AlignPad(off, b)
  {
    var q, r := off / b, off % b;
    assert off == b * q + r;
    if r == 0 {
      QuotientUnique(b, b, 1, 0);
    } else {
      QuotientUnique(b - r, b, 0, b - r);
      if p < b - r {
        QuotientUnique(off + p, b, q, r + p);
      } else {
        assert off + p == b * (q + 1) + 0;
        QuotientUnique(off + p, b, q + 1, 0);
      }
    }
  }

  /** Where an alignment frag ends: on its boundary, with the least pad, unless that pad exceeds
      the max-skip operand, when there is no pad at all. */
  lemma AlignmentHolds(c: Chain, i: nat)
    requires i < |c.frags| && (c.frags[i].kind == Align || c.frags[i].kind == AlignCode)
    ensures
      var d, f := Finalized(c), c.frags[i];
      var off, b := Addr(d, i) + FixSize(d, i), Pow2(f.offset);
      if f.subtype != 0 && AlignPad(off, b) > f.subtype then Addr(d, i + 1) == off
      else
        && off <= Addr(d, i + 1) < off + b
        && OnBoundary(Addr(d, i + 1), b)
        && forall x: nat :: off <= x < Addr(d, i + 1) ==> !OnBoundary(x, b)
  {
    hide AlignPad, OnBoundary, Pow2;
    FinalizedAt(c, i);
    var off, b := Addr(Finalized(c), i) + FixSize(c, i), Pow2(c.frags[i].offset);
    var pad := AlignPad(off, b);
    AlignPadLeast(off, b, pad);
    forall x: nat | off <= x < off + pad
      ensures !OnBoundary(x, b)
    {
      AlignPadLeast(off, b, x - off);
    }
  }

  /** An `.org` frag ends at its target; a target that lies behind is exactly what is reported. */
  lemma OrgHolds(c: Chain, i: nat)
    requires i < |c.frags| && c.frags[i].kind == Org
    ensures
      var d := Finalized(c);
      if OrgBackwards(c, i) then Addr(d, i + 1) == Addr(d, i) + FixSize(d, i) > c.frags[i].offset
      else Addr(d, i + 1) == c.frags[i].offset
  {
    FinalizedAt(c, i);
  }

  lemma {:induction false} NoOrgErrors(c: Chain, n: nat)
    requires n <= |c.frags|
    ensures OrgErrors(c, n) == 0 <==> forall i :: 0 <= i < n ==> !OrgBackwards(c, i)
  {
    if n > 0 {
      NoOrgErrors(c, n - 1);
    }
  }

  // ----- the section image ----------------------------------------------------------------------

  /** The frag holds the bytes it is said to hold. */
  predicate Backed(c: Chain, i: nat)
    requires i < |c.frags|
  {
    && FixSize(c, i) == c.frags[i].fix
    && c.frags[i].fix + c.frags[i].rep <= |c.frags[i].literal|
  }

  predicate WellFormed(c: Chain) {
    forall i :: 0 <= i < |c.frags| ==> Backed(c, i)
  }

  /** `n` copies of the pattern. */
  function Copies(pattern: seq<bv8>, n: nat): (s: seq<bv8>)
    ensures |s| == n * |pattern|
  {
    if n == 0 then [] else Copies(pattern, n - 1) + pattern
  }

  /** The padding: the bytes behind the fixed part, repeated. */
  function Filler(f: Frag): (s: seq<bv8>)
    requires f.fix + f.rep <= |f.literal|
    ensures |s| == FillSize(f)
  {
    if FillSize(f) == 0 then [] else Copies(f.literal[f.fix..f.fix + f.rep], f.offset)
  }

  /** The bytes of the first `n` frags. */
  function Image(c: Chain, n: nat): (s: seq<bv8>)
    requires WellFormed(c) && n <= |c.frags|
    ensures |s| == Addr(c, n)
  {
    if n == 0 then []
    else
      assert Backed(c, n - 1);
      var f := c.frags[n - 1];
      Image(c, n - 1) + f.literal[..f.fix] + Filler(f)
  }

  lemma {:induction false} ImagePrefix(c: Chain, m: nat, n: nat)
    requires WellFormed(c) && m <= n <= |c.frags|
    ensures Addr(c, m) <= Addr(c, n)
    ensures Image(c, n)[..Addr(c, m)] == Image(c, m)
  {
    if m < n {
      ImagePrefix(c, m, n - 1);
    }
  }

  /** The bytes of frag `i` within the whole image. */
  lemma ImageAt(c: Chain, i: nat)
    requires WellFormed(c) && i < |c.frags|
    ensures Backed(c, i) && Addr(c, i) + c.frags[i].fix + FillSize(c.frags[i]) == Addr(c, i + 1) <= End(c)
    ensures Image(c, |c.frags|)[Addr(c, i)..Addr(c, i) + c.frags[i].fix] == c.frags[i].literal[..c.frags[i].fix]
    ensures Image(c, |c.frags|)[Addr(c, i) + c.frags[i].fix..Addr(c, i + 1)] == Filler(c.frags[i])
  {
    hide Filler;
    var whole, f := Image(c, |c.frags|), c.frags[i];
    assert Backed(c, i);
    ImagePrefix(c, i + 1, |c.frags|);
    var s := Image(c, i + 1);
    assert s == Image(c, i) + f.literal[..f.fix] + Filler(f);
    assert whole[Addr(c, i)..Addr(c, i) + f.fix] == s[Addr(c, i)..Addr(c, i) + f.fix];
    assert whole[Addr(c, i) + f.fix..Addr(c, i + 1)] == s[Addr(c, i) + f.fix..Addr(c, i + 1)];
  }

  /** A byte of a fixed part, in the image. */
  lemma FixedByte(c: Chain, i: nat, at: nat)
    requires WellFormed(c) && i < |c.frags| && at < FixSize(c, i)
    ensures FixSize(c, i) <= |c.frags[i].literal| && Addr(c, i) + FixSize(c, i) <= Addr(c, i + 1) <= End(c)
    ensures |Image(c, |c.frags|)| == End(c)
    ensures Image(c, |c.frags|)[Addr(c, i) + at] == c.frags[i].literal[at]
  {
    hide Addr, Image, Filler, FillSize;
    ImageAt(c, i);
    var img, f := Image(c, |c.frags|), c.frags[i];
    assert img[Addr(c, i)..Addr(c, i) + f.fix][at] == f.literal[..f.fix][at];
  }

  lemma {:induction false} CopyByte(pattern: seq<bv8>, n: nat, k: nat)
    requires |pattern| > 0 && k < n * |pattern|
    ensures Copies(pattern, n)[k] == pattern[k % |pattern|]
  {
    var before := (n - 1) * |pattern|;
    assert n * |pattern| == before + |pattern|;
    if k < before {
      CopyByte(pattern, n - 1, k);
    } else {
      assert k == |pattern| * (n - 1) + (k - before);
      QuotientUnique(k, |pattern|, n - 1, k - before);
    }
  }

  /** What a frag takes in the image: its fixed part, which for the frag still open is what gas has put
      into it so far, and its padding, which a fill frag has. */
  lemma FragTakes(c: Chain, i: nat)
    requires WellFormed(c) && i < |c.frags|
    ensures
      var f := c.frags[i];
      |Image(c, i + 1)| ==
      |Image(c, i)| + (if i == |c.frags| - 1 && c.live >= 0 then c.live else f.fix)
      + if f.kind == Fill then f.rep * f.offset else 0
  {
    hide Image;
  }

  /** A byte of the padding of a frag, in the image: the pattern stands behind the fixed part, and is
      repeated from there on. */
  lemma PaddingByte(c: Chain, i: nat, k: nat)
    requires WellFormed(c) && i < |c.frags| && Addr(c, i) + FixSize(c, i) + k < Addr(c, i + 1)
    ensures
      var f := c.frags[i];
      && f.rep > 0 && f.fix + f.rep <= |f.literal| && Addr(c, i + 1) <= |Image(c, |c.frags|)|
      && Image(c, |c.frags|)[Addr(c, i) + FixSize(c, i) + k] == f.literal[f.fix + k % f.rep]
  {
    hide Addr, Image, Copies;
    ImageAt(c, i);
    AddrStep(c, i);
    var img, f, at := Image(c, |c.frags|), c.frags[i], Addr(c, i) + FixSize(c, i);
    assert img[at..Addr(c, i + 1)][k] == img[at + k];
    CopyByte(f.literal[f.fix..f.fix + f.rep], f.offset, k);
  }

  // ----- copying an edited image back --------------------------------------------------------------

  /** Position `k` of the image lies in the fixed part of frag `i`. */
  predicate InFixed(c: Chain, i: nat, k: int)
    requires i < |c.frags|
  {
    Addr(c, i) <= k < Addr(c, i) + FixSize(c, i)
  }

  /** Position `k` of the image lies in the padding of frag `i`. */
  predicate InFill(c: Chain, i: nat, k: int)
    requires i < |c.frags|
  {
    Addr(c, i) + FixSize(c, i) <= k < Addr(c, i + 1)
  }

  /** `img` is the image of the chain but for the fixed parts. */
  ghost predicate FillsAgree(c: Chain, img: seq<bv8>)
    requires WellFormed(c)
  {
    && |img| == End(c)
    && forall i, k :: 0 <= i < |c.frags| && InFill(c, i, k) && 0 <= k < |img| ==> img[k] == Image(c, |c.frags|)[k]
  }

  /** `memcpy (fr->fr_literal, buf + addr, n)`. */
  function CopiedFrag(f: Frag, img: seq<bv8>, addr: nat, n: nat): Frag
    requires n <= |f.literal|
  {
    if addr + n <= |img| then f.(literal := img[addr..addr + n] + f.literal[n..]) else f
  }

  function CopiedBack(c: Chain, img: seq<bv8>): (d: Chain)
    requires WellFormed(c)
    ensures |d.frags| == |c.frags| && d.live == c.live
  {
    c.(frags := seq(|c.frags|, i requires 0 <= i < |c.frags| =>
      assert Backed(c, i); CopiedFrag(c.frags[i], img, Addr(c, i), FixSize(c, i))))
  }

  lemma CopiedBackShape(c: Chain, img: seq<bv8>)
    requires WellFormed(c)
    ensures WellFormed(CopiedBack(c, img))
    ensures forall i :: 0 <= i <= |c.frags| ==> Addr(CopiedBack(c, img), i) == Addr(c, i)
  {
    var d := CopiedBack(c, img);
    forall i | 0 <= i < |c.frags|
      ensures Backed(d, i) && FixSize(d, i) == FixSize(c, i) && FillSize(d.frags[i]) == FillSize(c.frags[i])
    {
      assert Backed(c, i);
    }
    forall i | 0 <= i <= |c.frags|
      ensures Addr(d, i) == Addr(c, i)
    {
      AddrSameSizes(d, c, i);
    }
  }

  /** The padding of a copied-back frag is still what the edited image has there. */
  lemma CopiedFill(c: Chain, img: seq<bv8>, i: nat)
    requires WellFormed(c) && FillsAgree(c, img) && i < |c.frags| && WellFormed(CopiedBack(c, img))
    ensures Backed(CopiedBack(c, img), i) && Addr(c, i) + FixSize(c, i) <= Addr(c, i + 1) <= |img|
    ensures Filler(CopiedBack(c, img).frags[i]) == img[Addr(c, i) + FixSize(c, i)..Addr(c, i + 1)]
  {
    hide Image, Addr, Copies;
    ImageAt(c, i);
    var f, g, a := c.frags[i], CopiedBack(c, img).frags[i], Addr(c, i);
    assert Backed(CopiedBack(c, img), i);
    assert g.literal[f.fix..f.fix + f.rep] == f.literal[f.fix..f.fix + f.rep];
    forall k | 0 <= k < FillSize(f)
      ensures Filler(f)[k] == img[a + f.fix..Addr(c, i + 1)][k]
    {
      assert InFill(c, i, a + f.fix + k);
      assert Filler(f)[k] == Image(c, |c.frags|)[a + f.fix..Addr(c, i + 1)][k];
    }
  }

  lemma CopiedFixed(c: Chain, img: seq<bv8>, i: nat)
    requires WellFormed(c) && i < |c.frags| && Addr(c, i) + FixSize(c, i) <= |img|
    ensures var g := CopiedBack(c, img).frags[i];
      g.fix == FixSize(c, i) <= |g.literal| && g.literal[..g.fix] == img[Addr(c, i)..Addr(c, i) + g.fix]
  {
    assert Backed(c, i);
  }

  lemma ImageStep(c: Chain, n: nat)
    requires WellFormed(c) && 0 < n <= |c.frags|
    ensures Backed(c, n - 1)
    ensures Image(c, n) == Image(c, n - 1) + c.frags[n - 1].literal[..c.frags[n - 1].fix] + Filler(c.frags[n - 1])
  {
    assert Backed(c, n - 1);
  }

  lemma {:induction false} CopiedPrefix(c: Chain, img: seq<bv8>, n: nat)
    requires WellFormed(c) && FillsAgree(c, img) && n <= |c.frags|
    ensures WellFormed(CopiedBack(c, img)) && Addr(c, n) <= |img|
    ensures Image(CopiedBack(c, img), n) == img[..Addr(c, n)]
  {
    hide Image, Filler, CopiedBack, FillsAgree, Backed, FixSize, FillSize;
    CopiedBackShape(c, img);
    if n > 0 {
      CopiedPrefix(c, img, n - 1);
      CopiedFill(c, img, n - 1);
      CopiedFixed(c, img, n - 1);
      ImageStep(CopiedBack(c, img), n);
      Pieces(img, Addr(c, n - 1), Addr(c, n - 1) + FixSize(c, n - 1), Addr(c, n));
    } else {
      EmptyImage(CopiedBack(c, img));
    }
  }

  lemma Pieces(s: seq<bv8>, a: nat, b: nat, e: nat)
    requires a <= b <= e <= |s|
    ensures s[..e] == s[..a] + s[a..b] + s[b..e]
  {
  }

  lemma EmptyImage(c: Chain)
    requires WellFormed(c)
    ensures Image(c, 0) == []
  {
  }

  /** Conservation: an image edited only in the fixed parts of frags, once copied back, is what
      the next extraction yields. */
  lemma CopyBackExtracts(c: Chain, img: seq<bv8>)
    requires WellFormed(c) && FillsAgree(c, img)
    ensures WellFormed(CopiedBack(c, img)) && End(CopiedBack(c, img)) == End(c)
    ensures Image(CopiedBack(c, img), |c.frags|) == img
  {
    CopiedBackShape(c, img);
    CopiedPrefix(c, img, |c.frags|);
    assert img[..|img|] == img;
  }
}
