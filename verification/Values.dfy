/** What the numbers of data and alignment directives come to: emitted integers read back modulo
    their width, and `.balign` reaches the boundary it names.
 */
module Values {
  import opened Frags
  import opened Directives
  import Wire

  /** The value of little-endian bytes. */
  function BytesValue(s: string): nat
    decreases |s|
  {
    if s == [] then 0 else s[0] as int + 256 * BytesValue(s[1..])
  }

  lemma Split(n: int, m: nat)
    requires m > 0
    ensures n % (256 * m) == n % 256 + 256 * (n / 256 % m)
  {
    var q, r := n / 256 / m, n / 256 % m;
    assert n / 256 == m * q + r;
    assert n == 256 * (m * q + r) + n % 256;
    assert 256 * (m * q) == 256 * m * q;
    QuotientUnique(n, 256 * m, q, 256 * r + n % 256);
  }

  /** A number emitted in `width` bytes, negative or too large though it may be, reads back modulo
      256^width. */
  lemma {:induction false} EmittedValue(n: int, width: nat)
    ensures BytesValue(LittleEndian(n, width)) == n % Wire.Pow256(width)
    decreases width
  {
    if width > 0 {
      var s := LittleEndian(n, width);
      assert s[1..] == LittleEndian(n / 256, width - 1);
      EmittedValue(n / 256, width - 1);
      Split(n, Wire.Pow256(width - 1));
    }
  }

  /** The exponent the loop of `.balign` finds is exact. */
  lemma {:induction false} ExponentIsExact(b: int)
    requires PowerOfTwo(b)
    ensures Pow2(Log2(b)) == b
    decreases b
  {
    if b > 1 {
      ExponentIsExact(b / 2);
    }
  }

  /** And the powers of two are the only values `.balign` accepts. */
  lemma {:induction false} PowersAreAccepted(k: nat)
    ensures PowerOfTwo(Pow2(k)) && Log2(Pow2(k)) == k
  {
    if k > 0 {
      PowersAreAccepted(k - 1);
    }
  }

  /** `.balign b` without a max-skip: once the padding is settled, what follows starts at a multiple
      of `b`. */
  lemma BalignReachesBoundary(c: Chain, i: nat, b: int)
    requires i < |c.frags| && PowerOfTwo(b)
    requires c.frags[i].kind.Align? && c.frags[i].offset == Log2(b) && c.frags[i].subtype == 0
    ensures Addr(LaidOut(Finalized(c)), i + 1) % b == 0
  {
    hide Settled, Addr, PowerOfTwo, Log2;
    ExponentIsExact(b);
    AlignmentHolds(c, i);
    LayoutAgrees(c);
  }
}
