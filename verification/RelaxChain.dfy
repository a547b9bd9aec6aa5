/** The branch relax chains of `md_relax_table` (`chain_head` and `chain_terminal` in
    src/nyxstone_glue.c).  A table is the list of its `rlx_more` links: entry `s` links to the
    next longer encoding, 0 ends a chain, and entry 0 is the reserved "no relax" state.  Nothing
    here depends on the table's contents beyond its having no cycle.
 */
module RelaxChain {

  type Table = t: seq<nat> | |t| > 0 && (forall i :: 0 <= i < |t| ==> t[i] < |t|) witness [0]

  /** `k` links lead from `a` to `b`, all of them nonzero. */
  predicate Leads(t: Table, a: nat, b: nat, k: nat)
    requires a < |t|
    decreases k
  {
    if k == 0 then a == b else t[a] != 0 && Leads(t, t[a], b, k - 1)
  }

  ghost predicate Reaches(t: Table, a: nat, b: nat)
    requires a < |t|
  {
    exists k: nat :: Leads(t, a, b, k)
  }

  /** No chain returns to where it started. */
  ghost predicate Acyclic(t: Table) {
    forall a, k: nat | 0 < a < |t| && k > 0 :: !Leads(t, a, a, k)
  }

  predicate HasPredecessor(t: Table, s: nat) {
    exists i :: 1 <= i < |t| && t[i] == s
  }

  // ----- the two walks ----------------------------------------------------------------------

  /** The first entry that links to `s`, 0 if none does. */
  function Predecessor(t: Table, s: nat, i: nat): (p: nat)
    requires 1 <= i <= |t|
    ensures p < |t| && (p != 0 ==> p >= i && t[p] == s)
    ensures p == 0 ==> forall j :: i <= j < |t| ==> t[j] != s
    decreases |t| - i
  {
    if i == |t| then 0 else if t[i] == s then i else Predecessor(t, s, i + 1)
  }

  function WalkBack(t: Table, s: nat, guard: nat): (r: nat)
    requires s < |t|
    ensures r < |t|
    decreases guard
  {
    if guard == 0 then s
    else
      var p := Predecessor(t, s, 1);
      if p == 0 then s else WalkBack(t, p, guard - 1)
  }

  function WalkOn(t: Table, s: nat, guard: nat): (r: nat)
    requires s < |t|
    ensures r < |t|
    decreases guard
  {
    if guard == 0 || t[s] == 0 then s else WalkOn(t, t[s], guard - 1)
  }

  function Head(t: Table, s: nat): (r: nat)
    requires s < |t|
    ensures r < |t|
  {
    WalkBack(t, s, |t|)
  }

  function Terminal(t: Table, s: nat): (r: nat)
    requires s < |t|
    ensures r < |t|
  {
    WalkOn(t, s, |t|)
  }

  method ChainHead(t: Table, sub: nat) returns (s: nat)
    requires sub < |t|
    ensures s == Head(t, sub)
  {
    s := sub;
    var guard := 0;
    while guard < |t|
      invariant guard <= |t| && s < |t|
      invariant WalkBack(t, s, |t| - guard) == Head(t, sub)
    {
      var pred := 0;
      var i := 1;
      while i < |t|
        invariant 1 <= i <= |t| && pred == 0
        invariant Predecessor(t, s, i) == Predecessor(t, s, 1)
      {
        if t[i] == s {
          pred := i;
          break;
        }
        i := i + 1;
      }
      if pred == 0 {
        return;
      }
      s := pred;
      guard := guard + 1;
    }
  }

  method ChainTerminal(t: Table, sub: nat) returns (s: nat)
    requires sub < |t|
    ensures s == Terminal(t, sub)
  {
    s := sub;
    var guard := 0;
    while guard < |t|
      invariant guard <= |t| && s < |t|
      invariant WalkOn(t, s, |t| - guard) == Terminal(t, sub)
    {
      var next := t[s];
      if next == 0 {
        return;
      }
      s := next;
      guard := guard + 1;
    }
  }

  // ----- the guard never cuts a walk short -------------------------------------------------------

  /** A run of links: every element links to the next. */
  ghost predicate Run(t: Table, p: seq<nat>) {
    && (forall i :: 0 <= i < |p| ==> 0 < p[i] < |t|)
    && forall i :: 0 <= i < |p| - 1 ==> t[p[i]] == p[i + 1]
  }

  lemma {:induction false} RunLeads(t: Table, p: seq<nat>, i: nat, j: nat)
    requires Run(t, p) && i <= j < |p|
    ensures Leads(t, p[i], p[j], j - i)
    decreases j - i
  {
    if i < j {
      RunLeads(t, p, i + 1, j);
    }
  }

  /** The numbers 1 .. n - 1. */
  ghost function Below(n: nat): (r: set<nat>)
    ensures forall x: nat :: x in r <==> 0 < x < n
    ensures n > 0 ==> |r| == n - 1
  {
    if n <= 1 then {} else
      assert n - 1 !in Below(n - 1);
      Below(n - 1) + {n - 1}
  }

  /** The elements of a sequence without repetitions. */
  ghost function Elements(p: seq<nat>): (r: set<nat>)
    requires forall i, j :: 0 <= i < j < |p| ==> p[i] != p[j]
    ensures forall x :: x in r ==> x in p
    ensures |r| == |p|
  {
    if |p| == 0 then {} else
      assert p[|p| - 1] !in Elements(p[..|p| - 1]);
      Elements(p[..|p| - 1]) + {p[|p| - 1]}
  }

  lemma {:induction false} SubsetSize<T>(a: set<T>, b: set<T>)
    requires a <= b
    ensures |a| <= |b|
  {
    if a != {} {
      var x :| x in a;
      SubsetSize(a - {x}, b - {x});
    }
  }

  /** Pigeonhole: a run of links in an acyclic table is shorter than the table. */
  lemma ShortRuns(t: Table, p: seq<nat>)
    requires Acyclic(t) && Run(t, p)
    ensures |p| < |t|
  {
    forall i, j | 0 <= i < j < |p|
      ensures p[i] != p[j]
    {
      RunLeads(t, p, i, j);
    }
    assert Elements(p) <= Below(|t|);
    SubsetSize(Elements(p), Below(|t|));
  }

  lemma {:induction false} WalkBackEnds(t: Table, s: nat, guard: nat, p: seq<nat>)
    requires Acyclic(t) && Run(t, p) && |p| > 0 && p[0] == s && guard + |p| > |t|
    ensures !HasPredecessor(t, WalkBack(t, s, guard))
    ensures 0 < WalkBack(t, s, guard)
    ensures Reaches(t, WalkBack(t, s, guard), p[|p| - 1])
    decreases guard
  {
    ShortRuns(t, p);
    var q := Predecessor(t, s, 1);
    if q == 0 {
      RunLeads(t, p, 0, |p| - 1);
    } else {
      assert Run(t, [q] + p);
      WalkBackEnds(t, q, guard - 1, [q] + p);
    }
  }

  lemma {:induction false} WalkOnEnds(t: Table, s: nat, guard: nat, p: seq<nat>)
    requires Acyclic(t) && Run(t, p) && |p| > 0 && p[|p| - 1] == s && guard + |p| > |t|
    ensures t[WalkOn(t, s, guard)] == 0
    ensures 0 < WalkOn(t, s, guard)
    ensures Reaches(t, p[0], WalkOn(t, s, guard))
    decreases guard
  {
    ShortRuns(t, p);
    if t[s] == 0 {
      RunLeads(t, p, 0, |p| - 1);
    } else {
      var q := p + [t[s]];
      assert Run(t, q) by {
        assert forall i :: 0 <= i < |p| ==> q[i] == p[i];
      }
      WalkOnEnds(t, t[s], guard - 1, q);
    }
  }

  /** `chain_head` returns an entry that nothing links to and from which `s` is reached. */
  lemma HeadIsHead(t: Table, s: nat)
    requires Acyclic(t) && 0 < s < |t|
    ensures !HasPredecessor(t, Head(t, s)) && 0 < Head(t, s) && Reaches(t, Head(t, s), s)
  {
    WalkBackEnds(t, s, |t|, [s]);
  }

  /** `chain_terminal` returns the end of the chain `s` is on. */
  lemma TerminalIsTerminal(t: Table, s: nat)
    requires Acyclic(t) && 0 < s < |t|
    ensures t[Terminal(t, s)] == 0 && 0 < Terminal(t, s) && Reaches(t, s, Terminal(t, s))
  {
    WalkOnEnds(t, s, |t|, [s]);
  }

  // ----- a relaxer that only grows -----------------------------------------------------------------

  /** The state after at most `m` growth steps. */
  function Grown(t: Table, s: nat, m: nat): (r: nat)
    requires s < |t|
    ensures r < |t|
  {
    WalkOn(t, s, m)
  }

  lemma {:induction false} GrownReaches(t: Table, s: nat, m: nat)
    requires s < |t|
    ensures Reaches(t, s, Grown(t, s, m))
    decreases m
  {
    if m == 0 || t[s] == 0 {
      assert Leads(t, s, s, 0);
    } else {
      GrownReaches(t, t[s], m - 1);
      var k: nat :| Leads(t, t[s], Grown(t, s, m), k);
      assert Leads(t, s, Grown(t, s, m), k + 1);
    }
  }

  /** Growing follows the links: as many as it is asked for, or to the end of the chain. */
  lemma {:induction false} GrownFollows(t: Table, s: nat, m: nat) returns (k: nat)
    requires s < |t|
    ensures k <= m && Leads(t, s, Grown(t, s, m), k) && (k == m || t[Grown(t, s, m)] == 0)
    decreases m
  {
    k := 0;
    if m > 0 && t[s] != 0 {
      k := GrownFollows(t, t[s], m - 1);
      k := k + 1;
    }
  }

  lemma {:induction false} LeadsOn(t: Table, a: nat, b: nat, c: nat, j: nat, k: nat)
    requires a < |t| && b < |t| && c < |t|
    requires Leads(t, a, b, j) && Leads(t, a, c, k) && t[c] == 0
    ensures j <= k && Leads(t, b, c, k - j)
    decreases j
  {
    if j > 0 {
      assert k > 0;
      LeadsOn(t, t[a], b, c, j - 1, k - 1);
    }
  }

  lemma {:induction false} LeadsTrans(t: Table, a: nat, b: nat, c: nat, j: nat, k: nat)
    requires a < |t| && b < |t|
    requires Leads(t, a, b, j) && Leads(t, b, c, k)
    ensures Leads(t, a, c, j + k)
    decreases j
  {
    if j > 0 {
      LeadsTrans(t, t[a], b, c, j - 1, k);
    }
  }

  lemma ReachesTrans(t: Table, a: nat, b: nat, c: nat)
    requires a < |t| && b < |t| && Reaches(t, a, b) && Reaches(t, b, c)
    ensures Reaches(t, a, c)
  {
    var j: nat :| Leads(t, a, b, j);
    var k: nat :| Leads(t, b, c, k);
    LeadsTrans(t, a, b, c, j, k);
  }

  /** Everything reached from the head lies between the head and the terminal of the chain. */
  lemma Between(t: Table, s: nat, x: nat)
    requires Acyclic(t) && 0 < s < |t| && x < |t| && Reaches(t, Head(t, s), x)
    ensures Reaches(t, x, Terminal(t, s))
  {
    HeadIsHead(t, s);
    TerminalIsTerminal(t, s);
    ReachesTrans(t, Head(t, s), s, Terminal(t, s));
    var j: nat :| Leads(t, Head(t, s), x, j);
    var k: nat :| Leads(t, Head(t, s), Terminal(t, s), k);
    LeadsOn(t, Head(t, s), x, Terminal(t, s), j, k);
  }
}
