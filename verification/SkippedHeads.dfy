/** Consequences of the skip in the expansion loop: when an input, or a whole table, is safe. */
module SkippedHeads {
  import opened UnicodeTables
  import opened Decomposition

  /** How many times the leading unit of a unit's decomposition can itself be decomposed. */
  function HeadDepth(t: Unicode, u: Unichar): nat
    decreases t.Rank(u)
  {
    if t.Composite(u) then 1 + HeadDepth(t, t.decomp[u][0]) else 0
  }

  /** Only leading units decompose further, except that a later unit may do so once.
      In the shipped table only U+0390 and U+03B0 use the exception. */
  ghost predicate ShallowTails(t: Unicode) {
    forall u, i | t.Composite(u) && 1 <= i < |t.decomp[u]| && t.Composite(t.decomp[u][i]) ::
      Flat(t, t.decomp[t.decomp[u][i]])
  }

  ghost predicate OneStep(t: Unicode, s: seq<Unichar>) {
    forall i | 0 <= i < |s| && t.Composite(s[i]) :: Flat(t, t.decomp[s[i]])
  }

  lemma {:induction false} OneStepSettles(t: Unicode, s: seq<Unichar>, n: nat)
    requires OneStep(t, s)
    ensures Settles(t, s, n)
  {
    if s != [] {
      OneStepSettles(t, s[1..], Max(n, Depth(t, s[..1])));
      if t.Composite(s[0]) {
        SettlesOfFlat(t, t.decomp[s[0]], if n == 0 then 0 else n - 1);
      }
    }
  }

  /** With shallow tails the condition is a bound on each unit by what stands to its left. */
  ghost predicate Records(t: Unicode, s: seq<Unichar>, n: nat) {
    forall i | 0 <= i < |s| :: HeadDepth(t, s[i]) <= 1 + Max(n, Depth(t, s[..i]))
  }

  lemma RecordsStep(t: Unicode, s: seq<Unichar>, n: nat)
    requires s != []
    ensures Records(t, s, n) <==>
            HeadDepth(t, s[0]) <= 1 + n && Records(t, s[1..], Max(n, Depth(t, s[..1])))
  {
    forall i | 0 <= i < |s[1..]|
      ensures Max(Max(n, Depth(t, s[..1])), Depth(t, s[1..][..i])) == Max(n, Depth(t, s[..i + 1]))
    {
      assert s[..i + 1] == s[..1] + s[1..][..i];
      DepthConcat(t, s[..1], s[1..][..i]);
    }
    if Records(t, s, n) {
      assert s[..0] == [];
      forall i | 0 <= i < |s[1..]|
        ensures HeadDepth(t, s[1..][i]) <= 1 + Max(Max(n, Depth(t, s[..1])), Depth(t, s[1..][..i]))
      {
        assert s[1..][i] == s[i + 1];
      }
    }
    if HeadDepth(t, s[0]) <= 1 + n && Records(t, s[1..], Max(n, Depth(t, s[..1]))) {
      forall i | 0 <= i < |s|
        ensures HeadDepth(t, s[i]) <= 1 + Max(n, Depth(t, s[..i]))
      {
        if i > 0 {
          assert s[i] == s[1..][i - 1];
        }
      }
    }
  }

  lemma {:induction false} CompositeRecord(t: Unicode, s: seq<Unichar>, n: nat)
    requires ShallowTails(t) && s != [] && t.Composite(s[0])
    ensures (&& (n == 0 ==> !t.Composite(t.decomp[s[0]][0]))
             && Settles(t, t.decomp[s[0]], if n == 0 then 0 else n - 1))
            <==> HeadDepth(t, s[0]) <= 1 + n
    decreases MaxRank(t, s), |s|, 0
  {
    var d, m := t.decomp[s[0]], if n == 0 then 0 else n - 1;
    HeadLowersRank(t, s);
    SettlesIffRecords(t, d, m);
    RecordsStep(t, d, m);
    OneStepSettles(t, d[1..], Max(m, Depth(t, d[..1])));
    SettlesIffRecords(t, d[1..], Max(m, Depth(t, d[..1])));
  }

  lemma {:induction false} SettlesIffRecords(t: Unicode, s: seq<Unichar>, n: nat)
    requires ShallowTails(t)
    ensures Settles(t, s, n) <==> Records(t, s, n)
    decreases MaxRank(t, s), |s|
  {
    if s != [] {
      RecordsStep(t, s, n);
      SettlesIffRecords(t, s[1..], Max(n, Depth(t, s[..1])));
      if t.Composite(s[0]) {
        CompositeRecord(t, s, n);
      }
    }
  }

  /** Reading of the exact condition for the shipped kind of table. */
  lemma ExpandIsFullIffRecords(t: Unicode, s: seq<Unichar>)
    requires ShallowTails(t)
    ensures Expand(t, s) == Full(t, s) <==>
            forall i | 0 <= i < |s| :: HeadDepth(t, s[i]) <= 1 + Depth(t, s[..i])
  {
    ExpandIsFullIff(t, s);
    SettlesIffRecords(t, s, 0);
    assert forall i | 0 <= i < |s| :: Max(0, Depth(t, s[..i])) == Depth(t, s[..i]);
  }

  // ---------- whole tables ----------

  /** Every decomposition starts with a unit that is not itself composite. */
  ghost predicate FlatHeads(t: Unicode) {
    forall u | t.Composite(u) :: !t.Composite(t.decomp[u][0])
  }

  lemma {:induction false} FlatHeadsSettle(t: Unicode, s: seq<Unichar>, n: nat)
    requires FlatHeads(t)
    ensures Settles(t, s, n)
    decreases MaxRank(t, s), |s|
  {
    if s != [] {
      FlatHeadsSettle(t, s[1..], Max(n, Depth(t, s[..1])));
      if t.Composite(s[0]) {
        HeadLowersRank(t, s);
        FlatHeadsSettle(t, t.decomp[s[0]], if n == 0 then 0 else n - 1);
      }
    }
  }

  /** A table is safe for every input exactly when all its heads are flat. */
  lemma ExpandAlwaysFullIff(t: Unicode)
    ensures (forall s: seq<Unichar> :: Expand(t, s) == Full(t, s)) <==> FlatHeads(t)
  {
    if FlatHeads(t) {
      forall s: seq<Unichar> ensures Expand(t, s) == Full(t, s) {
        FlatHeadsSettle(t, s, 0);
        ExpandIsFullIff(t, s);
      }
    } else {
      var u :| t.Composite(u) && t.Composite(t.decomp[u][0]);
      ExpandIsFullIff(t, [u]);
      assert !Settles(t, [u], 0);
    }
  }

  /** Two entries of the shipped decomposition table, with the classes of their marks. */
  function DiaeresisTable(): (t: Unicode)
    ensures t.decomp.Keys == {0xDC, 0x1D5}
    ensures t.decomp[0xDC] == [0x55, 0x308] && t.decomp[0x1D5] == [0xDC, 0x304]
    ensures t.Class(0x55) == t.Class(0xDC) == 0 && t.Class(0x304) == t.Class(0x308) == 230
  {
    var t := Tables(
      map[0xDC := [0x55, 0x308], 0x1D5 := [0xDC, 0x304]],
      map[0x304 := 230, 0x308 := 230],
      map[0xDC := 0xFC],
      {0x304, 0x308},
      map[0xDC := 0, 0x1D5 := 1]);
    assert t.Valid();
    t
  }

  lemma DepthOfOne(t: Unicode, u: Unichar)
    ensures Depth(t, [u]) == if t.Composite(u) then 1 + Depth(t, t.decomp[u]) else 0
  {
  }

  lemma SettlesOfOne(t: Unicode, u: Unichar, n: nat)
    ensures Settles(t, [u], n) <==>
            (t.Composite(u) ==>
               && (n == 0 ==> !t.Composite(t.decomp[u][0]))
               && Settles(t, t.decomp[u], if n == 0 then 0 else n - 1))
  {
  }

  /** U+01D5 on its own is not decomposed fully; behind another composite it is. */
  lemma SkippedHeadExample()
    ensures var t := DiaeresisTable();
            && Expand(t, [0x1D5]) != Full(t, [0x1D5])
            && Expand(t, [0xDC, 0x1D5]) == Full(t, [0xDC, 0x1D5])
  {
    var t := DiaeresisTable();
    SettlesOfOne(t, 0x1D5, 0);
    ExpandIsFullIff(t, [0x1D5]);
    assert [0xDC] + [0x1D5] == [0xDC, 0x1D5];
    SettlesConcat(t, [0xDC], [0x1D5], 0);
    SettlesOfOne(t, 0xDC, 0);
    SettlesOfFlat(t, [0x55, 0x308], 0);
    DepthOfOne(t, 0xDC);
    DepthOfFlat(t, [0x55, 0x308]);
    SettlesOfOne(t, 0x1D5, 1);
    assert [0xDC] + [0x304] == [0xDC, 0x304];
    SettlesConcat(t, [0xDC], [0x304], 0);
    SettlesOfFlat(t, [0x304], 1);
    ExpandIsFullIff(t, [0xDC, 0x1D5]);
  }

  // ---------- lengths ----------

  lemma {:induction false} FullNotShorter(t: Unicode, s: seq<Unichar>)
    ensures |s| <= |Full(t, s)|
    decreases MaxRank(t, s), |s|
  {
    if s != [] {
      FullNotShorter(t, s[1..]);
      if t.Composite(s[0]) {
        HeadLowersRank(t, s);
        FullNotShorter(t, t.decomp[s[0]]);
      }
    }
  }

  lemma FullOfThree(t: Unicode, a: seq<Unichar>, b: seq<Unichar>, c: seq<Unichar>)
    ensures Full(t, a + b + c) == Full(t, a) + Full(t, b) + Full(t, c)
  {
    FullConcat(t, a + b, c);
    FullConcat(t, a, b);
  }

  /** Whatever the skip leaves behind still stands for the same full decomposition. */
  lemma {:induction false} FullOfExpand(t: Unicode, s: seq<Unichar>)
    ensures Full(t, Expand(t, s)) == Full(t, s)
    decreases MaxRank(t, s)
  {
    hide Full, Pass, FirstComposite;
    var k := FirstComposite(t, s);
    if k < |s| {
      var p := Pass(t, s[k..]);
      PassLowersRank(t, s, k);
      FullOfExpand(t, p[1..]);
      FullOfThree(t, s[..k], p[..1], Expand(t, p[1..]));
      FullOfThree(t, s[..k], p[..1], p[1..]);
      assert s[..k] + p[..1] + p[1..] == s[..k] + p;
      FullOfPass(t, s[k..]);
      FullConcat(t, s[..k], s[k..]);
      FullConcat(t, s[..k], p);
      assert s[..k] + s[k..] == s;
    }
  }

  /** How many final units one unit stands for. */
  function FinalUnits(t: Unicode, u: Unichar): nat {
    |Full(t, [u])|
  }

  lemma FullOfHead(t: Unicode, s: seq<Unichar>)
    requires s != []
    ensures |Full(t, s)| == FinalUnits(t, s[0]) + |Full(t, s[1..])|
  {
    hide Full;
    FullConcat(t, [s[0]], s[1..]);
    assert s == [s[0]] + s[1..];
  }

  lemma OneMore(m: nat, n: nat)
    requires n > 0
    ensures m * n == m + m * (n - 1)
  {
  }

  lemma {:induction false} FullLength(t: Unicode, s: seq<Unichar>, m: nat)
    requires forall u: Unichar :: FinalUnits(t, u) <= m
    ensures |Full(t, s)| <= m * |s|
  {
    hide FinalUnits;
    if s != [] {
      FullLength(t, s[1..], m);
      FullOfHead(t, s);
      assert FinalUnits(t, s[0]) <= m;
      OneMore(m, |s|);
    }
  }

  /** If no unit stands for `m` or more final units, the expansion fits a buffer of
      `m` units per input unit with one to spare. */
  lemma ExpandLength(t: Unicode, s: seq<Unichar>, m: nat)
    requires s != [] && forall u: Unichar :: FinalUnits(t, u) < m
    ensures |Expand(t, s)| < m * |s|
  {
    assert FinalUnits(t, 0) < m;
    FullOfExpand(t, s);
    FullNotShorter(t, Expand(t, s));
    FullLength(t, s, m - 1);
    assert (m - 1) * |s| == m * |s| - |s|;
  }
}
