/** What normalisation means for comparison: when normal forms agree, when normalising twice
    is the same as once, and that comparison is a total preorder. */
module NormalForms {
  import opened UnicodeTables
  import opened Decomposition
  import opened SkippedHeads
  import opened CanonicalOrder
  import opened GSeq

  predicate Wide(s: seq<Unichar>) {
    FirstWide(s) < |s|
  }

  /** The units that the expansion loop works on. */
  function Tail(s: seq<Unichar>): seq<Unichar> {
    var b := FirstWide(s);
    s[b..NulAfter(s, b)]
  }

  lemma NulFree(s: seq<Unichar>)
    requires 0 !in s
    ensures forall i | 0 <= i < |s| :: s[i] != 0
  {
    forall i | 0 <= i < |s| ensures s[i] != 0 {
      assert s[i] in s;
    }
  }

  /** A NUL can only be the first unit, as in every composed sequence. */
  predicate NulOnlyFirst(s: seq<Unichar>) {
    forall i | 0 < i < |s| :: s[i] != 0
  }

  lemma SameUnitsIn(a: seq<Unichar>, b: seq<Unichar>, u: Unichar)
    requires multiset(a) == multiset(b)
    ensures u in a <==> u in b
  {
    assert u in a <==> u in multiset(a);
    assert u in b <==> u in multiset(b);
  }

  // ---------- shape of the normal form ----------

  ghost predicate Plain(t: Unicode, s: seq<Unichar>) {
    forall i | 0 <= i < |s| :: t.Class(s[i]) == 0
  }

  lemma {:induction false} ReorderPlainPrefix(t: Unicode, p: seq<Unichar>, q: seq<Unichar>)
    requires Plain(t, p)
    ensures Reorder(t, p + q) == p + Reorder(t, q)
    decreases |p|
  {
    if p == [] {
      assert p + q == q;
    } else {
      assert (p + q)[0] == p[0] && (p + q)[1..] == p[1..] + q;
      ReorderPlainPrefix(t, p[1..], q);
      assert p == [p[0]] + p[1..];
    }
  }

  lemma {:induction false} InsertBeforeNul(t: Unicode, u: Unichar, s: seq<Unichar>)
    ensures Insert(t, u, s + [0]) == Insert(t, u, s) + [0]
  {
    if s != [] {
      assert (s + [0])[0] == s[0] && (s + [0])[1..] == s[1..] + [0];
      InsertBeforeNul(t, u, s[1..]);
    }
  }

  lemma {:induction false} ReorderBeforeNul(t: Unicode, s: seq<Unichar>)
    ensures Reorder(t, s + [0]) == Reorder(t, s) + [0]
  {
    if s == [] {
      assert s + [0] == [0];
    } else {
      assert (s + [0])[0] == s[0] && (s + [0])[1..] == s[1..] + [0];
      ReorderBeforeNul(t, s[1..]);
      InsertBeforeNul(t, s[0], Reorder(t, s[1..]));
    }
  }

  lemma NarrowIsInert(t: Unicode, s: seq<Unichar>)
    requires forall i | 0 <= i < |s| :: s[i] < 0xC0
    ensures Plain(t, s) && Flat(t, s)
  {
  }

  /** A wide sequence becomes its narrow start, the reordered expansion, and a counted NUL. */
  lemma NormalFormShape(t: Unicode, s: seq<Unichar>)
    requires Wide(s)
    ensures NormalForm(t, s) == s[..FirstWide(s)] + Reorder(t, Expand(t, Tail(s))) + [0]
  {
    var p, e := s[..FirstWide(s)], Expand(t, Tail(s));
    FirstWideFacts(s);
    NarrowIsInert(t, p);
    assert p + e + [0] == p + (e + [0]);
    ReorderPlainPrefix(t, p, e + [0]);
    ReorderBeforeNul(t, e);
  }

  /** In a normal form no mark stands behind one of a higher class, or behind one of the same class
      with a greater code unit. */
  lemma NormalFormSorted(t: Unicode, s: seq<Unichar>)
    requires Wide(s)
    ensures var r := NormalForm(t, s);
            forall i | 0 < i < |r| ::
              t.Class(r[i]) != 0 ==>
                t.Class(r[i - 1]) < t.Class(r[i]) || (t.Class(r[i - 1]) == t.Class(r[i]) && r[i - 1] <= r[i])
  {
    hide Reorder, Expanded;
    assert NormalForm(t, s) == Reorder(t, Expanded(t, s));
    ReorderSorts(t, Expanded(t, s));
  }

  // ---------- canonical equivalence ----------

  lemma RunPermutationAppendNul(t: Unicode, a: seq<Unichar>, b: seq<Unichar>)
    ensures RunPermutation(t, a + [0], b + [0]) <==> RunPermutation(t, a, b)
  {
    ReorderEqualIff(t, a, b);
    ReorderEqualIff(t, a + [0], b + [0]);
    ReorderBeforeNul(t, a);
    ReorderBeforeNul(t, b);
    assert (Reorder(t, a) + [0])[..|a|] == Reorder(t, a);
    assert (Reorder(t, b) + [0])[..|b|] == Reorder(t, b);
  }

  /** An input is safe when the skip in the expansion loop does no harm to it. */
  predicate Safe(t: Unicode, s: seq<Unichar>) {
    Settles(t, Tail(s), 0)
  }

  lemma {:induction false} NulAfterAll(s: seq<Unichar>, from: nat)
    requires from <= |s| && forall i | from <= i < |s| :: s[i] != 0
    ensures NulAfter(s, from) == |s|
    decreases |s| - from
  {
    if from < |s| {
      NulAfterAll(s, from + 1);
    }
  }

  lemma {:induction false} NulAfterIs(s: seq<Unichar>, from: nat, z: nat)
    requires from <= z < |s| && s[z] == 0
    requires forall i | from <= i < z :: s[i] != 0
    ensures NulAfter(s, from) == z
    decreases z - from
  {
    if from < z {
      NulAfterIs(s, from + 1, z);
    }
  }

  lemma FullOfParts(t: Unicode, s: seq<Unichar>, b: nat)
    requires b <= |s| && forall i | 0 <= i < b :: s[i] < 0xC0
    ensures Full(t, s) == s[..b] + Full(t, s[b..])
  {
    assert s == s[..b] + s[b..];
    FullConcat(t, s[..b], s[b..]);
    NarrowIsInert(t, s[..b]);
    FullOfFlat(t, s[..b]);
  }

  lemma ExpandedIsFull(t: Unicode, s: seq<Unichar>)
    requires Wide(s) && 0 !in s && Safe(t, s)
    ensures Expanded(t, s) == Full(t, s) + [0]
  {
    var b := FirstWide(s);
    FirstWideFacts(s);
    NulAfterAll(s, b);
    assert s[b..NulAfter(s, b)] == s[b..] == Tail(s);
    ExpandIsFullIff(t, s[b..]);
    FullOfParts(t, s, b);
  }

  lemma NarrowFull(t: Unicode, s: seq<Unichar>)
    requires !Wide(s)
    ensures Full(t, s) == s == Reorder(t, s)
  {
    FirstWideFacts(s);
    NarrowIsInert(t, s);
    FullOfFlat(t, s);
    assert s + [] == s;
    ReorderPlainPrefix(t, s, []);
  }

  lemma WideTailStarts(s: seq<Unichar>)
    requires Wide(s)
    ensures Tail(s) != []
  {
    FirstWideFacts(s);
    assert NulAfter(s, FirstWide(s)) > FirstWide(s);
  }

  lemma EndsInNul(t: Unicode, a: seq<Unichar>, b: seq<Unichar>)
    requires Wide(a) && NulOnlyFirst(b)
    ensures NormalForm(t, a) != b
  {
    NormalFormShape(t, a);
    WideTailStarts(a);
    ExpandNotShorter(t, Tail(a));
    var n := NormalForm(t, a);
    assert n[|n| - 1] == 0 && |n| > 1;
  }

  /** The counted NUL: a string that needed the scan never equals one that did not. */
  lemma MixedNormalFormsDiffer(t: Unicode, a: seq<Unichar>, b: seq<Unichar>)
    requires Wide(a) && !Wide(b) && NulOnlyFirst(b)
    ensures NormalForm(t, a) != NormalForm(t, b)
  {
    EndsInNul(t, a, b);
  }

  /** Safe NUL-free strings have equal normal forms exactly when their full decompositions
      differ only in the order of marks inside runs and both or neither need the scan. */
  lemma EqualNormalFormsIff(t: Unicode, a: seq<Unichar>, b: seq<Unichar>)
    requires 0 !in a && 0 !in b && Safe(t, a) && Safe(t, b)
    ensures NormalForm(t, a) == NormalForm(t, b) <==>
            Wide(a) == Wide(b) && RunPermutation(t, Full(t, a), Full(t, b))
  {
    if Wide(a) && Wide(b) {
      ExpandedIsFull(t, a);
      ExpandedIsFull(t, b);
      ReorderEqualIff(t, Expanded(t, a), Expanded(t, b));
      RunPermutationAppendNul(t, Full(t, a), Full(t, b));
    } else if Wide(a) {
      MixedNormalFormsDiffer(t, a, b);
    } else if Wide(b) {
      MixedNormalFormsDiffer(t, b, a);
    } else {
      NarrowFull(t, a);
      NarrowFull(t, b);
      ReorderEqualIff(t, a, b);
    }
  }

  /** What is reordered: the expansion, or the string itself if it is not scanned. */
  function Prepared(t: Unicode, s: seq<Unichar>): seq<Unichar> {
    if Wide(s) then Expanded(t, s) else s
  }

  /** Without any condition on safety: equal normal forms exactly when what is left of the
      expansion differs only in the order of marks inside runs and both or neither are scanned. */
  lemma EqualNormalFormsAlways(t: Unicode, a: seq<Unichar>, b: seq<Unichar>)
    requires NulOnlyFirst(a) && NulOnlyFirst(b)
    ensures NormalForm(t, a) == NormalForm(t, b) <==>
            Wide(a) == Wide(b) && RunPermutation(t, Prepared(t, a), Prepared(t, b))
  {
    hide Expanded, RunPermutation, Reorder, FirstWide;
    ReorderEqualIff(t, Prepared(t, a), Prepared(t, b));
    if Wide(a) && !Wide(b) {
      MixedNormalFormsDiffer(t, a, b);
    } else if Wide(b) && !Wide(a) {
      MixedNormalFormsDiffer(t, b, a);
    } else if !Wide(a) {
      NarrowFull(t, a);
      NarrowFull(t, b);
    }
  }

  // ---------- normalising twice ----------

  lemma {:induction false} RankAtMost(t: Unicode, s: seq<Unichar>, u: Unichar)
    requires u in s
    ensures t.Rank(u) <= MaxRank(t, s)
  {
    if s[0] != u {
      RankAtMost(t, s[1..], u);
    }
  }

  lemma {:induction false} RankAttained(t: Unicode, s: seq<Unichar>) returns (u: Unichar)
    requires s != []
    ensures u in s && t.Rank(u) == MaxRank(t, s)
  {
    u := s[0];
    if t.Rank(s[0]) < MaxRank(t, s[1..]) {
      u := RankAttained(t, s[1..]);
    }
  }

  lemma FlatPermutation(t: Unicode, a: seq<Unichar>, b: seq<Unichar>)
    requires multiset(a) == multiset(b) && Flat(t, a)
    ensures Flat(t, b)
  {
    forall i | 0 <= i < |b| ensures !t.Composite(b[i]) {
      assert b[i] in multiset(b);
      assert b[i] in multiset(a);
    }
  }

  lemma {:induction false} NoNulInExpand(t: Unicode, s: seq<Unichar>)
    requires 0 !in s
    ensures 0 !in Expand(t, s)
    decreases MaxRank(t, s)
  {
    var k := FirstComposite(t, s);
    if k < |s| {
      var p := Pass(t, s[k..]);
      PassLowersRank(t, s, k);
      NoNulInPass(t, s[k..]);
      NoNulInExpand(t, p[1..]);
    }
  }

  /** A NUL-free stretch that a normal form has between its narrow start and its NUL. */
  lemma MiddleOfNormalForm(t: Unicode, s: seq<Unichar>)
    requires Wide(s)
    ensures var m := Reorder(t, Expand(t, Tail(s)));
            0 !in m && (Flat(t, m) <==> Safe(t, s))
  {
    var e := Expand(t, Tail(s));
    var m := Reorder(t, e);
    ReorderPermutes(t, e);
    NulAfterFacts(s, FirstWide(s));
    NoNulInExpand(t, Tail(s));
    SameUnitsIn(e, m, 0);
    ExpandIsFullIff(t, Tail(s));
    if Safe(t, s) {
      FullIsFlat(t, Tail(s));
      FlatPermutation(t, e, m);
    }
    if Flat(t, m) {
      FlatPermutation(t, m, e);
      FullOfExpand(t, Tail(s));
      FullOfFlat(t, e);
    }
  }

  lemma NulEndsNormalForm(y: seq<Unichar>, b: nat, from: nat, m: seq<Unichar>)
    requires b <= from < |y| && |y| == b + |m| + 1
    requires y[b..] == m + [0] && 0 !in m && y[from] != 0
    ensures NulAfter(y, from) == |y| - 1
    ensures y == y[..from] + y[from..|y| - 1] + [0]
  {
    NulFree(m);
    assert forall i | b <= i < |y| :: y[i] == (m + [0])[i - b] by {
      assert forall i | b <= i < |y| :: y[i] == y[b..][i - b];
    }
    assert y[|y| - 1] == 0 && from < |y| - 1;
    NulAfterIs(y, from, |y| - 1);
    assert y == y[..from] + y[from..|y| - 1] + [y[|y| - 1]];
  }

  /** What the second normalisation starts from. */
  lemma SecondExpansion(t: Unicode, s: seq<Unichar>)
    requires Wide(s) && Wide(NormalForm(t, s))
    ensures var y := NormalForm(t, s);
            && Flat(t, y[..FirstWide(y)])
            && Tail(y) == y[FirstWide(y)..|y| - 1]
            && y == y[..FirstWide(y)] + Tail(y) + [0]
            && Expanded(t, y) == y[..FirstWide(y)] + Expand(t, Tail(y)) + [0]
  {
    hide Expand, Reorder, NormalForm, FirstWide, NulAfter;
    var y := NormalForm(t, s);
    NormalFormShape(t, s);
    MiddleOfNormalForm(t, s);
    var b, b' := FirstWide(s), FirstWide(y);
    var m := Reorder(t, Expand(t, Tail(s)));
    FirstWideFacts(s);
    FirstWideFacts(y);
    NarrowIsInert(t, y[..b']);
    assert forall i | 0 <= i < b :: y[i] == s[i] < 0xC0;
    assert y[b..] == m + [0];
    NulEndsNormalForm(y, b, b', m);
  }

  lemma {:induction false} RankTooHigh(t: Unicode, s: seq<Unichar>, u: Unichar)
    requires MaxRank(t, s) < t.Rank(u)
    ensures u !in s
  {
    if s != [] {
      RankTooHigh(t, s[1..], u);
      assert s == [s[0]] + s[1..];
    }
  }

  lemma ExpansionOfUnsafe(t: Unicode, p: seq<Unichar>, m: seq<Unichar>)
    requires Flat(t, p) && !Flat(t, m)
    ensures multiset(p + m + [0]) != multiset(p + Expand(t, m) + [0])
  {
    var i :| 0 <= i < |m| && t.Composite(m[i]);
    RankAtMost(t, m, m[i]);
    ExpandLowersRank(t, m);
    var u := RankAttained(t, m);
    MaxRankOfFlat(t, p);
    RankTooHigh(t, p, u);
    RankTooHigh(t, Expand(t, m), u);
    assert u in multiset(p + m + [0]) && u !in multiset(p + Expand(t, m) + [0]);
  }

  lemma FlatParts(t: Unicode, p: seq<Unichar>, q: seq<Unichar>, p': seq<Unichar>, q': seq<Unichar>)
    requires p + q + [0] == p' + q' + [0] && Flat(t, p) && Flat(t, p')
    ensures Flat(t, q) <==> Flat(t, q')
  {
    var s := p + q + [0];
    assert forall i | 0 <= i < |p| :: s[i] == p[i];
    assert forall i | 0 <= i < |p'| :: s[i] == p'[i];
    assert forall i | 0 <= i < |q| :: q[i] == s[|p| + i];
    assert forall i | 0 <= i < |q'| :: q'[i] == s[|p'| + i];
    assert forall i | |p| <= i < |p| + |q| :: s[i] == q[i - |p|];
    assert forall i | |p'| <= i < |p'| + |q'| :: s[i] == q'[i - |p'|];
  }

  lemma TailFlatIff(t: Unicode, s: seq<Unichar>)
    requires Wide(s) && Wide(NormalForm(t, s))
    ensures Flat(t, Tail(NormalForm(t, s))) <==> Safe(t, s)
  {
    var y := NormalForm(t, s);
    NormalFormShape(t, s);
    MiddleOfNormalForm(t, s);
    SecondExpansion(t, s);
    var p, q, m := y[..FirstWide(y)], Tail(y), Reorder(t, Expand(t, Tail(s)));
    FirstWideFacts(s);
    NarrowIsInert(t, s[..FirstWide(s)]);
    FlatParts(t, p, q, s[..FirstWide(s)], m);
  }

  /** Normalising a normal form again changes it exactly when the input was not safe. */
  lemma IdempotentIff(t: Unicode, s: seq<Unichar>)
    ensures NormalForm(t, NormalForm(t, s)) == NormalForm(t, s) <==> !Wide(s) || Safe(t, s)
  {
    var y := NormalForm(t, s);
    if Wide(s) {
      MiddleOfNormalForm(t, s);
      NormalFormShape(t, s);
      var m := Reorder(t, Expand(t, Tail(s)));
      if !Wide(y) {
        FirstWideFacts(y);
        NarrowIsInert(t, y);
        assert forall i | 0 <= i < |m| :: m[i] == y[FirstWide(s) + i];
      } else {
        SecondExpansion(t, s);
        TailFlatIff(t, s);
        ReorderOrdered(t, Expanded(t, s));
        if Safe(t, s) {
          ReorderOfOrdered(t, y);
        } else {
          ExpansionOfUnsafe(t, y[..FirstWide(y)], Tail(y));
          ReorderPermutes(t, Expanded(t, y));
        }
      }
    }
  }

  // ---------- comparison ----------

  lemma {:induction false} LexSameIff(a: seq<Unichar>, b: seq<Unichar>)
    ensures Lex(a, b) == Same <==> a == b
    decreases |a|
  {
    if a != [] && b != [] {
      LexSameIff(a[1..], b[1..]);
      assert a == [a[0]] + a[1..] && b == [b[0]] + b[1..];
    }
  }

  lemma {:induction false} LexReverse(a: seq<Unichar>, b: seq<Unichar>)
    ensures Lex(b, a) == Lex(a, b).Reverse()
    decreases |a|
  {
    if a != [] && b != [] {
      LexReverse(a[1..], b[1..]);
    }
  }

  lemma {:induction false} LexTransitive(a: seq<Unichar>, b: seq<Unichar>, c: seq<Unichar>)
    requires Lex(a, b) != Descending && Lex(b, c) != Descending
    ensures Lex(a, c) != Descending
    ensures Lex(a, b) == Ascending || Lex(b, c) == Ascending ==> Lex(a, c) == Ascending
    decreases |a|
  {
    if a != [] && b != [] && c != [] && a[0] == b[0] == c[0] {
      LexTransitive(a[1..], b[1..], c[1..]);
    }
  }

  lemma LexHeads(a: seq<Unichar>, b: seq<Unichar>)
    requires a != [] && b != [] && a[0] != b[0]
    ensures !(a < b)
    ensures (exists i :: 0 <= i < |a| && i < |b| && a[..i] == b[..i] && a[i] < b[i]) <==> a[0] < b[0]
  {
    if a[0] < b[0] {
      assert a[..0] == b[..0];
    }
    forall i | 0 < i < |a| && i < |b| ensures a[..i] != b[..i] {
      assert a[..i][0] == a[0] && b[..i][0] == b[0];
    }
  }

  /** Which of two sequences comes first: a proper prefix, or the one with the smaller unit where
      they first differ. */
  lemma {:induction false} LexIs(a: seq<Unichar>, b: seq<Unichar>)
    ensures Lex(a, b) == Ascending <==>
              a < b || exists i :: 0 <= i < |a| && i < |b| && a[..i] == b[..i] && a[i] < b[i]
    decreases |a|
  {
    if a != [] && b != [] && a[0] == b[0] {
      var x, y := a[1..], b[1..];
      LexIs(x, y);
      assert a == [a[0]] + x && b == [b[0]] + y;
      if i :| 0 <= i < |x| && i < |y| && x[..i] == y[..i] && x[i] < y[i] {
        assert a[..i + 1] == [a[0]] + x[..i] && b[..i + 1] == [b[0]] + y[..i] && a[i + 1] < b[i + 1];
      }
      if i :| 0 <= i < |a| && i < |b| && a[..i] == b[..i] && a[i] < b[i] {
        assert x[..i - 1] == a[..i][1..] && y[..i - 1] == b[..i][1..] && x[i - 1] < y[i - 1];
      }
    } else if a != [] && b != [] {
      LexHeads(a, b);
    }
  }

  /** The answer for two sequences that have not been normalised yet. */
  function Comparison(t: Unicode, a: seq<Unichar>, b: seq<Unichar>): Order {
    Verdict(t, a, false, b, false)
  }

  /** Comparison is by normal forms, in that order. */
  lemma ComparisonIs(t: Unicode, a: seq<Unichar>, b: seq<Unichar>)
    ensures var x, y := NormalForm(t, a), NormalForm(t, b);
            Comparison(t, a, b) == Ascending <==>
              x < y || exists i :: 0 <= i < |x| && i < |y| && x[..i] == y[..i] && x[i] < y[i]
  {
    hide NormalForm;
    var x, y := NormalForm(t, a), NormalForm(t, b);
    LexIs(x, y);
    if a == b {
      LexSameIff(x, y);
    }
  }

  /** Comparison is a total preorder whose equivalence is equality of normal forms. */
  lemma ComparisonIsTotalPreorder(t: Unicode, a: seq<Unichar>, b: seq<Unichar>, c: seq<Unichar>)
    ensures Comparison(t, a, b) == Same <==> NormalForm(t, a) == NormalForm(t, b)
    ensures Comparison(t, b, a) == Comparison(t, a, b).Reverse()
    ensures Comparison(t, a, b) != Descending && Comparison(t, b, c) != Descending ==>
              && Comparison(t, a, c) != Descending
              && (Comparison(t, a, c) == Same ==> Comparison(t, a, b) == Same == Comparison(t, b, c))
  {
    var x, y, z := NormalForm(t, a), NormalForm(t, b), NormalForm(t, c);
    LexSameIff(x, y);
    LexSameIff(y, z);
    LexSameIff(x, z);
    LexReverse(x, y);
    if Lex(x, y) != Descending && Lex(y, z) != Descending {
      LexTransitive(x, y, z);
    }
  }

  lemma NarrowStartStays(t: Unicode, s: seq<Unichar>, m: seq<Unichar>)
    requires (forall i | 0 <= i < |s| :: s[i] < 0xC0) && m != []
    ensures s < NormalForm(t, s + m) && NormalForm(t, s) == s
  {
    hide Reorder, Expand;
    var x := s + m;
    FirstWideFacts(x);
    FirstWideIs(s, |s|);
    if Wide(x) {
      NormalFormShape(t, x);
      var b := FirstWide(x);
      assert forall i | 0 <= i < |s| :: x[i] == s[i];
      assert x[..b][..|s|] == s;
      assert NormalForm(t, x)[..|s|] == s;
    }
  }

  /** What begins with narrow units comes before anything that goes on behind them: a bare letter
      before the letter with marks. */
  lemma StartComesFirst(t: Unicode, s: seq<Unichar>, m: seq<Unichar>)
    requires (forall i | 0 <= i < |s| :: s[i] < 0xC0) && m != []
    ensures Comparison(t, s, s + m) == Ascending && Comparison(t, s + m, s) == Descending
  {
    hide NormalForm;
    NarrowStartStays(t, s, m);
    ComparisonIs(t, s, s + m);
    ComparisonIsTotalPreorder(t, s, s + m, s);
  }

  /** Marks of the shipped table: U+0307 and U+0310 above, U+0323 below. */
  function DotsTable(): (t: Unicode)
    ensures t.decomp == map[] && t.cop == map[0x307 := 230, 0x310 := 230, 0x323 := 220]
  {
    Tables(map[], map[0x307 := 230, 0x310 := 230, 0x323 := 220], map[], {0x307, 0x310, 0x323}, map[])
  }

  lemma TailOfWideStart(s: seq<Unichar>, k: nat)
    requires 0 !in s && k < |s| && s[k] >= 0xC0
    requires forall i | 0 <= i < k :: s[i] < 0xC0
    ensures Wide(s) && Tail(s) == s[k..]
  {
    FirstWideIs(s, k);
    NulAfterAll(s, k);
    assert s[k..|s|] == s[k..];
  }

  lemma DotsShape(t: Unicode, m: seq<Unichar>)
    requires t.decomp == map[] && m != [] && m[0] >= 0xC0 && 0 !in m
    ensures NormalForm(t, [0x71] + m) == [0x71] + Reorder(t, m) + [0]
  {
    hide Reorder;
    var s := [0x71] + m;
    assert s[1..] == m && s[..1] == [0x71];
    FirstWideIs(s, 1);
    TailOfWideStart(s, 1);
    NormalFormShape(t, s);
    assert FirstComposite(t, m) == |m|;
  }

  lemma FirstDiffers(p: seq<Unichar>, a: seq<Unichar>, b: seq<Unichar>)
    requires a != [] && b != [] && a[0] > b[0]
    ensures Lex(p + a, p + b) == Descending
  {
    assert (p + a)[..|p|] == (p + b)[..|p|];
    LexOfEqualPrefix(p + a, p + b, |p|);
    assert (p + a)[|p|..] == a && (p + b)[|p|..] == b;
  }

  lemma DotsReordered(t: Unicode)
    requires t.cop == map[0x307 := 230, 0x310 := 230, 0x323 := 220]
    ensures Reorder(t, [0x307, 0x323]) == [0x323, 0x307] && Reorder(t, [0x310]) == [0x310]
  {
    assert Reorder(t, []) == [] && [0x323][1..] == [] == [0x310][1..];
    assert Reorder(t, [0x323]) == Insert(t, 0x323, []) == [0x323];
    assert [0x307, 0x323][1..] == [0x323];
    assert Reorder(t, [0x307, 0x323]) == Insert(t, 0x307, [0x323]);
    assert Insert(t, 0x307, []) == [0x307] && [0x323][1..] == [];
    assert Reorder(t, [0x310]) == Insert(t, 0x310, []);
  }

  /** The dot below goes before the dot above, which decides a comparison. */
  lemma DotBelowFirst()
    ensures var t := DotsTable();
            && NormalForm(t, [0x71, 0x307, 0x323]) == [0x71, 0x323, 0x307, 0]
            && Comparison(t, [0x71, 0x307, 0x323], [0x71, 0x310]) == Descending
  {
    hide DotsTable, Reorder, NormalForm;
    var t := DotsTable();
    DotsReordered(t);
    DotsShape(t, [0x307, 0x323]);
    DotsShape(t, [0x310]);
    assert [0x71] + [0x307, 0x323] == [0x71, 0x307, 0x323] && [0x71] + [0x310] == [0x71, 0x310];
    FirstDiffers([0x71], [0x323, 0x307, 0], [0x310, 0]);
    assert [0x71] + [0x323, 0x307, 0] == [0x71, 0x323, 0x307, 0] && [0x71] + [0x310, 0] == [0x71, 0x310, 0];
    assert NormalForm(t, [0x71, 0x310]) == [0x71, 0x310, 0];
    assert [0x71, 0x307, 0x323] != [0x71, 0x310];
  }

  /** It makes no difference to strings without a NUL behind their first unit whether either was
      normalised beforehand. */
  lemma VerdictIgnoresHistory(t: Unicode, a: seq<Unichar>, b: seq<Unichar>)
    requires NulOnlyFirst(a) && NulOnlyFirst(b)
    ensures Verdict(t, NormalForm(t, a), true, b, false) == Comparison(t, a, b)
    ensures Verdict(t, a, false, NormalForm(t, b), true) == Comparison(t, a, b)
    ensures Verdict(t, NormalForm(t, a), true, NormalForm(t, b), true) == Comparison(t, a, b)
  {
    LexSameIff(NormalForm(t, a), NormalForm(t, b));
    if Wide(a) && !Wide(b) {
      MixedNormalFormsDiffer(t, a, b);
    } else if Wide(b) && !Wide(a) {
      MixedNormalFormsDiffer(t, b, a);
    } else if Wide(a) {
      EndsInNul(t, a, b);
      EndsInNul(t, b, a);
    }
  }

  /** In general the raw equality test agrees with the full comparison of a normal form with
      an unmarked copy of itself exactly when the sequence it came from was safe. */
  lemma FastPathAgreesIff(t: Unicode, x: seq<Unichar>)
    ensures var y := NormalForm(t, x);
            Verdict(t, y, true, y, false) == Lex(y, NormalForm(t, y)) <==> !Wide(x) || Safe(t, x)
  {
    var y := NormalForm(t, x);
    LexSameIff(y, NormalForm(t, y));
    IdempotentIff(t, x);
  }

  /** A safe and an unsafe string never compare the same, even if they are canonically equivalent. */
  lemma SafeNeverEqualsUnsafe(t: Unicode, a: seq<Unichar>, b: seq<Unichar>)
    requires Wide(a) && Wide(b) && Safe(t, a) && !Safe(t, b)
    ensures Comparison(t, a, b) != Same
  {
    LexSameIff(NormalForm(t, a), NormalForm(t, b));
    NormalFormShape(t, a);
    NormalFormShape(t, b);
    MiddleOfNormalForm(t, a);
    MiddleOfNormalForm(t, b);
    var p, q := a[..FirstWide(a)], b[..FirstWide(b)];
    FirstWideFacts(a);
    FirstWideFacts(b);
    NarrowIsInert(t, p);
    NarrowIsInert(t, q);
    var m, n := Reorder(t, Expand(t, Tail(a))), Reorder(t, Expand(t, Tail(b)));
    if p + m + [0] == q + n + [0] {
      FlatParts(t, p, m, q, n);
    }
  }

  lemma SameFull(t: Unicode)
    requires t.decomp == DiaeresisTable().decomp
    ensures Full(t, [0x1D5]) == Full(t, [0x55, 0x308, 0x304])
  {
    hide Full;
    FullOfPass(t, [0x1D5]);
    assert Pass(t, [0x1D5]) == [0xDC, 0x304] + Pass(t, []) == [0xDC, 0x304];
    FullOfPass(t, [0xDC, 0x304]);
    assert [0xDC, 0x304][1..] == [0x304];
    PassOfFlat(t, [0x304]);
    assert Pass(t, [0xDC, 0x304]) == [0x55, 0x308] + [0x304] == [0x55, 0x308, 0x304];
  }

  /** U+01D5 and U+0055 U+0308 U+0304 have the same full decomposition but compare different. */
  lemma EquivalentButDifferent()
    ensures var t := DiaeresisTable();
            && Full(t, [0x1D5]) == Full(t, [0x55, 0x308, 0x304])
            && Comparison(t, [0x1D5], [0x55, 0x308, 0x304]) != Same
  {
    var t, a, b := DiaeresisTable(), [0x1D5], [0x55, 0x308, 0x304];
    hide Full, Comparison;
    SameFull(t);
    TailOfWideStart(a, 0);
    assert b[1..] == [0x308, 0x304];
    TailOfWideStart(b, 1);
    SettlesOfOne(t, 0x1D5, 0);
    SettlesOfFlat(t, b[1..], 0);
    SafeNeverEqualsUnsafe(t, b, a);
    ComparisonIsTotalPreorder(t, a, b, b);
  }

  /** Entries of the shipped tables: the Kelvin sign stands for the letter K, and both have the
      lower-case letter k. */
  function KelvinTable(): (t: Unicode)
    ensures t.decomp == map[0x212A := [0x4B]]
  {
    Tables(map[0x212A := [0x4B]], map[], map[0x212A := 0x6B, 0x4B := 0x6B], {}, map[0x212A := 0])
  }

  /** The counted NUL at work: two strings with the same full decomposition, of which only one
      is scanned, compare different. */
  lemma KelvinIsNotK()
    ensures var t := KelvinTable();
            && Full(t, [0x212A]) == Full(t, [0x4B])
            && Comparison(t, [0x212A], [0x4B]) != Same
  {
    var t, a, b := KelvinTable(), [0x212A], [0x4B];
    FullOfPass(t, a);
    assert Pass(t, a) == [0x4B] + Pass(t, []) == b;
    FirstWideIs(a, 0);
    FirstWideIs(b, 1);
    MixedNormalFormsDiffer(t, a, b);
    ComparisonIsTotalPreorder(t, a, b, b);
  }

  // ---------- buffer sizes ----------

  /** No unit stands for MAXDEC or more final units (four is the most in the shipped table). */
  ghost predicate Bounded(t: Unicode) {
    forall u: Unichar :: FinalUnits(t, u) < MAXDEC
  }

  /** GSEQ_MAKE reserves enough for any sequence under a bounded table. */
  lemma MakeHasRoom(t: Unicode, s: seq<Unichar>)
    requires Bounded(t)
    ensures |NormalForm(t, s)| <= |s| * MAXDEC
  {
    if Wide(s) {
      var b, x := FirstWide(s), Tail(s);
      WideTailStarts(s);
      ExpandLength(t, x, MAXDEC);
      assert |Expanded(t, s)| == b + |Expand(t, x)| + 1 <= b + MAXDEC * |x|;
    }
  }
}
