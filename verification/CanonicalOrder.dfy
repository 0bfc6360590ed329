/** The reordering half of GSeq_normalize: the Canonical Ordering Algorithm of section 3.11
    of the Unicode Standard, except that marks of equal class are also ordered by code. */
module CanonicalOrder {
  import opened UnicodeTables

  /** Strictly after: by combining class, then by code. */
  predicate After(t: Unicode, a: Unichar, b: Unichar) {
    t.Class(a) > t.Class(b) || (t.Class(a) == t.Class(b) && a > b)
  }

  /** The condition under which the inner loop swaps two neighbours. */
  predicate OutOfOrder(t: Unicode, first: Unichar, second: Unichar) {
    t.Class(second) != 0 && After(t, first, second)
  }

  ghost predicate Ordered(t: Unicode, s: seq<Unichar>) {
    forall i | 0 < i < |s| :: !OutOfOrder(t, s[i - 1], s[i])
  }

  function Insert(t: Unicode, u: Unichar, s: seq<Unichar>): (r: seq<Unichar>)
    ensures |r| == |s| + 1
  {
    if s == [] || t.Class(u) == 0 || !OutOfOrder(t, u, s[0]) then [u] + s
    else [s[0]] + Insert(t, u, s[1..])
  }

  /** The canonically ordered form of a sequence. */
  function Reorder(t: Unicode, s: seq<Unichar>): (r: seq<Unichar>)
    ensures |r| == |s|
  {
    if s == [] then [] else Insert(t, s[0], Reorder(t, s[1..]))
  }

  function Swap(s: seq<Unichar>, i: nat): (r: seq<Unichar>)
    requires i + 1 < |s|
    ensures |r| == |s| && r[i] == s[i + 1] && r[i + 1] == s[i]
    ensures forall j | 0 <= j < |s| && j != i && j != i + 1 :: r[j] == s[j]
  {
    s[i := s[i + 1]][i + 1 := s[i]]
  }

  // ---------- Reorder is the fixed point of swapping ----------

  lemma {:induction false} ReorderOfOrdered(t: Unicode, s: seq<Unichar>)
    requires Ordered(t, s)
    ensures Reorder(t, s) == s
  {
    if s != [] {
      forall i | 0 < i < |s[1..]| ensures !OutOfOrder(t, s[1..][i - 1], s[1..][i]) {
        assert s[1..][i - 1] == s[i] && s[1..][i] == s[i + 1];
      }
      ReorderOfOrdered(t, s[1..]);
      if |s| > 1 {
        assert s[1..][0] == s[1] && !OutOfOrder(t, s[0], s[1]);
      }
    }
  }

  lemma OrderedTail(t: Unicode, s: seq<Unichar>)
    requires Ordered(t, s) && s != []
    ensures Ordered(t, s[1..])
  {
    forall i | 0 < i < |s[1..]| ensures !OutOfOrder(t, s[1..][i - 1], s[1..][i]) {
      assert s[1..][i - 1] == s[i] && s[1..][i] == s[i + 1];
    }
  }

  lemma {:induction false} InsertOrdered(t: Unicode, u: Unichar, s: seq<Unichar>)
    requires Ordered(t, s)
    ensures Ordered(t, Insert(t, u, s))
  {
    if s == [] || t.Class(u) == 0 || !OutOfOrder(t, u, s[0]) {
      var r := [u] + s;
      forall i | 0 < i < |r| ensures !OutOfOrder(t, r[i - 1], r[i]) {
        if i > 1 {
          assert r[i - 1] == s[i - 2] && r[i] == s[i - 1];
        }
      }
    } else {
      OrderedTail(t, s);
      InsertOrdered(t, u, s[1..]);
      var q := Insert(t, u, s[1..]);
      var r := [s[0]] + q;
      if |s| > 1 {
        assert !OutOfOrder(t, s[0], s[1]);
      }
      forall i | 0 < i < |r| ensures !OutOfOrder(t, r[i - 1], r[i]) {
        if i > 1 {
          assert r[i - 1] == q[i - 2] && r[i] == q[i - 1];
        }
      }
    }
  }

  lemma {:induction false} ReorderOrdered(t: Unicode, s: seq<Unichar>)
    ensures Ordered(t, Reorder(t, s))
  {
    if s != [] {
      ReorderOrdered(t, s[1..]);
      InsertOrdered(t, s[0], Reorder(t, s[1..]));
    }
  }

  lemma {:induction false} InsertCommutes(t: Unicode, a: Unichar, b: Unichar, s: seq<Unichar>)
    requires t.Class(a) != 0 && t.Class(b) != 0
    ensures Insert(t, a, Insert(t, b, s)) == Insert(t, b, Insert(t, a, s))
  {
    if s != [] && t.Class(s[0]) != 0 && After(t, a, s[0]) && After(t, b, s[0]) {
      InsertCommutes(t, a, b, s[1..]);
      assert ([s[0]] + Insert(t, b, s[1..]))[1..] == Insert(t, b, s[1..]);
      assert ([s[0]] + Insert(t, a, s[1..]))[1..] == Insert(t, a, s[1..]);
    } else {
      assert ([a] + s)[1..] == s && ([b] + s)[1..] == s;
    }
  }

  /** Exchanging two neighbouring marks does not change what a sequence is reordered to. */
  lemma {:induction false} ReorderOfSwap(t: Unicode, s: seq<Unichar>, i: nat)
    requires i + 1 < |s| && t.Class(s[i]) != 0 && t.Class(s[i + 1]) != 0
    ensures Reorder(t, Swap(s, i)) == Reorder(t, s)
  {
    if i == 0 {
      assert s[1..][0] == s[1] && s[1..][1..] == s[2..];
      assert Swap(s, 0)[1..][0] == s[0] && Swap(s, 0)[1..][1..] == s[2..];
      InsertCommutes(t, s[0], s[1], Reorder(t, s[2..]));
    } else {
      assert Swap(s, i)[1..] == Swap(s[1..], i - 1);
      ReorderOfSwap(t, s[1..], i - 1);
    }
  }

  // ---------- termination of the bubble sort ----------

  /** How many marks of the run at the start of `s` must move in front of `u`. */
  function Overtaking(t: Unicode, u: Unichar, s: seq<Unichar>): nat {
    if s == [] || t.Class(s[0]) == 0 then 0
    else (if After(t, u, s[0]) then 1 else 0) + Overtaking(t, u, s[1..])
  }

  /** The number of inversions inside runs of marks. */
  function Inversions(t: Unicode, s: seq<Unichar>): nat {
    if s == [] || t.Class(s[0]) == 0 then if s == [] then 0 else Inversions(t, s[1..])
    else Overtaking(t, s[0], s[1..]) + Inversions(t, s[1..])
  }

  lemma {:induction false} OvertakingOfSwap(t: Unicode, u: Unichar, s: seq<Unichar>, i: nat)
    requires i + 1 < |s| && t.Class(s[i]) != 0 && t.Class(s[i + 1]) != 0
    ensures Overtaking(t, u, Swap(s, i)) == Overtaking(t, u, s)
  {
    if i == 0 {
      assert s[1..][0] == s[1] && s[1..][1..] == s[2..];
      assert Swap(s, 0)[1..][0] == s[0] && Swap(s, 0)[1..][1..] == s[2..];
    } else {
      assert Swap(s, i)[1..] == Swap(s[1..], i - 1);
      OvertakingOfSwap(t, u, s[1..], i - 1);
    }
  }

  /** Every swap the loop makes removes exactly one inversion. */
  lemma {:induction false} InversionsOfSwap(t: Unicode, s: seq<Unichar>, i: nat)
    requires i + 1 < |s| && OutOfOrder(t, s[i], s[i + 1])
    ensures Inversions(t, Swap(s, i)) == Inversions(t, s) - 1
  {
    if i == 0 {
      assert s[1..][0] == s[1] && s[1..][1..] == s[2..];
      assert Swap(s, 0)[1..][0] == s[0] && Swap(s, 0)[1..][1..] == s[2..];
    } else {
      assert Swap(s, i)[1..] == Swap(s[1..], i - 1);
      InversionsOfSwap(t, s[1..], i - 1);
      OvertakingOfSwap(t, s[0], s[1..], i - 1);
    }
  }

  // ---------- canonical form: reorderings of marks inside runs ----------

  /** `b` is `a` with marks permuted inside their runs: units of class 0 stay where they are,
      and up to each of them, and in total, the same units occur. */
  ghost predicate RunPermutation(t: Unicode, a: seq<Unichar>, b: seq<Unichar>) {
    && |a| == |b|
    && multiset(a) == multiset(b)
    && forall i | 0 <= i < |a| && (t.Class(a[i]) == 0 || t.Class(b[i]) == 0) ::
         a[i] == b[i] && multiset(a[..i]) == multiset(b[..i])
  }

  lemma RunPermutationTransitive(t: Unicode, a: seq<Unichar>, b: seq<Unichar>, c: seq<Unichar>)
    requires RunPermutation(t, a, b) && RunPermutation(t, b, c)
    ensures RunPermutation(t, a, c)
  {
  }

  lemma RunPermutationPrepend(t: Unicode, u: Unichar, a: seq<Unichar>, b: seq<Unichar>)
    requires RunPermutation(t, a, b)
    ensures RunPermutation(t, [u] + a, [u] + b)
  {
    var x, y := [u] + a, [u] + b;
    forall i | 0 <= i < |x| && (t.Class(x[i]) == 0 || t.Class(y[i]) == 0)
      ensures x[i] == y[i] && multiset(x[..i]) == multiset(y[..i])
    {
      if i > 0 {
        assert x[i] == a[i - 1] && y[i] == b[i - 1];
        assert x[..i] == [u] + a[..i - 1] && y[..i] == [u] + b[..i - 1];
      }
    }
  }

  lemma SwapMultiset(s: seq<Unichar>, i: nat)
    requires i + 1 < |s|
    ensures multiset(Swap(s, i)) == multiset(s)
  {
    var m := s[i := s[i + 1]];
    assert multiset(m) == multiset(s) - multiset{s[i]} + multiset{s[i + 1]};
    assert multiset(Swap(s, i)) == multiset(m) - multiset{s[i + 1]} + multiset{s[i]};
  }

  lemma SwapPermutes(t: Unicode, s: seq<Unichar>, i: nat)
    requires i + 1 < |s| && t.Class(s[i]) != 0 && t.Class(s[i + 1]) != 0
    ensures RunPermutation(t, s, Swap(s, i))
  {
    var r := Swap(s, i);
    SwapMultiset(s, i);
    forall j | 0 <= j < |s| && (t.Class(s[j]) == 0 || t.Class(r[j]) == 0)
      ensures s[j] == r[j] && multiset(s[..j]) == multiset(r[..j])
    {
      if j < i {
        assert s[..j] == r[..j];
      } else {
        assert r[..j] == Swap(s[..j], i);
        SwapMultiset(s[..j], i);
      }
    }
  }

  lemma {:induction false} InsertPermutes(t: Unicode, u: Unichar, s: seq<Unichar>)
    ensures RunPermutation(t, [u] + s, Insert(t, u, s))
  {
    if s == [] || t.Class(u) == 0 || !OutOfOrder(t, u, s[0]) {
    } else {
      InsertPermutes(t, u, s[1..]);
      RunPermutationPrepend(t, s[0], [u] + s[1..], Insert(t, u, s[1..]));
      SwapPermutes(t, [u] + s, 0);
      assert Swap([u] + s, 0) == [s[0]] + ([u] + s[1..]);
      RunPermutationTransitive(t, [u] + s, [s[0]] + ([u] + s[1..]), Insert(t, u, s));
    }
  }

  lemma {:induction false} ReorderPermutes(t: Unicode, s: seq<Unichar>)
    ensures RunPermutation(t, s, Reorder(t, s))
  {
    if s != [] {
      ReorderPermutes(t, s[1..]);
      RunPermutationPrepend(t, s[0], s[1..], Reorder(t, s[1..]));
      assert [s[0]] + s[1..] == s;
      InsertPermutes(t, s[0], Reorder(t, s[1..]));
      RunPermutationTransitive(t, s, [s[0]] + Reorder(t, s[1..]), Reorder(t, s));
    }
  }

  /** The length of the run of marks at the start of `s`. */
  function RunLength(t: Unicode, s: seq<Unichar>): (n: nat)
    ensures n <= |s|
    ensures forall i | 0 <= i < n :: t.Class(s[i]) != 0
    ensures n < |s| ==> t.Class(s[n]) == 0
  {
    if s == [] || t.Class(s[0]) == 0 then 0 else 1 + RunLength(t, s[1..])
  }

  lemma {:induction false} HeadIsLeast(t: Unicode, s: seq<Unichar>, m: nat)
    requires Ordered(t, s) && m < RunLength(t, s)
    ensures !After(t, s[0], s[m])
  {
    if m > 0 {
      HeadIsLeast(t, s, m - 1);
      assert !OutOfOrder(t, s[m - 1], s[m]);
    }
  }

  /** In two ordered permutations of each other, the second cannot start with a smaller mark. */
  lemma HeadsAgree(t: Unicode, a: seq<Unichar>, b: seq<Unichar>)
    requires RunPermutation(t, a, b) && Ordered(t, a) && a != []
    requires t.Class(a[0]) != 0
    ensures !After(t, a[0], b[0])
  {
    var n := RunLength(t, a);
    assert multiset(a[..n]) == multiset(b[..n]) by {
      if n == |a| {
        assert a[..n] == a && b[..n] == b;
      }
    }
    assert b[..n][0] == b[0];
    assert b[0] in multiset(a[..n]);
    var m :| 0 <= m < n && a[m] == b[0];
    HeadIsLeast(t, a, m);
  }

  lemma MultisetTail(s: seq<Unichar>)
    requires s != []
    ensures multiset(s) == multiset{s[0]} + multiset(s[1..])
  {
    assert s == [s[0]] + s[1..];
  }

  lemma EqualTails(a: seq<Unichar>, b: seq<Unichar>)
    requires a != [] && b != [] && a[0] == b[0] && multiset(a) == multiset(b)
    ensures multiset(a[1..]) == multiset(b[1..])
  {
    MultisetTail(a);
    MultisetTail(b);
    assert multiset(a[1..]) == multiset(a) - multiset{a[0]};
    assert multiset(b[1..]) == multiset(b) - multiset{b[0]};
  }

  lemma RunPermutationTail(t: Unicode, a: seq<Unichar>, b: seq<Unichar>)
    requires RunPermutation(t, a, b) && a != [] && a[0] == b[0]
    ensures RunPermutation(t, a[1..], b[1..])
  {
    var x, y := a[1..], b[1..];
    EqualTails(a, b);
    forall i | 0 <= i < |x| && (t.Class(x[i]) == 0 || t.Class(y[i]) == 0)
      ensures x[i] == y[i] && multiset(x[..i]) == multiset(y[..i])
    {
      assert x[i] == a[i + 1] && y[i] == b[i + 1];
      EqualTails(a[..i + 1], b[..i + 1]);
      assert x[..i] == a[..i + 1][1..] && y[..i] == b[..i + 1][1..];
    }
  }

  /** There is only one ordered arrangement. */
  lemma {:induction false} OrderedIsUnique(t: Unicode, a: seq<Unichar>, b: seq<Unichar>)
    requires RunPermutation(t, a, b) && Ordered(t, a) && Ordered(t, b)
    ensures a == b
    decreases |a|
  {
    if a != [] {
      if t.Class(a[0]) != 0 && t.Class(b[0]) != 0 {
        HeadsAgree(t, a, b);
        HeadsAgree(t, b, a);
      }
      RunPermutationTail(t, a, b);
      OrderedTail(t, a);
      OrderedTail(t, b);
      OrderedIsUnique(t, a[1..], b[1..]);
      assert a == [a[0]] + a[1..] && b == [b[0]] + b[1..];
    }
  }

  /** Two sequences are reordered to the same one exactly when they differ only in the
      order of marks inside runs. */
  lemma ReorderEqualIff(t: Unicode, a: seq<Unichar>, b: seq<Unichar>)
    ensures Reorder(t, a) == Reorder(t, b) <==> RunPermutation(t, a, b)
  {
    hide Reorder, RunPermutation, Ordered;
    ReorderPermutes(t, a);
    ReorderPermutes(t, b);
    if Reorder(t, a) == Reorder(t, b) {
      RunPermutationTransitive(t, a, Reorder(t, a), b);
    }
    if RunPermutation(t, a, b) {
      RunPermutationTransitive(t, Reorder(t, a), a, b);
      RunPermutationTransitive(t, Reorder(t, a), b, Reorder(t, b));
      ReorderOrdered(t, a);
      ReorderOrdered(t, b);
      OrderedIsUnique(t, Reorder(t, a), Reorder(t, b));
    }
  }

  lemma ReorderBack(t: Unicode, s: seq<Unichar>)
    ensures RunPermutation(t, Reorder(t, s), s)
  {
    ReorderPermutes(t, s);
  }

  /** Nowhere in the result does a mark stand behind one of a higher class, or behind one of the
      same class with a greater code unit. */
  lemma ReorderSorts(t: Unicode, s: seq<Unichar>)
    ensures var r := Reorder(t, s);
            forall i | 0 < i < |r| ::
              t.Class(r[i]) != 0 ==>
                t.Class(r[i - 1]) < t.Class(r[i]) || (t.Class(r[i - 1]) == t.Class(r[i]) && r[i - 1] <= r[i])
  {
    ReorderOrdered(t, s);
    assert forall i | 0 < i < |Reorder(t, s)| :: !OutOfOrder(t, Reorder(t, s)[i - 1], Reorder(t, s)[i]);
  }

  lemma SortedIsOrdered(t: Unicode, r: seq<Unichar>)
    requires forall i | 0 < i < |r| ::
               t.Class(r[i]) != 0 ==>
                 t.Class(r[i - 1]) < t.Class(r[i]) || (t.Class(r[i - 1]) == t.Class(r[i]) && r[i - 1] <= r[i])
    ensures Ordered(t, r)
  {
  }

  /** The outcome is characterised without mentioning how it is reached: marks are permuted inside
      runs only, into ascending order of class, and of code unit inside a class. */
  lemma ReorderIs(t: Unicode, s: seq<Unichar>, r: seq<Unichar>)
    ensures r == Reorder(t, s) <==>
              && RunPermutation(t, s, r)
              && forall i | 0 < i < |r| ::
                   t.Class(r[i]) != 0 ==>
                     t.Class(r[i - 1]) < t.Class(r[i]) || (t.Class(r[i - 1]) == t.Class(r[i]) && r[i - 1] <= r[i])
  {
    hide RunPermutation, Reorder, Ordered;
    ReorderPermutes(t, s);
    ReorderOrdered(t, s);
    ReorderSorts(t, s);
    if RunPermutation(t, s, r) {
      RunPermutationTransitive(t, Reorder(t, s), s, r) by { ReorderBack(t, s); }
      if forall i | 0 < i < |r| ::
           t.Class(r[i]) != 0 ==>
             t.Class(r[i - 1]) < t.Class(r[i]) || (t.Class(r[i - 1]) == t.Class(r[i]) && r[i - 1] <= r[i])
      {
        SortedIsOrdered(t, r);
        OrderedIsUnique(t, Reorder(t, s), r);
      }
    }
  }
}
