/** The expansion loop of GSeq_normalize and the full canonical decomposition it aims at. */
module Decomposition {
  import opened UnicodeTables

  /** One level of decomposition of a single unit. */
  function Once(t: Unicode, u: Unichar): seq<Unichar> {
    if t.Composite(u) then t.decomp[u] else [u]
  }

  /** One pass of the inner do/while loop: every unit decomposed by one level. */
  function Pass(t: Unicode, s: seq<Unichar>): seq<Unichar> {
    if s == [] then [] else Once(t, s[0]) + Pass(t, s[1..])
  }

  /** Position of the first composite unit, or the length when there is none. */
  function FirstComposite(t: Unicode, s: seq<Unichar>): (k: nat)
    ensures k <= |s|
    ensures k < |s| ==> t.Composite(s[k])
  {
    if s == [] || t.Composite(s[0]) then 0 else 1 + FirstComposite(t, s[1..])
  }

  ghost predicate Flat(t: Unicode, s: seq<Unichar>) {
    forall i | 0 <= i < |s| :: !t.Composite(s[i])
  }

  // ---------- ranks ----------

  lemma {:induction false} BeforeFirstComposite(t: Unicode, s: seq<Unichar>)
    ensures Flat(t, s[..FirstComposite(t, s)])
  {
    var k := FirstComposite(t, s);
    if k > 0 {
      BeforeFirstComposite(t, s[1..]);
      assert forall i | 0 < i < k :: s[..k][i] == s[1..][..k - 1][i - 1];
    }
  }

  lemma HeadLowersRank(t: Unicode, s: seq<Unichar>)
    requires s != [] && t.Composite(s[0])
    ensures MaxRank(t, t.decomp[s[0]]) < t.Rank(s[0]) <= MaxRank(t, s)
  {
    MaxRankBelow(t, t.decomp[s[0]], t.Rank(s[0]));
  }

  lemma PassRank(t: Unicode, s: seq<Unichar>)
    ensures MaxRank(t, s) > 0 ==> MaxRank(t, Pass(t, s)) < MaxRank(t, s)
    ensures MaxRank(t, s) == 0 ==> MaxRank(t, Pass(t, s)) == 0
  {
    if s != [] {
      PassRank(t, s[1..]);
      MaxRankConcat(t, Once(t, s[0]), Pass(t, s[1..]));
      if t.Composite(s[0]) {
        HeadLowersRank(t, s);
      }
    }
  }

  lemma PassLowersRank(t: Unicode, s: seq<Unichar>, k: nat)
    requires k < |s| && t.Composite(s[k])
    ensures |Pass(t, s[k..])| > 0
    ensures MaxRank(t, Pass(t, s[k..])[1..]) < MaxRank(t, s)
  {
    PassRank(t, s[k..]);
    var p := Pass(t, s[k..]);
    assert p == Once(t, s[k]) + Pass(t, s[k..][1..]);
    MaxRankConcat(t, s[..k], s[k..]);
    assert s[..k] + s[k..] == s;
    MaxRankConcat(t, p[..1], p[1..]);
    assert p[..1] + p[1..] == p;
  }

  /** What the outer loop leaves: each pass restarts just behind the first unit it
      decomposed, so that the head of that decomposition is never looked at again. */
  function Expand(t: Unicode, s: seq<Unichar>): seq<Unichar>
    decreases MaxRank(t, s)
  {
    var k := FirstComposite(t, s);
    if k == |s| then s
    else
      var p := Pass(t, s[k..]);
      PassLowersRank(t, s, k);
      s[..k] + p[..1] + Expand(t, p[1..])
  }

  // ---------- the full decomposition ----------

  /** The full canonical decomposition: no unit of the result is composite. */
  function Full(t: Unicode, s: seq<Unichar>): seq<Unichar>
    decreases MaxRank(t, s), |s|
  {
    if s == [] then []
    else if t.Composite(s[0]) then
      HeadLowersRank(t, s);
      Full(t, t.decomp[s[0]]) + Full(t, s[1..])
    else [s[0]] + Full(t, s[1..])
  }

  /** Height of the decomposition trees of the units of `s`. */
  function Depth(t: Unicode, s: seq<Unichar>): nat
    decreases MaxRank(t, s), |s|
  {
    if s == [] then 0
    else
      var d := if t.Composite(s[0]) then HeadLowersRank(t, s); 1 + Depth(t, t.decomp[s[0]]) else 0;
      var r := Depth(t, s[1..]);
      if d > r then d else r
  }

  function Max(a: nat, b: nat): nat { if a > b then a else b }

  /** The exact condition under which the skip is harmless, read off the tables before the
      call.  `n` is the number of passes that units to the left have already caused: a unit
      met while n == 0 is the first composite of a pass, and its head must not be composite. */
  predicate Settles(t: Unicode, s: seq<Unichar>, n: nat)
    decreases MaxRank(t, s), |s|
  {
    s == [] ||
    (&& Settles(t, s[1..], Max(n, Depth(t, s[..1])))
     && (t.Composite(s[0]) ==>
           (HeadLowersRank(t, s);
            && (n == 0 ==> !t.Composite(t.decomp[s[0]][0]))
            && Settles(t, t.decomp[s[0]], if n == 0 then 0 else n - 1))))
  }

  lemma {:induction false} FullConcat(t: Unicode, a: seq<Unichar>, b: seq<Unichar>)
    ensures Full(t, a + b) == Full(t, a) + Full(t, b)
    decreases |a|
  {
    if a == [] {
      assert a + b == b;
    } else {
      assert (a + b)[0] == a[0] && (a + b)[1..] == a[1..] + b;
      FullConcat(t, a[1..], b);
    }
  }

  lemma {:induction false} FullOfFlat(t: Unicode, s: seq<Unichar>)
    requires Flat(t, s)
    ensures Full(t, s) == s
  {
    if s != [] {
      FullOfFlat(t, s[1..]);
    }
  }

  /** The full decomposition really is complete, and decomposing one level first is harmless. */
  lemma {:induction false} FullIsFlat(t: Unicode, s: seq<Unichar>)
    ensures Flat(t, Full(t, s))
    ensures Full(t, Full(t, s)) == Full(t, s)
    decreases MaxRank(t, s), |s|
  {
    if s != [] {
      FullIsFlat(t, s[1..]);
      if t.Composite(s[0]) {
        HeadLowersRank(t, s);
        FullIsFlat(t, t.decomp[s[0]]);
      }
    }
    FullOfFlat(t, Full(t, s));
  }

  lemma {:induction false} FullOfPass(t: Unicode, s: seq<Unichar>)
    ensures Full(t, Pass(t, s)) == Full(t, s)
  {
    if s != [] {
      FullOfPass(t, s[1..]);
      FullConcat(t, Once(t, s[0]), Pass(t, s[1..]));
    }
  }

  // ---------- depth and settling under concatenation and passes ----------

  lemma {:induction false} DepthConcat(t: Unicode, a: seq<Unichar>, b: seq<Unichar>)
    ensures Depth(t, a + b) == Max(Depth(t, a), Depth(t, b))
    decreases |a|
  {
    if a == [] {
      assert a + b == b;
    } else {
      assert (a + b)[0] == a[0] && (a + b)[1..] == a[1..] + b;
      DepthConcat(t, a[1..], b);
    }
  }

  lemma {:induction false} DepthOfFlat(t: Unicode, s: seq<Unichar>)
    requires Flat(t, s)
    ensures Depth(t, s) == 0
  {
    if s != [] {
      DepthOfFlat(t, s[1..]);
    }
  }

  lemma {:induction false} DepthOfPass(t: Unicode, s: seq<Unichar>)
    ensures Depth(t, s) > 0 ==> Depth(t, Pass(t, s)) == Depth(t, s) - 1
    ensures Depth(t, s) == 0 ==> Depth(t, Pass(t, s)) == 0
  {
    if s != [] {
      DepthOfPass(t, s[1..]);
      DepthConcat(t, Once(t, s[0]), Pass(t, s[1..]));
    }
  }

  lemma {:induction false} SettlesConcat(t: Unicode, a: seq<Unichar>, b: seq<Unichar>, n: nat)
    ensures Settles(t, a + b, n) <==> Settles(t, a, n) && Settles(t, b, Max(n, Depth(t, a)))
    decreases |a|
  {
    if a == [] {
      assert a + b == b;
    } else {
      assert (a + b)[0] == a[0] && (a + b)[1..] == a[1..] + b && (a + b)[..1] == a[..1];
      SettlesConcat(t, a[1..], b, Max(n, Depth(t, a[..1])));
      DepthConcat(t, a[..1], a[1..]);
      assert a[..1] + a[1..] == a;
    }
  }

  lemma {:induction false} SettlesOfFlat(t: Unicode, s: seq<Unichar>, n: nat)
    requires Flat(t, s)
    ensures Settles(t, s, n)
  {
    if s != [] {
      DepthOfFlat(t, s[..1]);
      SettlesOfFlat(t, s[1..], n);
    }
  }

  /** One pass uses up one level of the allowance. */
  lemma {:induction false} SettlesOfPass(t: Unicode, s: seq<Unichar>, n: nat)
    ensures Settles(t, Pass(t, s), n) <==> Settles(t, s, n + 1)
    decreases |s|
  {
    if s != [] {
      var m := Max(n, Depth(t, Once(t, s[0])));
      SettlesConcat(t, Once(t, s[0]), Pass(t, s[1..]), n);
      SettlesOfPass(t, s[1..], m);
      if t.Composite(s[0]) {
        assert Depth(t, s[..1]) == 1 + Depth(t, t.decomp[s[0]]);
      } else {
        SettlesOfFlat(t, Once(t, s[0]), n);
        DepthOfFlat(t, s[..1]);
        assert s[..1] == Once(t, s[0]);
      }
    }
  }

  // ---------- what the expansion loop achieves ----------

  lemma FinalHead(t: Unicode, before: seq<Unichar>, p: seq<Unichar>)
    requires p != [] && !t.Composite(p[0])
    ensures before + p[..1] + Expand(t, p[1..]) == before + Full(t, p) <==> Expand(t, p[1..]) == Full(t, p[1..])
  {
    assert p == p[..1] + p[1..];
    FullConcat(t, p[..1], p[1..]);
    FullOfFlat(t, p[..1]);
    var n := |before| + 1;
    assert (before + p[..1] + Expand(t, p[1..]))[n..] == Expand(t, p[1..]);
    assert (before + Full(t, p))[n..] == Full(t, p[1..]);
  }

  /** Behind a final head, the rest of the pass settles iff everything before the pass did. */
  lemma RestSettlesIff(t: Unicode, x: Unichar, r: seq<Unichar>)
    requires t.Composite(x) && !t.Composite(t.decomp[x][0])
    ensures var d := t.decomp[x];
            Settles(t, (d + Pass(t, r))[1..], 0) <==> Settles(t, d, 0) && Settles(t, r, 1 + Depth(t, d))
  {
    var d := t.decomp[x];
    assert (d + Pass(t, r))[1..] == d[1..] + Pass(t, r);
    SettlesConcat(t, d[1..], Pass(t, r), 0);
    SettlesOfPass(t, r, Depth(t, d[1..]));
    assert d == d[..1] + d[1..];
    DepthConcat(t, d[..1], d[1..]);
    SettlesConcat(t, d[..1], d[1..], 0);
    DepthOfFlat(t, d[..1]);
    SettlesOfFlat(t, d[..1], 0);
  }

  lemma SplitAtFirstComposite(t: Unicode, s: seq<Unichar>, k: nat)
    requires k == FirstComposite(t, s) < |s|
    ensures Full(t, s) == s[..k] + Full(t, Pass(t, s[k..]))
    ensures Settles(t, s, 0) <==>
            && !t.Composite(t.decomp[s[k]][0])
            && Settles(t, t.decomp[s[k]], 0)
            && Settles(t, s[k + 1..], 1 + Depth(t, t.decomp[s[k]]))
  {
    assert s == s[..k] + s[k..];
    BeforeFirstComposite(t, s);
    FullConcat(t, s[..k], s[k..]);
    FullOfFlat(t, s[..k]);
    FullOfPass(t, s[k..]);
    SettlesConcat(t, s[..k], s[k..], 0);
    SettlesOfFlat(t, s[..k], 0);
    DepthOfFlat(t, s[..k]);
    var q := s[k..];
    assert q[0] == s[k] && q[1..] == s[k + 1..];
    assert Depth(t, q[..1]) == 1 + Depth(t, t.decomp[s[k]]);
  }

  /** The expansion loop reaches the full decomposition exactly on the inputs that settle. */
  lemma {:induction false} ExpandIsFullIff(t: Unicode, s: seq<Unichar>)
    ensures Expand(t, s) == Full(t, s) <==> Settles(t, s, 0)
    decreases MaxRank(t, s)
  {
    var k := FirstComposite(t, s);
    BeforeFirstComposite(t, s);
    if k == |s| {
      assert s[..k] == s;
      FullOfFlat(t, s);
      SettlesOfFlat(t, s, 0);
    } else {
      var p := Pass(t, s[k..]);
      PassLowersRank(t, s, k);
      ExpandIsFullIff(t, p[1..]);
      SplitAtFirstComposite(t, s, k);
      assert p == t.decomp[s[k]] + Pass(t, s[k..][1..]);
      if t.Composite(p[0]) {
        FullIsFlat(t, s);
        assert Expand(t, s)[k] == p[0];
      } else {
        RestSettlesIff(t, s[k], s[k + 1..]);
        assert s[k..][1..] == s[k + 1..];
        FinalHead(t, s[..k], p);
      }
    }
  }

  lemma {:induction false} MaxRankOfFlat(t: Unicode, s: seq<Unichar>)
    requires Flat(t, s)
    ensures MaxRank(t, s) == 0
  {
    if s != [] {
      MaxRankOfFlat(t, s[1..]);
    }
  }

  /** Whatever can be decomposed, the result has a smaller largest rank, and it never has a larger one. */
  lemma {:induction false} ExpandLowersRank(t: Unicode, s: seq<Unichar>)
    ensures MaxRank(t, Expand(t, s)) <= MaxRank(t, s)
    ensures MaxRank(t, s) > 0 ==> MaxRank(t, Expand(t, s)) < MaxRank(t, s)
    decreases MaxRank(t, s)
  {
    var k := FirstComposite(t, s);
    BeforeFirstComposite(t, s);
    if k < |s| {
      var p := Pass(t, s[k..]);
      PassLowersRank(t, s, k);
      ExpandLowersRank(t, p[1..]);
      MaxRankOfFlat(t, s[..k]);
      MaxRankConcat(t, s[..k] + p[..1], Expand(t, p[1..]));
      MaxRankConcat(t, s[..k], p[..1]);
      PassRank(t, s[k..]);
      assert p == p[..1] + p[1..];
      MaxRankConcat(t, p[..1], p[1..]);
      assert s == s[..k] + s[k..];
      MaxRankConcat(t, s[..k], s[k..]);
    } else {
      assert s[..k] == s;
      MaxRankOfFlat(t, s);
    }
  }
}
