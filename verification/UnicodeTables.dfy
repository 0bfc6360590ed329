/** The Unicode data the sequence code consults: one-level decompositions, combining
    classes, lower-case mappings and the non-base set.  The contents of the tables are
    a parameter; `Valid` lists what the code relies on and the shipped tables satisfy. */
module UnicodeTables {
  type Unichar = u: int | 0 <= u < 0x1_0000

  /** `rank` witnesses that decomposition cannot cycle.  It is not consulted by the code. */
  datatype Tables = Tables(
    decomp: map<Unichar, seq<Unichar>>,
    cop: map<Unichar, nat>,
    lower: map<Unichar, Unichar>,
    nonBase: set<Unichar>,
    rank: map<Unichar, nat>)
  {
    predicate Composite(u: Unichar) {
      u in decomp
    }

    function Rank(u: Unichar): nat {
      if u in decomp && u in rank then rank[u] + 1 else 0
    }

    /** The canonical combining class; 0 for a unit that is not in the table. */
    function Class(u: Unichar): nat {
      if u in cop then cop[u] else 0
    }

    function ToLower(u: Unichar): Unichar {
      if u in lower then lower[u] else u
    }

    ghost predicate Valid() {
      && (forall u | u in decomp ::
            u >= 0xC0 && decomp[u] != [] && 0 !in decomp[u] && u in rank)
      && (forall u, i | u in decomp && 0 <= i < |decomp[u]| ::
            Rank(decomp[u][i]) < Rank(u))
      && (forall u | u in cop :: u >= 0xC0)
      && (forall u | u in lower :: lower[u] != 0)
      && 0 !in nonBase
    }
  }

  type Unicode = t: Tables | t.Valid() witness Tables(map[], map[], map[], {}, map[])

  /** The largest rank in a sequence: the measure under which decomposition terminates. */
  function MaxRank(t: Unicode, s: seq<Unichar>): nat {
    if s == [] then 0
    else
      var m := MaxRank(t, s[1..]);
      if t.Rank(s[0]) > m then t.Rank(s[0]) else m
  }

  lemma MaxRankConcat(t: Unicode, a: seq<Unichar>, b: seq<Unichar>)
    ensures MaxRank(t, a + b) == if MaxRank(t, a) > MaxRank(t, b) then MaxRank(t, a) else MaxRank(t, b)
  {
    if a == [] {
      assert a + b == b;
    } else {
      assert (a + b)[1..] == a[1..] + b;
      MaxRankConcat(t, a[1..], b);
    }
  }

  lemma MaxRankBelow(t: Unicode, s: seq<Unichar>, r: nat)
    requires r > 0
    requires forall i | 0 <= i < |s| :: t.Rank(s[i]) < r
    ensures MaxRank(t, s) < r
  {
    if s != [] {
      MaxRankBelow(t, s[1..], r);
    }
  }
}
