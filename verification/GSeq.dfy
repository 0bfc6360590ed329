/** Sequences of UTF-16 units normalised and compared in place (GSeqStruct). */
module GSeq {
  import opened UnicodeTables
  import opened Decomposition
  import opened CanonicalOrder

  const MAXDEC: nat := 18

  function Min(a: nat, b: nat): nat { if a < b then a else b }

  // ---------- what normalisation computes ----------

  /** Position of the first unit that the pre-scan cannot rule out as composite. */
  function FirstWide(s: seq<Unichar>): (k: nat)
    ensures k <= |s|
  {
    if s == [] || s[0] >= 0xC0 then 0 else 1 + FirstWide(s[1..])
  }

  lemma {:induction false} FirstWideFacts(s: seq<Unichar>)
    ensures FirstWide(s) < |s| ==> s[FirstWide(s)] >= 0xC0
    ensures forall i | 0 <= i < FirstWide(s) :: s[i] < 0xC0
  {
    if s != [] && s[0] < 0xC0 {
      FirstWideFacts(s[1..]);
    }
  }

  /** Position of the first NUL at or after `from`, or the length when there is none. */
  function NulAfter(s: seq<Unichar>, from: nat): (z: nat)
    requires from <= |s|
    ensures from <= z <= |s|
    decreases |s| - from
  {
    if from == |s| || s[from] == 0 then from else NulAfter(s, from + 1)
  }

  lemma {:induction false} NulAfterFacts(s: seq<Unichar>, from: nat)
    requires from <= |s|
    ensures var z := NulAfter(s, from);
            0 !in s[from..z] && (z < |s| ==> s[z] == 0)
    decreases |s| - from
  {
    if from < |s| && s[from] != 0 {
      NulAfterFacts(s, from + 1);
      var z := NulAfter(s, from);
      assert s[from..z] == [s[from]] + s[from + 1..z];
    }
  }

  /** Before reordering: the part up to the first wide unit is kept, the rest is expanded up
      to a NUL, and the NUL is counted.  Anything behind an embedded NUL is dropped. */
  function Expanded(t: Unicode, s: seq<Unichar>): seq<Unichar>
    requires FirstWide(s) < |s|
  {
    var b := FirstWide(s);
    s[..b] + Expand(t, s[b..NulAfter(s, b)]) + [0]
  }

  function NormalForm(t: Unicode, s: seq<Unichar>): seq<Unichar> {
    if FirstWide(s) == |s| then s else Reorder(t, Expanded(t, s))
  }

  function Lower(t: Unicode, s: seq<Unichar>): (r: seq<Unichar>)
    ensures |r| == |s|
  {
    seq(|s|, i requires 0 <= i < |s| => t.ToLower(s[i]))
  }

  /** Unit by unit, through the lower-case table. */
  lemma LowerAt(t: Unicode, s: seq<Unichar>, i: nat)
    requires i < |s|
    ensures Lower(t, s)[i] == if s[i] in t.lower then t.lower[s[i]] else s[i]
  {
  }

  // ---------- comparison ----------

  datatype Order = Ascending | Same | Descending {
    function Reverse(): Order {
      match this
      case Ascending => Descending
      case Same => Same
      case Descending => Ascending
    }
  }

  /** Lexicographic comparison by unit. */
  function Lex(a: seq<Unichar>, b: seq<Unichar>): Order {
    if a == [] then if b == [] then Same else Ascending
    else if b == [] then Descending
    else if a[0] < b[0] then Ascending
    else if a[0] > b[0] then Descending
    else Lex(a[1..], b[1..])
  }

  // ---------- normalising in place ----------

  lemma {:induction false} FirstWideIs(s: seq<Unichar>, k: nat)
    requires k <= |s| && (k < |s| ==> s[k] >= 0xC0)
    requires forall i | 0 <= i < k :: s[i] < 0xC0
    ensures FirstWide(s) == k
  {
    if k > 0 {
      FirstWideIs(s[1..], k - 1);
    }
  }

  /** What is still to be expanded: the units from `base` to the NUL at `z`. */
  ghost predicate Pending(t: Unicode, src: seq<Unichar>, base: nat, z: nat, result: seq<Unichar>) {
    && base <= z < |src|
    && src[z] == 0 && 0 !in src[base..z]
    && src[..base] + Expand(t, src[base..z]) + [0] == result
  }

  /** Between two passes: what is still to be expanded, or the result. */
  ghost predicate ExpandState(t: Unicode, src: seq<Unichar>, base: nat, count: nat, z: nat, result: seq<Unichar>) {
    && base <= count < |src|
    && (base < count ==> base <= z <= count && Pending(t, src, base, z, result))
    && (base == count ==> src[..count] == result)
  }

  ghost function Remaining(t: Unicode, src: seq<Unichar>, base: nat, count: nat, z: nat): nat {
    if base < count && base <= z < |src| then 1 + MaxRank(t, src[base..z]) else 0
  }

  lemma {:induction false} PassConcat(t: Unicode, a: seq<Unichar>, b: seq<Unichar>)
    ensures Pass(t, a + b) == Pass(t, a) + Pass(t, b)
    decreases |a|
  {
    if a == [] {
      assert a + b == b;
    } else {
      assert (a + b)[0] == a[0] && (a + b)[1..] == a[1..] + b;
      PassConcat(t, a[1..], b);
    }
  }

  lemma {:induction false} PassOfFlat(t: Unicode, s: seq<Unichar>)
    requires Flat(t, s)
    ensures Pass(t, s) == s
  {
    if s != [] {
      PassOfFlat(t, s[1..]);
    }
  }

  lemma PassSplit(t: Unicode, s: seq<Unichar>)
    ensures var k := FirstComposite(t, s);
            Pass(t, s) == s[..k] + Pass(t, s[k..])
  {
    var k := FirstComposite(t, s);
    assert s == s[..k] + s[k..];
    PassConcat(t, s[..k], s[k..]);
    BeforeFirstComposite(t, s);
    PassOfFlat(t, s[..k]);
  }

  lemma {:induction false} PassNotShorter(t: Unicode, s: seq<Unichar>)
    ensures |s| <= |Pass(t, s)|
  {
    if s != [] {
      PassNotShorter(t, s[1..]);
    }
  }

  lemma {:induction false} ExpandNotShorter(t: Unicode, s: seq<Unichar>)
    ensures |s| <= |Expand(t, s)| && |Pass(t, s)| <= |Expand(t, s)|
    decreases MaxRank(t, s)
  {
    var k := FirstComposite(t, s);
    PassSplit(t, s);
    if k < |s| {
      PassLowersRank(t, s, k);
      ExpandNotShorter(t, Pass(t, s[k..])[1..]);
      PassNotShorter(t, s[k..]);
    }
  }

  /** Append `d` to what has been written to `target` since `base`. */
  method Emit(target: array<Unichar>, base: nat, end: nat, d: seq<Unichar>) returns (newEnd: nat)
    requires base <= end && end + |d| <= target.Length
    modifies target
    ensures newEnd == end + |d|
    ensures target[base..newEnd] == old(target[base..end]) + d
  {
    newEnd := end;
    for i := 0 to |d|
      invariant newEnd == end + i
      invariant target[base..newEnd] == old(target[base..end]) + d[..i]
    {
      target[newEnd] := d[i];
      newEnd := newEnd + 1;
    }
  }

  lemma NulEnds(s: seq<Unichar>, scanned: seq<Unichar>)
    requires 0 !in s && scanned == s + [0]
    ensures forall j | 0 <= j < |s| :: scanned[j] != 0
  {
    forall j | 0 <= j < |s| ensures scanned[j] != 0 {
      assert scanned[j] == s[j] && s[j] in s;
    }
  }

  /** State of the scan after `i` units of `s`: `out` is written, the rest is still to come. */
  ghost predicate PassState(t: Unicode, s: seq<Unichar>, i: nat, out: seq<Unichar>, newbase: nat, base: nat) {
    && i <= |s|
    && out + Pass(t, s[i..]) == Pass(t, s)
    && if newbase == 0 then FirstComposite(t, s) == i + FirstComposite(t, s[i..])
       else newbase == base + FirstComposite(t, s) + 1 && FirstComposite(t, s) < |s|
  }

  lemma PassStart(t: Unicode, s: seq<Unichar>, base: nat)
    ensures PassState(t, s, 0, [], 0, base)
  {
    assert s[0..] == s;
  }

  lemma PassStep(t: Unicode, s: seq<Unichar>, i: nat, out: seq<Unichar>, newbase: nat, base: nat)
    requires i < |s| && PassState(t, s, i, out, newbase, base)
    ensures var next := if t.Composite(s[i]) && newbase == 0 then base + i + 1 else newbase;
            PassState(t, s, i + 1, out + Once(t, s[i]), next, base)
    ensures |out| + |Once(t, s[i])| <= |Pass(t, s)|
  {
    assert s[i..][0] == s[i] && s[i..][1..] == s[i + 1..];
    assert out + (Once(t, s[i]) + Pass(t, s[i + 1..])) == (out + Once(t, s[i])) + Pass(t, s[i + 1..]);
  }

  lemma PassDone(t: Unicode, s: seq<Unichar>, out: seq<Unichar>, newbase: nat, base: nat)
    requires PassState(t, s, |s|, out, newbase, base)
    ensures out == Pass(t, s)
    ensures newbase == if FirstComposite(t, s) == |s| then 0 else base + FirstComposite(t, s) + 1
  {
    assert s[|s|..] == [];
  }

  /** One scan of the do/while loop from `base` to the NUL at `z`, writing into `target`. */
  method ExpandPass(t: Unicode, source: array<Unichar>, target: array<Unichar>, base: nat, ghost z: nat)
    returns (count: nat, newbase: nat)
    requires source != target
    requires base <= z < source.Length && source[z] == 0 && 0 !in source[base..z]
    requires base + |Pass(t, source[base..z])| < target.Length
    modifies target
    ensures count == base + |Pass(t, source[base..z])| + 1
    ensures target[base..count] == Pass(t, source[base..z]) + [0]
    ensures var k := FirstComposite(t, source[base..z]);
            newbase == if k == z - base then 0 else base + k + 1
  {
    hide PassState, Pass, FirstComposite, Once;
    ghost var s := source[base..z];
    ghost var scanned := source[base..z + 1];
    assert scanned == s + [0];
    NulEnds(s, scanned);
    var sp, tp := base, base;
    newbase := 0;
    ghost var i: nat, out: seq<Unichar> := 0, [];
    PassStart(t, s, base);
    while source[sp] != 0
      invariant base <= sp <= z && i == sp - base
      invariant forall j | base <= j <= z :: source[j] == scanned[j - base]
      invariant tp == base + |out| <= target.Length && target[base..tp] == out
      invariant PassState(t, s, i, out, newbase, base)
      decreases z - sp
    {
      var u := source[sp];
      assert u == scanned[i];
      PassStep(t, s, i, out, newbase, base);
      if t.Composite(u) && newbase == 0 {
        newbase := sp + 1;
      }
      tp := Emit(target, base, tp, Once(t, u));
      sp := sp + 1;
      out, i := out + Once(t, u), i + 1;
    }
    assert scanned[i] == 0;
    PassDone(t, s, out, newbase, base);
    count := Emit(target, base, tp, [0]);
  }

  /** A pass, the copy back into `source` and the new terminator. */
  method ExpandOnce(t: Unicode, source: array<Unichar>, target: array<Unichar>, base: nat, ghost z: nat)
    returns (count: nat, newbase: nat)
    requires source != target
    requires base <= z < source.Length && source[z] == 0 && 0 !in source[base..z]
    requires base + |Pass(t, source[base..z])| < Min(source.Length - 1, target.Length)
    modifies source, target
    ensures count == base + |Pass(t, old(source[base..z]))| + 1 < source.Length
    ensures source[..count] == old(source[..base]) + Pass(t, old(source[base..z])) + [0]
    ensures var k := FirstComposite(t, old(source[base..z]));
            newbase == if k == z - base then 0 else base + k + 1
  {
    hide Pass, FirstComposite;
    ghost var start, pass := source[..base], Pass(t, source[base..z]) + [0];
    count, newbase := ExpandPass(t, source, target, base, z);
    assert target[base..count] == pass;
    assert forall i | base <= i < count :: target[i] == pass[i - base];
    assert forall i | 0 <= i < base :: source[i] == start[i];
    forall i | base <= i < count {
      source[i] := target[i];
    }
    source[count] := 0;
    assert source[..count] == start + pass;
    assert start + pass == start + Pass(t, old(source[base..z])) + [0];
  }

  lemma NextSlices(before: seq<Unichar>, p: seq<Unichar>, next: seq<Unichar>, count: nat, k: nat, rest: seq<Unichar>)
    requires count < |next| && next[..count] == before + p + [0] && k <= |p|
    ensures var b := |before| + k;
            && next[count - 1] == 0
            && next[b..count - 1] == p[k..]
            && (0 !in p ==> 0 !in next[b..count - 1])
            && next[..b] + rest == before + (p[..k] + rest)
  {
    var b := |before| + k;
    assert next[count - 1] == next[..count][count - 1];
    assert next[b..count - 1] == next[..count][b..count - 1];
    assert next[..b] == next[..count][..b];
  }

  lemma NextBase(t: Unicode, s: seq<Unichar>, k: nat)
    requires k == FirstComposite(t, s) < |s|
    ensures k < |Pass(t, s)|
    ensures Expand(t, s) == Pass(t, s)[..k + 1] + Expand(t, Pass(t, s)[k + 1..])
    ensures MaxRank(t, Pass(t, s)[k + 1..]) < MaxRank(t, s)
  {
    PassSplit(t, s);
    PassLowersRank(t, s, k);
    var p := Pass(t, s[k..]);
    assert Pass(t, s)[..k + 1] == s[..k] + p[..1] && Pass(t, s)[k + 1..] == p[1..];
  }

  lemma {:induction false} NoNulInPass(t: Unicode, s: seq<Unichar>)
    requires 0 !in s
    ensures 0 !in Pass(t, s)
  {
    if s != [] {
      NoNulInPass(t, s[1..]);
      assert s[0] in s;
    }
  }

  /** A pass that met a composite unit leaves the outcome to the units behind its head. */
  lemma NextPass(t: Unicode, src: seq<Unichar>, base: nat, z: nat,
                 next: seq<Unichar>, count: nat, result: seq<Unichar>, k: nat)
    requires Pending(t, src, base, z, result)
    requires base < count < |next|
    requires next[..count] == src[..base] + Pass(t, src[base..z]) + [0]
    requires k == FirstComposite(t, src[base..z]) < z - base
    ensures base + k + 1 < count
    ensures Pending(t, next, base + k + 1, count - 1, result)
    ensures MaxRank(t, next[base + k + 1..count - 1]) < MaxRank(t, src[base..z])
  {
    var s := src[base..z];
    NextBase(t, s, k);
    NoNulInPass(t, s);
    NextSlices(src[..base], Pass(t, s), next, count, k + 1, Expand(t, Pass(t, s)[k + 1..]));
  }

  lemma FlatPassIsExpand(t: Unicode, s: seq<Unichar>)
    requires FirstComposite(t, s) == |s|
    ensures Pass(t, s) == s == Expand(t, s)
  {
    BeforeFirstComposite(t, s);
    assert s[..|s|] == s;
    PassOfFlat(t, s);
  }

  /** A pass that met none has written the result. */
  lemma LastPass(t: Unicode, src: seq<Unichar>, base: nat, z: nat, result: seq<Unichar>)
    requires Pending(t, src, base, z, result)
    requires FirstComposite(t, src[base..z]) == z - base
    ensures src[..base] + Pass(t, src[base..z]) + [0] == result
  {
    FlatPassIsExpand(t, src[base..z]);
  }

  /** One turn of the outer expansion loop. */
  method ExpandTurn(t: Unicode, source: array<Unichar>, target: array<Unichar>, base: nat, ghost count: nat,
                    ghost z: nat, ghost result: seq<Unichar>)
    returns (newCount: nat, next: nat, ghost newZ: nat)
    requires source != target && base < count && ExpandState(t, source[..], base, count, z, result)
    requires |result| < source.Length && |result| < target.Length
    modifies source, target
    ensures ExpandState(t, source[..], next, newCount, newZ, result)
    ensures Remaining(t, source[..], next, newCount, newZ) < Remaining(t, old(source[..]), base, count, z)
  {
    hide Expand, Pass, FirstComposite, MaxRank;
    ghost var src := source[..];
    assert src[base..z] == source[base..z] && src[..base] == source[..base];
    ExpandNotShorter(t, src[base..z]);
    var newbase;
    newCount, newbase := ExpandOnce(t, source, target, base, z);
    assert source[..][..newCount] == source[..newCount];
    newZ := newCount - 1;
    if newbase > 0 {
      NextPass(t, src, base, z, source[..], newCount, result, newbase - base - 1);
      next := newbase;
    } else {
      LastPass(t, src, base, z, result);
      next := newCount;
    }
  }

  lemma FirstState(t: Unicode, src: seq<Unichar>, n: nat, start: nat)
    requires n < |src| && src[n] == 0 && start == FirstWide(src[..n]) < n
    ensures Pending(t, src, start, NulAfter(src[..n], start), Expanded(t, src[..n]))
    ensures start <= NulAfter(src[..n], start) <= n
  {
    var z := NulAfter(src[..n], start);
    NulAfterFacts(src[..n], start);
    assert src[..n][start..z] == src[start..z] && src[..n][..start] == src[..start];
  }

  /** The outer expansion loop. */
  method ExpandFrom(t: Unicode, source: array<Unichar>, n: nat, start: nat) returns (count: nat)
    requires start < n < source.Length && source[n] == 0
    requires start == FirstWide(source[..n])
    requires |Expanded(t, source[..n])| <= Min(source.Length - 1, n * MAXDEC)
    modifies source
    ensures count < source.Length
    ensures source[..count] == old(Expanded(t, source[..n]))
  {
    hide Expanded, Expand, FirstWide, MaxRank, Pending, NulAfter;
    ghost var result := Expanded(t, source[..n]);
    var target := new Unichar[n * MAXDEC + 1];
    var base: nat := start;
    count := n;
    ghost var z: nat := NulAfter(source[..n], base);
    FirstState(t, source[..], n, base);
    while base < count
      invariant ExpandState(t, source[..], base, count, z, result)
      decreases Remaining(t, source[..], base, count, z)
    {
      count, base, z := ExpandTurn(t, source, target, base, count, z, result);
    }
    assert source[..count] == source[..][..count];
  }

  /** The bubble sort. */
  method ReorderMarks(t: Unicode, chars: array<Unichar>, count: nat)
    requires 1 < count <= chars.Length
    modifies chars
    ensures chars[..count] == old(Reorder(t, chars[..count]))
  {
    ghost var goal := Reorder(t, chars[..count]);
    var notdone := true;
    while notdone
      invariant Reorder(t, chars[..count]) == goal
      invariant notdone || Ordered(t, chars[..count])
      decreases Inversions(t, chars[..count]), notdone
    {
      ghost var before := Inversions(t, chars[..count]);
      notdone := false;
      for i := 1 to count
        invariant Reorder(t, chars[..count]) == goal
        invariant notdone ==> Inversions(t, chars[..count]) < before
        invariant !notdone ==> Inversions(t, chars[..count]) == before
        invariant !notdone ==> forall j | 0 < j < i :: !OutOfOrder(t, chars[j - 1], chars[j])
      {
        var first, second := chars[i - 1], chars[i];
        if t.Class(second) != 0 {
          if t.Class(first) > t.Class(second) || (t.Class(first) == t.Class(second) && first > second) {
            ghost var s := chars[..count];
            ReorderOfSwap(t, s, i - 1);
            InversionsOfSwap(t, s, i - 1);
            chars[i - 1], chars[i] := second, first;
            assert chars[..count] == Swap(s, i - 1);
            notdone := true;
          }
        }
      }
    }
    ReorderOfOrdered(t, chars[..count]);
  }

  /** The buffer of GSEQ_MAKE: `capacity` counts the units without the final terminator. */
  class GSeqStruct {
    const chars: array<Unichar>
    var count: nat
    const capacity: nat
    var normalized: bool

    ghost predicate Valid()
      reads this
    {
      count <= capacity && chars.Length == capacity + 1
    }

    ghost function Contents(): seq<Unichar>
      requires Valid()
      reads this, chars
    {
      chars[..count]
    }

    /** The units that a comparison sees: a sequence already marked normalised is not touched. */
    ghost function Canonical(t: Unicode): seq<Unichar>
      requires Valid()
      reads this, chars
    {
      if normalized then Contents() else NormalForm(t, Contents())
    }

    /** The buffers are large enough for normalisation (GSEQ_MAKE gives MAXDEC per unit). */
    ghost predicate Room(t: Unicode)
      requires Valid()
      reads this, chars
    {
      normalized || |NormalForm(t, Contents())| <= Min(capacity, count * MAXDEC)
    }

    /** GSEQ_MAKE followed by copying `s` into the buffer. */
    constructor (s: seq<Unichar>)
      ensures Valid() && Contents() == s && !normalized
      ensures capacity == |s| * MAXDEC && fresh(chars)
    {
      chars := new Unichar[|s| * MAXDEC + 1](i => if 0 <= i < |s| then s[i] else 0);
      count := |s|;
      capacity := |s| * MAXDEC;
      normalized := false;
    }

    /** GSeq_lowercase: unit by unit, in place, leaving the mark as it is. */
    method Lowercase(t: Unicode)
      requires Valid()
      modifies chars
      ensures Contents() == Lower(t, old(Contents()))
    {
      for i := 0 to count
        invariant forall j | 0 <= j < i :: chars[j] == t.ToLower(old(chars[j]))
        invariant forall j | i <= j < chars.Length :: chars[j] == old(chars[j])
      {
        chars[i] := t.ToLower(chars[i]);
      }
    }

    method Normalize(t: Unicode)
      requires Valid() && !normalized && Room(t)
      modifies this, chars
      ensures Valid()
      ensures Contents() == old(NormalForm(t, Contents()))
      ensures normalized <==> old(count) != 0
    {
      if count != 0 {
        var base := 0;
        while base < count && chars[base] < 0xC0
          invariant base <= count
          invariant forall i | 0 <= i < base :: chars[i] < 0xC0
        {
          base := base + 1;
        }
        assert base < count ==> Contents()[base] == chars[base];
        FirstWideIs(Contents(), base);
        chars[count] := 0;
        assert Contents() == old(Contents());
        if base < count {
          count := ExpandFrom(t, chars, count, base);
          if count > 1 {
            ReorderMarks(t, chars, count);
          } else {
            ReorderOfOrdered(t, chars[..count]);
          }
        }
        normalized := true;
      }
    }
  }

  // ---------- GSeq_compare ----------

  lemma {:induction false} LexOfEqualPrefix(a: seq<Unichar>, b: seq<Unichar>, i: nat)
    requires i <= |a| && i <= |b| && a[..i] == b[..i]
    ensures Lex(a, b) == Lex(a[i..], b[i..])
  {
    if i > 0 {
      assert a[0] == a[..i][0] && b[0] == b[..i][0];
      assert a[1..][..i - 1] == a[..i][1..] && b[1..][..i - 1] == b[..i][1..];
      LexOfEqualPrefix(a[1..], b[1..], i - 1);
      assert a[1..][i - 1..] == a[i..] && b[1..][i - 1..] == b[i..];
    } else {
      assert a[0..] == a && b[0..] == b;
    }
  }

  /** The unit by unit loops of the comparison: the shorter of two agreeing sequences is first. */
  method CompareUnits(c0: array<Unichar>, len0: nat, c1: array<Unichar>, len1: nat) returns (r: Order)
    requires len0 <= c0.Length && len1 <= c1.Length
    ensures r == Lex(c0[..len0], c1[..len1])
  {
    ghost var a, b := c0[..len0], c1[..len1];
    var end := Min(len0, len1);
    for i := 0 to end
      invariant a[..i] == b[..i]
    {
      LexOfEqualPrefix(a, b, i);
      assert a[i] == c0[i] && b[i] == c1[i];
      if c0[i] < c1[i] { return Ascending; }
      if c0[i] > c1[i] { return Descending; }
    }
    LexOfEqualPrefix(a, b, end);
    if len0 < len1 { return Ascending; }
    if len0 > len1 { return Descending; }
    return Same;
  }

  /** The raw comparison that GSeq_compare tries first. */
  method SameUnits(c0: array<Unichar>, len0: nat, c1: array<Unichar>, len1: nat) returns (same: bool)
    requires len0 <= c0.Length && len1 <= c1.Length
    ensures same <==> c0[..len0] == c1[..len1]
  {
    if len0 != len1 {
      return false;
    }
    var i := 0;
    while i < len1 && c0[i] == c1[i]
      invariant i <= len1 && c0[..i] == c1[..i]
    {
      i := i + 1;
    }
    if i < len1 {
      assert c0[..len0][i] != c1[..len1][i];
    }
    return i == len0;
  }

  /** The verdict on two buffers, given their units and their `normalized` marks. */
  function Verdict(t: Unicode, c0: seq<Unichar>, n0: bool, c1: seq<Unichar>, n1: bool): Order {
    if c0 == c1 then Same
    else Lex(if n0 then c0 else NormalForm(t, c0), if n1 then c1 else NormalForm(t, c1))
  }

  ghost predicate Separate(s0: GSeqStruct, s1: GSeqStruct) {
    s0 != s1 && s0.chars != s1.chars
  }

  /** Compare two sequences, normalising them in place unless they are equal as they stand. */
  method Compare(t: Unicode, s0: GSeqStruct, s1: GSeqStruct) returns (r: Order)
    requires Separate(s0, s1) && s0.Valid() && s1.Valid() && s0.Room(t) && s1.Room(t)
    modifies s0, s0.chars, s1, s1.chars
    ensures s0.Valid() && s1.Valid() && s0.Room(t) && s1.Room(t)
    ensures r == old(Verdict(t, s0.Contents(), s0.normalized, s1.Contents(), s1.normalized))
    ensures s0.Canonical(t) == old(s0.Canonical(t)) && s1.Canonical(t) == old(s1.Canonical(t))
    ensures if old(s0.Contents() == s1.Contents())
            then s0.Contents() == old(s0.Contents()) && s1.Contents() == old(s1.Contents())
                 && s0.normalized == old(s0.normalized) && s1.normalized == old(s1.normalized)
            else && s0.Contents() == s0.Canonical(t) && s1.Contents() == s1.Canonical(t)
                 && s0.normalized == (old(s0.normalized) || old(s0.count) != 0)
                 && s1.normalized == (old(s1.normalized) || old(s1.count) != 0)
  {
    var same := SameUnits(s0.chars, s0.count, s1.chars, s1.count);
    if same {
      return Same;
    }
    if !s0.normalized {
      s0.Normalize(t);
    }
    if !s1.normalized {
      s1.Normalize(t);
    }
    r := CompareUnits(s0.chars, s0.count, s1.chars, s1.count);
  }
}
