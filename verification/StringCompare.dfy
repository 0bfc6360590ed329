/** Composed character sequences inside a string, and the comparison of a range of one
    string with another (GSEQ_STRCOMP). */
module StringCompare {
  import opened UnicodeTables
  import opened GSeq
  import opened NormalForms

  // ---------- composed character sequences ----------

  function SeqStart(t: Unicode, s: seq<Unichar>, i: nat): (k: nat)
    requires i < |s|
    ensures k <= i
  {
    if s[i] in t.nonBase && i > 0 then SeqStart(t, s, i - 1) else i
  }

  function SkipMarks(t: Unicode, s: seq<Unichar>, e: nat): (k: nat)
    requires e <= |s|
    ensures e <= k <= |s|
    decreases |s| - e
  {
    if e < |s| && s[e] in t.nonBase then SkipMarks(t, s, e + 1) else e
  }

  function SeqEnd(t: Unicode, s: seq<Unichar>, i: nat): (k: nat)
    requires i < |s|
    ensures SeqStart(t, s, i) < k <= |s|
  {
    SkipMarks(t, s, SeqStart(t, s, i) + 1)
  }

  /** The length of the sequence around `i`, by which the string loops advance. */
  function SeqLength(t: Unicode, s: seq<Unichar>, i: nat): (n: nat)
    requires i < |s|
    ensures 1 <= n <= |s|
  {
    SeqEnd(t, s, i) - SeqStart(t, s, i)
  }

  function SeqAt(t: Unicode, s: seq<Unichar>, i: nat): (c: seq<Unichar>)
    requires i < |s|
    ensures |c| == SeqLength(t, s, i)
  {
    s[SeqStart(t, s, i)..SeqEnd(t, s, i)]
  }

  /** Where a composed sequence can begin. */
  predicate Boundary(t: Unicode, s: seq<Unichar>, i: nat) {
    i == 0 || i == |s| || (i < |s| && s[i] !in t.nonBase)
  }

  /** rangeOfComposedCharacterSequenceAtIndex: for a 16-bit string. */
  method RangeOfSequence(t: Unicode, s: seq<Unichar>, anIndex: nat) returns (start: nat, length: nat)
    requires anIndex < |s|
    ensures start == SeqStart(t, s, anIndex) && length == SeqLength(t, s, anIndex)
  {
    start := anIndex;
    while s[start] in t.nonBase && start > 0
      invariant start <= anIndex && SeqStart(t, s, start) == SeqStart(t, s, anIndex)
    {
      start := start - 1;
    }
    var end := start + 1;
    while end < |s| && s[end] in t.nonBase
      invariant start < end <= |s| && SkipMarks(t, s, end) == SkipMarks(t, s, start + 1)
    {
      end := end + 1;
    }
    length := end - start;
  }

  lemma {:induction false} StartIsBoundary(t: Unicode, s: seq<Unichar>, i: nat)
    requires i < |s|
    ensures Boundary(t, s, SeqStart(t, s, i))
    ensures forall j | SeqStart(t, s, i) < j <= i :: s[j] in t.nonBase
  {
    if s[i] in t.nonBase && i > 0 {
      StartIsBoundary(t, s, i - 1);
    }
  }

  lemma {:induction false} MarksSkipped(t: Unicode, s: seq<Unichar>, e: nat)
    requires e <= |s|
    ensures forall j | e <= j < SkipMarks(t, s, e) :: s[j] in t.nonBase
    ensures Boundary(t, s, SkipMarks(t, s, e))
    decreases |s| - e
  {
    if e < |s| && s[e] in t.nonBase {
      MarksSkipped(t, s, e + 1);
    }
  }

  lemma {:induction false} MarksUpTo(t: Unicode, s: seq<Unichar>, e: nat, i: nat)
    requires e <= i < |s| && forall j | e <= j <= i :: s[j] in t.nonBase
    ensures i < SkipMarks(t, s, e)
    decreases i - e
  {
    if e < i {
      MarksUpTo(t, s, e + 1, i);
    }
  }

  lemma {:induction false} StartOfMark(t: Unicode, s: seq<Unichar>, a: nat, j: nat)
    requires a <= j < |s| && (a == 0 || s[a] !in t.nonBase)
    requires forall k | a < k <= j :: s[k] in t.nonBase
    ensures SeqStart(t, s, j) == a
  {
    if j > a {
      StartOfMark(t, s, a, j - 1);
    }
  }

  /** Sequences partition a string: each runs from one boundary to the next, and every index
      inside it has the same range. */
  lemma SequencesPartition(t: Unicode, s: seq<Unichar>, i: nat)
    requires i < |s|
    ensures var a, b := SeqStart(t, s, i), SeqEnd(t, s, i);
            && a <= i < b
            && Boundary(t, s, a) && Boundary(t, s, b)
            && (forall j | a < j < b :: !Boundary(t, s, j))
            && (forall j | a <= j < b :: SeqStart(t, s, j) == a && SeqEnd(t, s, j) == b)
  {
    var a, b := SeqStart(t, s, i), SeqEnd(t, s, i);
    StartIsBoundary(t, s, i);
    MarksSkipped(t, s, a + 1);
    if i > a {
      MarksUpTo(t, s, a + 1, i);
    }
    forall j | a <= j < b ensures SeqStart(t, s, j) == a {
      StartOfMark(t, s, a, j);
    }
  }

  // ---------- comparing two sequences ----------

  /** What two composed sequences are compared by. */
  function Key(t: Unicode, caseless: bool, c: seq<Unichar>): seq<Unichar> {
    if caseless then Lower(t, NormalForm(t, c)) else NormalForm(t, c)
  }

  lemma UnmarkedIsEmpty(t: Unicode, x: seq<Unichar>)
    ensures x == [] ==> NormalForm(t, x) == [] == Lower(t, [])
  {
  }

  method CompareSequences(t: Unicode, caseless: bool, x: seq<Unichar>, y: seq<Unichar>) returns (r: Order)
    requires Bounded(t)
    ensures r == Lex(Key(t, caseless, x), Key(t, caseless, y))
  {
    var s0 := new GSeqStruct(x);
    var s1 := new GSeqStruct(y);
    MakeHasRoom(t, x);
    MakeHasRoom(t, y);
    r := Compare(t, s0, s1);
    LexSameIff(NormalForm(t, x), NormalForm(t, y));
    LexSameIff(Key(t, true, x), Key(t, true, y));
    LexSameIff(Key(t, caseless, x), Key(t, caseless, x));
    if r != Same && caseless {
      UnmarkedIsEmpty(t, x);
      UnmarkedIsEmpty(t, y);
      s1.Lowercase(t);
      s0.Lowercase(t);
      r := Compare(t, s0, s1);
    }
  }

  // ---------- GSEQ_STRCOMP ----------

  /** The composed sequences met from `from` on, each starting before `end`. */
  function Sequences(t: Unicode, s: seq<Unichar>, from: nat, end: nat): seq<seq<Unichar>>
    requires end <= |s|
    decreases end - from
  {
    if from >= end then [] else [SeqAt(t, s, from)] + Sequences(t, s, from + SeqLength(t, s, from), end)
  }

  function LexSequences(t: Unicode, caseless: bool, a: seq<seq<Unichar>>, b: seq<seq<Unichar>>): Order {
    if a == [] then if b == [] then Same else Ascending
    else if b == [] then Descending
    else
      var r := Lex(Key(t, caseless, a[0]), Key(t, caseless, b[0]));
      if r != Same then r else LexSequences(t, caseless, a[1..], b[1..])
  }

  function Joined(a: seq<seq<Unichar>>): seq<Unichar> {
    if a == [] then [] else a[0] + Joined(a[1..])
  }

  lemma SequencesTail(t: Unicode, s: seq<Unichar>, i: nat, end: nat)
    requires i < end <= |s|
    ensures var a := Sequences(t, s, i, end);
            a != [] && a[0] == SeqAt(t, s, i) && a[1..] == Sequences(t, s, i + SeqLength(t, s, i), end)
  {
  }

  /** Comparing the composed sequences around two indices. */
  function OrderAt(t: Unicode, caseless: bool, s: seq<Unichar>, i: nat, o: seq<Unichar>, j: nat): Order
    requires i < |s| && j < |o|
  {
    Lex(Key(t, caseless, SeqAt(t, s, i)), Key(t, caseless, SeqAt(t, o, j)))
  }

  method CompareAt(t: Unicode, caseless: bool, s: seq<Unichar>, i: nat, o: seq<Unichar>, j: nat)
    returns (r: Order, sLength: nat, oLength: nat)
    requires Bounded(t) && i < |s| && j < |o|
    ensures r == OrderAt(t, caseless, s, i, o, j)
    ensures sLength == SeqLength(t, s, i) && oLength == SeqLength(t, o, j)
  {
    hide Key, Lex, SeqStart, SeqEnd;
    var sStart, oStart;
    sStart, sLength := RangeOfSequence(t, s, i);
    oStart, oLength := RangeOfSequence(t, o, j);
    r := CompareSequences(t, caseless, s[sStart..sStart + sLength], o[oStart..oStart + oLength]);
  }

  /** The rest of the two strings still compares as `goal`. */
  ghost predicate StillToCome(t: Unicode, caseless: bool, s: seq<Unichar>, i: nat, end: nat,
                              o: seq<Unichar>, j: nat, goal: Order)
    requires end <= |s|
  {
    LexSequences(t, caseless, Sequences(t, s, i, end), Sequences(t, o, j, |o|)) == goal
  }

  lemma CompareStep(t: Unicode, caseless: bool, s: seq<Unichar>, i: nat, end: nat,
                    o: seq<Unichar>, j: nat, goal: Order, i': nat, j': nat)
    requires i < end <= |s| && j < |o| && StillToCome(t, caseless, s, i, end, o, j, goal)
    requires i' == i + SeqLength(t, s, i) && j' == j + SeqLength(t, o, j)
    ensures OrderAt(t, caseless, s, i, o, j) != Same ==> goal == OrderAt(t, caseless, s, i, o, j)
    ensures OrderAt(t, caseless, s, i, o, j) == Same ==> StillToCome(t, caseless, s, i', end, o, j', goal)
  {
    hide Key, Lex, Sequences, SeqAt, SeqLength;
    SequencesTail(t, s, i, end);
    SequencesTail(t, o, j, |o|);
  }

  /** One turn of the loop: compare the sequences at both indices and step over them. */
  method CompareNext(t: Unicode, caseless: bool, s: seq<Unichar>, i: nat, ghost end: nat,
                     o: seq<Unichar>, j: nat, ghost goal: Order)
    returns (r: Order, i': nat, j': nat)
    requires Bounded(t) && i < end <= |s| && j < |o| && StillToCome(t, caseless, s, i, end, o, j, goal)
    ensures r != Same ==> r == goal
    ensures r == Same ==> i < i' && StillToCome(t, caseless, s, i', end, o, j', goal)
  {
    var sLength, oLength;
    r, sLength, oLength := CompareAt(t, caseless, s, i, o, j);
    i', j' := i + sLength, j + oLength;
    CompareStep(t, caseless, s, i, end, o, j, goal, i', j');
  }

  lemma CompareEnd(t: Unicode, caseless: bool, s: seq<Unichar>, i: nat, end: nat,
                   o: seq<Unichar>, j: nat, goal: Order)
    requires end <= |s| && StillToCome(t, caseless, s, i, end, o, j, goal)
    requires i >= end || j >= |o|
    ensures goal == if i < end then Descending else if j < |o| then Ascending else Same
  {
  }

  /** The loop over the sequences.  A range inside the string never runs out before its end. */
  method CompareRest(t: Unicode, caseless: bool, s: seq<Unichar>, o: seq<Unichar>, start: nat, end: nat,
                     ghost goal: Order)
    returns (r: Order)
    requires Bounded(t) && start <= end <= |s| && StillToCome(t, caseless, s, start, end, o, 0, goal)
    ensures r == goal
  {
    var sCount: nat, oCount: nat := start, 0;
    while sCount < end
      invariant StillToCome(t, caseless, s, sCount, end, o, oCount, goal)
      decreases end - sCount
    {
      if oCount >= |o| {
        CompareEnd(t, caseless, s, sCount, end, o, oCount, goal);
        return Descending;
      }
      r, sCount, oCount := CompareNext(t, caseless, s, sCount, end, o, oCount, goal);
      if r != Same {
        return r;
      }
    }
    CompareEnd(t, caseless, s, sCount, end, o, oCount, goal);
    r := if oCount < |o| then Ascending else Same;
  }

  /** Without the literal option: sequence by sequence. */
  method CompareComposed(t: Unicode, caseless: bool, s: seq<Unichar>, o: seq<Unichar>, location: nat, length: nat)
    returns (r: Order)
    requires Bounded(t) && location + length <= |s|
    ensures r == LexSequences(t, caseless, Sequences(t, s, location, location + length), Sequences(t, o, 0, |o|))
  {
    hide Key, Lex, SeqAt, SeqLength;
    ghost var goal := LexSequences(t, caseless, Sequences(t, s, location, location + length), Sequences(t, o, 0, |o|));
    if length == 0 {
      return if |o| == 0 then Same else Ascending;
    } else if |o| == 0 {
      return Descending;
    }
    r := CompareRest(t, caseless, s, o, location, location + length, goal);
  }

  function Fold(t: Unicode, caseless: bool, u: Unichar): Unichar {
    if caseless then t.ToLower(u) else u
  }

  function Folded(t: Unicode, caseless: bool, s: seq<Unichar>): (r: seq<Unichar>)
    ensures |r| == |s|
  {
    seq(|s|, i requires 0 <= i < |s| => Fold(t, caseless, s[i]))
  }

  /** Unit by unit, through the lower-case table if caseless. */
  lemma FoldedAt(t: Unicode, caseless: bool, s: seq<Unichar>, i: nat)
    requires i < |s|
    ensures Folded(t, caseless, s)[i] == if caseless && s[i] in t.lower then t.lower[s[i]] else s[i]
  {
  }

  lemma LexStep(a: seq<Unichar>, b: seq<Unichar>, i: nat)
    requires i < |a| && i < |b|
    ensures Lex(a[i..], b[i..]) == if a[i] < b[i] then Ascending else if a[i] > b[i] then Descending
                                   else Lex(a[i + 1..], b[i + 1..])
  {
    assert a[i..][1..] == a[i + 1..] && b[i..][1..] == b[i + 1..];
  }

  /** With the literal option: unit by unit, through the lower-case table if caseless. */
  method CompareLiteral(t: Unicode, caseless: bool, s: seq<Unichar>, o: seq<Unichar>, location: nat, length: nat)
    returns (r: Order)
    requires location + length <= |s|
    ensures r == Lex(Folded(t, caseless, s[location..location + length]), Folded(t, caseless, o))
    ensures var a, b := Folded(t, caseless, s[location..location + length]), Folded(t, caseless, o);
            r == Ascending <==> a < b || exists i :: 0 <= i < |a| && i < |b| && a[..i] == b[..i] && a[i] < b[i]
  {
    LexIs(Folded(t, caseless, s[location..location + length]), Folded(t, caseless, o));
    if length == 0 {
      return if |o| == 0 then Same else Ascending;
    } else if |o| == 0 {
      return Descending;
    }
    var sBuf := s[location..location + length];
    ghost var a, b := Folded(t, caseless, sBuf), Folded(t, caseless, o);
    var end := Min(length, |o|);
    assert a[0..] == a && b[0..] == b;
    for i := 0 to end
      invariant Lex(a[i..], b[i..]) == Lex(a, b)
    {
      LexStep(a, b, i);
      var c1, c2 := Fold(t, caseless, sBuf[i]), Fold(t, caseless, o[i]);
      if c1 < c2 { return Ascending; }
      if c1 > c2 { return Descending; }
    }
    r := if length > |o| then Descending else if length < |o| then Ascending else Same;
  }

  lemma {:induction false} SequencesReverse(t: Unicode, caseless: bool, a: seq<seq<Unichar>>, b: seq<seq<Unichar>>)
    ensures LexSequences(t, caseless, b, a) == LexSequences(t, caseless, a, b).Reverse()
    decreases |a|
  {
    hide Key, Lex;
    if a != [] && b != [] {
      LexReverse(Key(t, caseless, a[0]), Key(t, caseless, b[0]));
      SequencesReverse(t, caseless, a[1..], b[1..]);
    }
  }

  lemma {:induction false} SequencesTransitive(t: Unicode, caseless: bool, a: seq<seq<Unichar>>, b: seq<seq<Unichar>>,
                                               c: seq<seq<Unichar>>)
    requires LexSequences(t, caseless, a, b) != Descending && LexSequences(t, caseless, b, c) != Descending
    ensures LexSequences(t, caseless, a, c) != Descending
    ensures LexSequences(t, caseless, a, c) == Same <==>
              LexSequences(t, caseless, a, b) == Same == LexSequences(t, caseless, b, c)
    decreases |a|
  {
    hide Key, Lex;
    if a != [] && b != [] && c != [] {
      var x, y, z := Key(t, caseless, a[0]), Key(t, caseless, b[0]), Key(t, caseless, c[0]);
      LexTransitive(x, y, z);
      LexSameIff(x, y);
      LexSameIff(y, z);
      LexSameIff(x, z);
      if Lex(x, y) == Same && Lex(y, z) == Same {
        SequencesTransitive(t, caseless, a[1..], b[1..], c[1..]);
      }
    }
  }

  /** The keys of two sequences are the same. */
  predicate SameKey(t: Unicode, caseless: bool, x: seq<Unichar>, y: seq<Unichar>) {
    Key(t, caseless, x) == Key(t, caseless, y)
  }

  /** Up to `i` the keys are the same, and there `a` runs out or has the smaller key. */
  ghost predicate FirstDifference(t: Unicode, caseless: bool, a: seq<seq<Unichar>>, b: seq<seq<Unichar>>, i: nat)
    requires i <= |a| && i < |b|
  {
    && (forall j | 0 <= j < i :: SameKey(t, caseless, a[j], b[j]))
    && (i == |a| || Lex(Key(t, caseless, a[i]), Key(t, caseless, b[i])) == Ascending)
  }

  lemma DifferenceStep(t: Unicode, caseless: bool, a: seq<seq<Unichar>>, b: seq<seq<Unichar>>, i: nat)
    requires a != [] && b != [] && i <= |a| && i < |b|
    ensures FirstDifference(t, caseless, a, b, i) <==>
            if i == 0 then Lex(Key(t, caseless, a[0]), Key(t, caseless, b[0])) == Ascending
            else SameKey(t, caseless, a[0], b[0]) && FirstDifference(t, caseless, a[1..], b[1..], i - 1)
  {
    hide Key, Lex, SameKey;
    if i > 0 {
      assert forall j | 0 < j < i :: a[j] == a[1..][j - 1] && b[j] == b[1..][j - 1];
      assert forall j | 0 <= j < i - 1 :: a[1..][j] == a[j + 1] && b[1..][j] == b[j + 1];
    }
  }

  lemma NothingLeft(t: Unicode, caseless: bool, a: seq<seq<Unichar>>, b: seq<seq<Unichar>>)
    requires a == [] && b != []
    ensures FirstDifference(t, caseless, a, b, 0)
  {
  }

  /** Which of two strings comes first: the one that runs out first, or the one with the smaller
      key where they first differ. */
  lemma {:induction false} SequencesOrder(t: Unicode, caseless: bool, a: seq<seq<Unichar>>, b: seq<seq<Unichar>>)
    ensures LexSequences(t, caseless, a, b) == Ascending <==>
              exists i :: 0 <= i <= |a| && i < |b| && FirstDifference(t, caseless, a, b, i)
    decreases |a|
  {
    hide FirstDifference, Key, Lex;
    if a != [] && b != [] {
      LexSameIff(Key(t, caseless, a[0]), Key(t, caseless, b[0]));
      SequencesOrder(t, caseless, a[1..], b[1..]);
      forall i | 0 <= i <= |a| && i < |b|
        ensures FirstDifference(t, caseless, a, b, i) <==>
                if i == 0 then Lex(Key(t, caseless, a[0]), Key(t, caseless, b[0])) == Ascending
                else SameKey(t, caseless, a[0], b[0]) && FirstDifference(t, caseless, a[1..], b[1..], i - 1)
      {
        DifferenceStep(t, caseless, a, b, i);
      }
      if k :| 0 <= k <= |a[1..]| && k < |b[1..]| && FirstDifference(t, caseless, a[1..], b[1..], k) {
        assert SameKey(t, caseless, a[0], b[0]) ==> FirstDifference(t, caseless, a, b, k + 1);
      }
      if i :| 0 <= i <= |a| && i < |b| && FirstDifference(t, caseless, a, b, i) {
        assert i > 0 ==> FirstDifference(t, caseless, a[1..], b[1..], i - 1);
      }
      assert Lex(Key(t, caseless, a[0]), Key(t, caseless, b[0])) == Ascending ==> FirstDifference(t, caseless, a, b, 0);
    } else if b != [] {
      NothingLeft(t, caseless, a, b);
    }
  }

  /** How two whole strings compare. */
  function StringOrder(t: Unicode, caseless: bool, a: seq<Unichar>, b: seq<Unichar>): Order {
    LexSequences(t, caseless, Sequences(t, a, 0, |a|), Sequences(t, b, 0, |b|))
  }

  /** In both case modes the composed comparison of strings is a total preorder. */
  lemma StringOrderIsTotalPreorder(t: Unicode, caseless: bool, a: seq<Unichar>, b: seq<Unichar>, c: seq<Unichar>)
    ensures StringOrder(t, caseless, a, a) == Same
    ensures StringOrder(t, caseless, b, a) == StringOrder(t, caseless, a, b).Reverse()
    ensures var ab, bc := StringOrder(t, caseless, a, b), StringOrder(t, caseless, b, c);
            var ac := StringOrder(t, caseless, a, c);
            ab != Descending && bc != Descending ==>
              ac != Descending && (ac == Same <==> ab == Same == bc)
  {
    hide Key, Lex, Sequences, LexSequences;
    var x, y, z := Sequences(t, a, 0, |a|), Sequences(t, b, 0, |b|), Sequences(t, c, 0, |c|);
    SequencesReverse(t, caseless, x, x);
    SequencesReverse(t, caseless, x, y);
    if LexSequences(t, caseless, x, y) != Descending && LexSequences(t, caseless, y, z) != Descending {
      SequencesTransitive(t, caseless, x, y, z);
    }
  }

  /** The composed comparison says Same exactly when the sequences agree one by one. */
  lemma {:induction false} SameSequencesIff(t: Unicode, caseless: bool, a: seq<seq<Unichar>>, b: seq<seq<Unichar>>)
    ensures LexSequences(t, caseless, a, b) == Same <==>
            && |a| == |b|
            && forall i | 0 <= i < |a| :: Key(t, caseless, a[i]) == Key(t, caseless, b[i])
    decreases |a|
  {
    hide Key, Lex;
    if a != [] && b != [] {
      LexSameIff(Key(t, caseless, a[0]), Key(t, caseless, b[0]));
      SameSequencesIff(t, caseless, a[1..], b[1..]);
      assert forall i | 0 < i < |a| :: a[i] == a[1..][i - 1];
      assert forall i | 0 < i < |b| :: b[i] == b[1..][i - 1];
      assert forall i | 0 <= i < |a[1..]| :: a[1..][i] == a[i + 1];
      assert forall i | 0 <= i < |b[1..]| :: b[1..][i] == b[i + 1];
    }
  }
}
