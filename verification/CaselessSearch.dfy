/** Where the caseless search and the caseless comparison disagree: the search lowers the first
    sequence before it is normalised, the comparison every sequence afterwards. */
module CaselessSearch {
  import opened UnicodeTables
  import opened Decomposition
  import opened SkippedHeads
  import opened CanonicalOrder
  import opened GSeq
  import opened NormalForms
  import opened StringCompare
  import opened StringSearch
  import opened SearchExtent
  import opened SearchComplete

  /** Both read the sequence as the same. */
  predicate Commutes(t: Unicode, c: seq<Unichar>) {
    FirstKey(t, true, c) == Key(t, true, c)
  }

  lemma FirstKeysMatch(t: Unicode, s: seq<Unichar>, o: seq<Unichar>, p: nat, rangeEnd: nat)
    requires o != [] && rangeEnd <= |s| && MatchesAt(t, true, s, o, p, rangeEnd)
    ensures p < |s| && FirstKey(t, true, SeqAt(t, s, p)) == FirstKey(t, true, SeqAt(t, o, 0))
  {
  }

  /** Where lowering commutes with normalisation on the first sequences of both, what is found
      at a boundary compares Same. */
  lemma FoundIsSame(t: Unicode, s: seq<Unichar>, o: seq<Unichar>, p: nat, rangeEnd: nat, e: nat)
    requires o != [] && rangeEnd <= |s| && Boundary(t, s, p)
    requires MatchesAt(t, true, s, o, p, rangeEnd) && e == MatchEnd(t, s, o, p, rangeEnd)
    requires Commutes(t, SeqAt(t, s, p)) && Commutes(t, SeqAt(t, o, 0))
    ensures p <= e <= |s| && LexSequences(t, true, Sequences(t, s, p, e), Sequences(t, o, 0, |o|)) == Same
  {
    FirstKeysMatch(t, s, o, p, rangeEnd);
    hide MatchesAt, MatchEnd, LexSequences, Sequences, SeqAt, SeqLength, Key, FirstKey, Boundary, Overruns, TakesAll;
    MatchEndIff(t, true, s, o, p, rangeEnd);
    FoundComparesSameIff(t, true, s, o, p, rangeEnd, e);
  }

  /** And text between boundaries that compares Same is found. */
  lemma SameIsFound(t: Unicode, s: seq<Unichar>, o: seq<Unichar>, p: nat, rangeEnd: nat, e: nat)
    requires o != [] && p < e <= rangeEnd <= |s| && Boundary(t, s, p) && Boundary(t, s, e)
    requires LexSequences(t, true, Sequences(t, s, p, e), Sequences(t, o, 0, |o|)) == Same
    requires Commutes(t, SeqAt(t, s, p)) && Commutes(t, SeqAt(t, o, 0))
    ensures MatchesAt(t, true, s, o, p, rangeEnd)
  {
    hide MatchesAt, LexSequences, Sequences, SeqAt, SeqLength, Key, FirstKey, Boundary;
    TextMatchesIff(t, true, s, o, p, e, rangeEnd);
    SameHeadsIff(t, true, Sequences(t, s, p, e), Sequences(t, o, 0, |o|)) by {
      SequencesTail(t, s, p, e);
      SequencesTail(t, o, 0, |o|);
    }
    SequencesTail(t, s, p, e);
    SequencesTail(t, o, 0, |o|);
  }

  // ---------- examples from the shipped tables ----------

  lemma KelvinKeys(t: Unicode)
    requires t == KelvinTable()
    ensures FirstKey(t, true, [0x212A]) == FirstKey(t, true, [0x6B])
    ensures Key(t, true, [0x212A]) != Key(t, true, [0x6B])
  {
    hide Reorder, Expand;
    FirstWideIs([0x212A], 0);
    FirstWideIs([0x6B], 1);
    NormalFormShape(t, [0x212A]);
    assert Lower(t, [0x212A]) == [0x6B] == Lower(t, [0x6B]);
  }

  /** The caseless search for "k" finds the Kelvin sign, which caselessly compares different. */
  lemma KelvinFound(r: Found)
    requires ForwardResult(KelvinTable(), true, false, [0x212A], [0x6B], 0, 1, r)
    ensures r == At(0, 1) && StringOrder(KelvinTable(), true, [0x212A], [0x6B]) != Same
  {
    hide NormalForm, Leftmost;
    var t, s, o := KelvinTable(), [0x212A], [0x6B];
    ForwardOutcome(t, true, s, o, 0, 0, 1, r);
    KelvinKeys(t);
    assert SeqAt(t, s, 0) == s && SeqAt(t, o, 0) == o;
    assert Sequences(t, s, 0, 1) == [s] && Sequences(t, o, 0, 1) == [o];
    SameSequencesIff(t, true, [s], [o]);
  }

  /** U+0130, which decomposes into "I" and U+0307, while its lower-case letter is "i". */
  function DottedTable(): (t: Unicode)
    ensures t.decomp == map[0x130 := [0x49, 0x307]]
  {
    Tables(map[0x130 := [0x49, 0x307]], map[0x307 := 230], map[0x130 := 0x69, 0x49 := 0x69], {0x307}, map[0x130 := 0])
  }

  lemma DottedSame(t: Unicode)
    requires t == DottedTable()
    ensures NormalForm(t, [0x130]) == NormalForm(t, [0x49, 0x307])
  {
    var a, b := [0x130], [0x49, 0x307];
    hide Full, NormalForm, Reorder;
    TailOfWideStart(a, 0);
    assert b[1..] == [0x307];
    TailOfWideStart(b, 1);
    SettlesOfOne(t, 0x130, 0);
    SettlesOfFlat(t, b[1..], 0);
    assert Full(t, a) == Full(t, b) by {
      FullOfPass(t, a);
      assert Pass(t, a) == b + Pass(t, []) == b;
    }
    ReorderEqualIff(t, Full(t, a), Full(t, b));
    EqualNormalFormsIff(t, a, b);
  }

  /** What follows the base of a dotted letter in its normal form. */
  function Dot(t: Unicode): seq<Unichar> {
    Reorder(t, Expand(t, [0x307])) + [0]
  }

  lemma DottedShape(t: Unicode, u: Unichar)
    requires 0 < u < 0xC0
    ensures NormalForm(t, [u, 0x307]) == [u] + Dot(t)
  {
    hide NormalForm, Reorder, Expand;
    var b := [u, 0x307];
    assert b[1..] == [0x307];
    FirstWideIs(b, 1);
    TailOfWideStart(b, 1);
    NormalFormShape(t, b);
    assert b[..1] == [u];
  }

  lemma DottedKeys(t: Unicode)
    requires t == DottedTable()
    ensures Key(t, true, [0x130]) == Key(t, true, [0x69, 0x307])
    ensures FirstKey(t, true, [0x130]) != FirstKey(t, true, [0x69, 0x307])
    ensures FirstKey(t, true, [0x78]) != FirstKey(t, true, [0x69, 0x307])
  {
    hide NormalForm, Dot;
    DottedSame(t);
    DottedShape(t, 0x49);
    DottedShape(t, 0x69);
    assert Lower(t, [0x49] + Dot(t)) == Lower(t, [0x69] + Dot(t));
    assert Lower(t, [0x130]) == [0x69] && Lower(t, [0x69, 0x307]) == [0x69, 0x307] && Lower(t, [0x78]) == [0x78];
    FirstWideIs([0x69], 1);
    FirstWideIs([0x78], 1);
    FirstWideIs([0x69, 0x307], 1);
    MixedNormalFormsDiffer(t, [0x69, 0x307], [0x69]);
    MixedNormalFormsDiffer(t, [0x69, 0x307], [0x78]);
  }

  lemma DottedSequences(t: Unicode)
    requires t.nonBase == {0x307}
    ensures var s, o := [0x130, 0x78], [0x69, 0x307];
            && SeqAt(t, s, 0) == [0x130] && SeqAt(t, s, 1) == [0x78] && SeqAt(t, o, 0) == o
            && Sequences(t, s, 0, 1) == [[0x130]] && Sequences(t, o, 0, 2) == [o] && BaseLength(t, o) == 1
  {
    var s, o := [0x130, 0x78], [0x69, 0x307];
    assert SkipMarks(t, s, 1) == 1 && SkipMarks(t, s, 2) == 2 && SkipMarks(t, o, 2) == 2;
    assert o[1..] == [0x307];
  }

  lemma DottedMarks()
    ensures DottedTable().nonBase == {0x307}
  {
  }

  lemma NoDottedMatch()
    ensures !MatchesAt(DottedTable(), true, [0x130, 0x78], [0x69, 0x307], 0, 2)
    ensures !MatchesAt(DottedTable(), true, [0x130, 0x78], [0x69, 0x307], 1, 2)
  {
    hide FirstKey, SeqAt, DottedTable, Sequences, Key;
    var t := DottedTable();
    DottedMarks();
    DottedSequences(t);
    DottedKeys(t);
  }

  /** The caseless search for "i", U+0307 in U+0130, "x" finds nothing, although U+0130 caselessly
      compares the same. */
  lemma DottedMissed(r: Found)
    requires ForwardResult(DottedTable(), true, false, [0x130, 0x78], [0x69, 0x307], 0, 2, r)
    ensures r == NotFound
    ensures var t := DottedTable();
            LexSequences(t, true, Sequences(t, [0x130, 0x78], 0, 1), Sequences(t, [0x69, 0x307], 0, 2)) == Same
  {
    hide Leftmost, FirstKey, Key, LexSequences, MatchesAt, MatchEnd, DottedTable, Sequences, BaseLength;
    var t, s, o := DottedTable(), [0x130, 0x78], [0x69, 0x307];
    DottedMarks();
    DottedSequences(t);
    DottedKeys(t);
    NoDottedMatch();
    ForwardOutcome(t, true, s, o, 0, 1, 2, r);
    SameSequencesIff(t, true, [[0x130]], [o]);
  }
}
