/** Which occurrences a composed search finds, and which it misses. */
module SearchComplete {
  import opened UnicodeTables
  import opened Decomposition
  import opened SkippedHeads
  import opened CanonicalOrder
  import opened GSeq
  import opened NormalForms
  import opened StringCompare
  import opened StringSearch
  import opened BackwardSearch
  import opened SearchExtent

  // ---------- the room that a match takes ----------

  lemma {:induction false} MarksAreNoBase(t: Unicode, o: seq<Unichar>, e: nat)
    requires e <= |o|
    ensures BaseLength(t, o[e..]) == BaseLength(t, o[SkipMarks(t, o, e)..])
    decreases |o| - e
  {
    if e < |o| && o[e] in t.nonBase {
      assert o[e..][1..] == o[e + 1..];
      MarksAreNoBase(t, o, e + 1);
    }
  }

  /** From a boundary on, a sequence holds one base unit, unless it begins with a mark. */
  lemma BasesBehind(t: Unicode, o: seq<Unichar>, q: nat)
    requires q < |o| && Boundary(t, o, q)
    ensures var n := q + SeqLength(t, o, q);
            && n <= |o| && Boundary(t, o, n) && (n < |o| ==> o[n] !in t.nonBase)
            && BaseLength(t, o[q..]) == (if o[q] in t.nonBase then 0 else 1) + BaseLength(t, o[n..])
  {
    NextBoundary(t, o, q);
    StartOfMark(t, o, q, q);
    assert o[q..][1..] == o[q + 1..];
    MarksAreNoBase(t, o, q + 1);
  }

  /** A string has as many sequences as base units, and one more if it begins with a mark. */
  lemma {:induction false} SequenceCount(t: Unicode, o: seq<Unichar>, q: nat)
    requires q <= |o| && Boundary(t, o, q)
    ensures |Sequences(t, o, q, |o|)| == BaseLength(t, o[q..]) + if q < |o| && o[q] in t.nonBase then 1 else 0
    decreases |o| - q
  {
    hide SeqLength, SeqAt, Boundary;
    if q < |o| {
      BasesBehind(t, o, q);
      SequenceCount(t, o, q + SeqLength(t, o, q));
      SequencesTail(t, o, q, |o|);
    }
  }

  /** Every sequence takes at least one unit of the range. */
  lemma {:induction false} RoomForSequences(t: Unicode, s: seq<Unichar>, q: nat, end: nat)
    requires end <= |s|
    ensures |Sequences(t, s, q, end)| <= if q < end then end - q else 0
    decreases end - q
  {
    hide SeqLength, SeqAt;
    if q < end {
      RoomForSequences(t, s, q + SeqLength(t, s, q), end);
      SequencesTail(t, s, q, end);
    }
  }

  lemma MatchTakesRoom(t: Unicode, caseless: bool, s: seq<Unichar>, o: seq<Unichar>, p: nat, rangeEnd: nat)
    requires o != [] && p < rangeEnd <= |s| && MatchesAt(t, caseless, s, o, p, rangeEnd)
    ensures p + |Sequences(t, o, 0, |o|)| <= rangeEnd
  {
    hide Key, FirstKey, SeqLength, SeqAt, Sequences;
    SequencesTail(t, o, 0, |o|);
    RoomForSequences(t, s, p + SeqLength(t, s, p), rangeEnd);
  }

  /** Leaving out the last positions of the range, as many as the target has base units, loses
      nothing: from there the target does not fit. */
  lemma CutoffLosesNothing(t: Unicode, caseless: bool, s: seq<Unichar>, o: seq<Unichar>, p: nat, rangeEnd: nat)
    requires o != [] && p < rangeEnd <= |s| && MatchesAt(t, caseless, s, o, p, rangeEnd)
    ensures p + BaseLength(t, o) <= rangeEnd
  {
    hide MatchesAt, Sequences, BaseLength;
    MatchTakesRoom(t, caseless, s, o, p, rangeEnd);
    SequenceCount(t, o, 0);
    assert o[0..] == o;
  }

  // ---------- what an unanchored search misses ----------

  /** A match at a boundary of the range, which an unanchored search should find. */
  ghost predicate MatchIn(t: Unicode, caseless: bool, s: seq<Unichar>, o: seq<Unichar>,
                          location: nat, length: nat, p: nat)
    requires location + length <= |s|
  {
    && o != [] && location <= p < location + length && Boundary(t, s, p)
    && MatchesAt(t, caseless, s, o, p, location + length)
  }

  /** Forward from a boundary a match is missed exactly if the target has more units than the
      range; otherwise this or an earlier one is found. */
  lemma ForwardMissesIff(t: Unicode, caseless: bool, s: seq<Unichar>, o: seq<Unichar>,
                         location: nat, length: nat, p: nat, r: Found)
    requires location + length <= |s| && Boundary(t, s, location)
    requires MatchIn(t, caseless, s, o, location, length, p)
    requires ForwardResult(t, caseless, false, s, o, location, length, r)
    ensures !r.At? <==> |o| > length
    ensures r.At? ==> r.location <= p
  {
    hide MatchesAt, MatchEnd, Boundary, Leftmost, BaseLength;
    CutoffLosesNothing(t, caseless, s, o, p, location + length);
    if |o| <= length {
      var last := location + length - BaseLength(t, o);
      ForwardOutcome(t, caseless, s, o, location, last, location + length, r);
    }
  }

  lemma InsideIsTested(t: Unicode, s: seq<Unichar>, from: nat, last: nat, p: nat)
    requires last <= p <= from < |s| && Boundary(t, s, p)
    ensures Tested(t, s, from, last, p)
  {
  }

  /** Backward, from anywhere, a match is missed exactly if the target has more units than the
      range, or has no base unit in a range that ends with the string, where the exception is
      raised. */
  lemma BackwardMissesIff(t: Unicode, caseless: bool, s: seq<Unichar>, o: seq<Unichar>,
                          location: nat, length: nat, p: nat, r: Found)
    requires location + length <= |s|
    requires MatchIn(t, caseless, s, o, location, length, p)
    requires BackwardResult(t, caseless, false, s, o, location, length, r)
    ensures !r.At? <==> |o| > length || (BaseLength(t, o) == 0 && location + length == |s|)
    ensures r.At? ==> r.location >= p
  {
    hide MatchesAt, MatchEnd, Boundary, Rightmost, BaseLength, Tested;
    CutoffLosesNothing(t, caseless, s, o, p, location + length);
    if |o| <= length {
      var from := location + length - BaseLength(t, o);
      BackwardOutcome(t, caseless, s, o, from, location, location + length, r);
      if from < |s| {
        InsideIsTested(t, s, from, location, p);
      }
    }
  }

  // ---------- a forward search from inside a sequence ----------

  /** From inside a sequence the walk jumps over the boundary behind it. */
  lemma ForwardSkipsNext(t: Unicode, s: seq<Unichar>, from: nat)
    requires from < |s| && !Boundary(t, s, from)
    ensures var b := SeqEnd(t, s, from);
            from < b <= |s| && Boundary(t, s, b) && !OnPath(t, s, from, b)
  {
    SequencesPartition(t, s, from);
    var b, next := SeqEnd(t, s, from), from + SeqLength(t, s, from);
    if OnPath(t, s, next, b) {
      PathForward(t, s, next, b);
    }
  }

  /** The walk visits every boundary up to `last` exactly if it begins at one or the sequence it
      begins in goes on behind `last`. */
  lemma ForwardVisitsAllIff(t: Unicode, s: seq<Unichar>, from: nat, last: nat)
    requires from <= last <= |s|
    ensures (forall p | from <= p <= last && Boundary(t, s, p) :: OnPath(t, s, from, p)) <==>
            Boundary(t, s, from) || SeqEnd(t, s, from) > last
  {
    hide OnPath, SeqEnd;
    if Boundary(t, s, from) {
      forall p | from <= p <= last && Boundary(t, s, p) ensures OnPath(t, s, from, p) {
        PathIsBoundaries(t, s, from, p);
      }
    } else {
      SequencesPartition(t, s, from);
      ForwardSkipsNext(t, s, from);
    }
  }

  // ---------- anchored searches ----------

  /** Anchored at the beginning, only the beginning of the range is tested, and fully. */
  lemma AnchoredForwardIff(t: Unicode, caseless: bool, s: seq<Unichar>, o: seq<Unichar>,
                           location: nat, length: nat, r: Found)
    requires location + length <= |s| && o != []
    requires ForwardResult(t, caseless, true, s, o, location, length, r)
    ensures r.At? <==> |o| <= length && MatchesAt(t, caseless, s, o, location, location + length)
    ensures r.At? ==> r.location == location
  {
    hide MatchesAt, MatchEnd, Leftmost, OnPath;
    if |o| <= length {
      ForwardOutcomeAnywhere(t, caseless, s, o, location, location, location + length, r);
      PathBegins(t, s, location);
      forall q | OnPath(t, s, location, q) ensures location <= q {
        PathForward(t, s, location, q);
      }
    }
  }

  lemma NextInside(t: Unicode, s: seq<Unichar>, p: nat, e: nat)
    requires p < e <= |s| && Boundary(t, s, p) && Boundary(t, s, e)
    ensures p + SeqLength(t, s, p) <= e && Boundary(t, s, p + SeqLength(t, s, p))
  {
    SequencesPartition(t, s, p);
    StartOfMark(t, s, p, p);
  }

  lemma FirstIsUnitIff(t: Unicode, s: seq<Unichar>, p: nat, end: nat)
    requires p < end <= |s| && Boundary(t, s, p) && Boundary(t, s, end)
    ensures var n := p + SeqLength(t, s, p);
            && n <= end && Boundary(t, s, n)
            && (n == p + 1 <==> p + 1 == end || s[p + 1] !in t.nonBase)
            && (n > p + 1 ==> p + 1 < end)
  {
    NextInside(t, s, p, end);
    StartOfMark(t, s, p, p);
    MarksSkipped(t, s, p + 1);
  }

  lemma {:induction false} UnitSequencesIff(t: Unicode, s: seq<Unichar>, p: nat, end: nat)
    requires p <= end <= |s| && Boundary(t, s, p) && Boundary(t, s, end)
    ensures |Sequences(t, s, p, end)| == end - p <==> forall j | p < j < end :: s[j] !in t.nonBase
    decreases end - p
  {
    hide SeqLength, SeqAt, Boundary;
    if p < end {
      var n := p + SeqLength(t, s, p);
      FirstIsUnitIff(t, s, p, end);
      SequencesTail(t, s, p, end);
      RoomForSequences(t, s, n, end);
      if n == p + 1 {
        UnitSequencesIff(t, s, n, end);
      }
    }
  }

  /** An occurrence that ends with the range: what a backward anchored search is to find. */
  ghost predicate EndsRange(t: Unicode, caseless: bool, s: seq<Unichar>, o: seq<Unichar>,
                            location: nat, length: nat, p: nat)
    requires location + length <= |s|
  {
    && MatchIn(t, caseless, s, o, location, length, p)
    && MatchEnd(t, s, o, p, location + length) == location + length
  }

  lemma ZeroIsBoundary(t: Unicode, o: seq<Unichar>)
    ensures Boundary(t, o, 0)
  {
  }

  /** Its distance from the end of the range is the number of base units of the target exactly
      if neither it has a mark behind its first unit nor the target at its beginning. */
  lemma EndsAtBaseLengthIff(t: Unicode, caseless: bool, s: seq<Unichar>, o: seq<Unichar>,
                            location: nat, length: nat, p: nat)
    requires location + length <= |s| && EndsRange(t, caseless, s, o, location, length, p)
    ensures BaseLength(t, o) <= location + length - p
    ensures location + length - p == BaseLength(t, o) <==>
            o[0] !in t.nonBase && forall j | p < j < location + length :: s[j] !in t.nonBase
  {
    hide MatchesAt, MatchEnd, Sequences, BaseLength, Boundary, Landing;
    var rangeEnd := location + length;
    MatchEndIs(t, caseless, s, o, p, rangeEnd);
    MatchEndIff(t, caseless, s, o, p, rangeEnd);
    SequenceCount(t, o, 0) by { ZeroIsBoundary(t, o); }
    assert o[0..] == o;
    RoomForSequences(t, s, p, rangeEnd);
    UnitSequencesIff(t, s, p, rangeEnd);
  }

  /** Anchored at the end, an occurrence there is found exactly if the target has no more units
      than the range, does not begin with a mark, and the occurrence is free of marks behind its
      first unit. */
  lemma AnchoredBackwardIff(t: Unicode, caseless: bool, s: seq<Unichar>, o: seq<Unichar>,
                            location: nat, length: nat, p: nat, r: Found)
    requires location + length <= |s| && EndsRange(t, caseless, s, o, location, length, p)
    requires BackwardResult(t, caseless, true, s, o, location, length, r)
    ensures r == At(p, location + length - p) <==>
            && |o| <= length && o[0] !in t.nonBase
            && forall j | p < j < location + length :: s[j] !in t.nonBase
  {
    hide MatchesAt, MatchEnd, Boundary, Rightmost, BaseLength;
    EndsAtBaseLengthIff(t, caseless, s, o, location, length, p);
    if |o| <= length {
      var from := location + length - BaseLength(t, o);
      BackwardOutcome(t, caseless, s, o, from, from, location + length, r);
    }
  }

  // ---------- found exactly if it occurs ----------

  /** `o` occurs in the range: some text between boundaries compares Same with it. */
  ghost predicate Occurs(t: Unicode, s: seq<Unichar>, o: seq<Unichar>, location: nat, rangeEnd: nat) {
    && rangeEnd <= |s|
    && exists p, e | location <= p < e <= rangeEnd && Boundary(t, s, p) && Boundary(t, s, e) :: IsText(t, s[p..e], o)
  }

  lemma SequenceAtBoundary(t: Unicode, s: seq<Unichar>, p: nat)
    requires p < |s| && Boundary(t, s, p)
    ensures p + SeqLength(t, s, p) <= |s| && SeqAt(t, s, p) == s[p..p + SeqLength(t, s, p)]
  {
    StartOfMark(t, s, p, p);
  }

  /** Between boundaries the sequences put together are the text. */
  lemma {:induction false} SequencesCover(t: Unicode, s: seq<Unichar>, p: nat, e: nat)
    requires p <= e <= |s| && Boundary(t, s, p) && Boundary(t, s, e)
    ensures Joined(Sequences(t, s, p, e)) == s[p..e]
    decreases e - p
  {
    hide SeqLength, SeqAt, Boundary;
    if p < e {
      NextInside(t, s, p, e);
      SequenceAtBoundary(t, s, p);
      var n := p + SeqLength(t, s, p);
      SequencesCover(t, s, n, e);
      SequencesTail(t, s, p, e);
      assert s[p..e] == s[p..n] + s[n..e];
    }
  }

  lemma {:induction false} SequencesGrow(t: Unicode, s: seq<Unichar>, p: nat, e: nat, end: nat)
    requires p <= e <= end <= |s| && Boundary(t, s, p) && Boundary(t, s, e)
    ensures Sequences(t, s, p, e) <= Sequences(t, s, p, end)
    decreases e - p
  {
    hide SeqAt, Boundary;
    if p < e {
      NextInside(t, s, p, e);
      SequencesGrow(t, s, p + SeqLength(t, s, p), e, end);
      SequencesTail(t, s, p, e);
      SequencesTail(t, s, p, end);
    }
  }

  lemma KeysAre(t: Unicode, c: seq<Unichar>)
    ensures Key(t, false, c) == FirstKey(t, false, c)
  {
  }

  /** Text between boundaries that compares Same is a match exactly if the first sequences are the
      same when lowered, if the search is caseless, before they are normalised. */
  lemma TextMatchesIff(t: Unicode, caseless: bool, s: seq<Unichar>, o: seq<Unichar>, p: nat, e: nat, rangeEnd: nat)
    requires o != [] && p < e <= rangeEnd <= |s| && Boundary(t, s, p) && Boundary(t, s, e)
    requires LexSequences(t, caseless, Sequences(t, s, p, e), Sequences(t, o, 0, |o|)) == Same
    ensures MatchesAt(t, caseless, s, o, p, rangeEnd) <==>
            FirstKey(t, caseless, SeqAt(t, s, p)) == FirstKey(t, caseless, SeqAt(t, o, 0))
  {
    hide Key, SeqAt, Boundary, LexSequences, Sequences, NormalForm, FirstKey;
    var w, a, b := Sequences(t, s, p, e), Sequences(t, s, p, rangeEnd), Sequences(t, o, 0, |o|);
    SameSequencesIff(t, caseless, w, b);
    SequencesGrow(t, s, p, e, rangeEnd);
    SequencesTail(t, s, p, rangeEnd);
    SequencesTail(t, o, 0, |o|);
    assert w[0] == a[0];
    assert forall i | 0 <= i < |b| - 1 :: a[1..][i] == a[i + 1] == w[i + 1] && b[1..][i] == b[i + 1];
  }

  /** Case-sensitively it always is. */
  lemma TextMatches(t: Unicode, s: seq<Unichar>, o: seq<Unichar>, p: nat, e: nat, rangeEnd: nat)
    requires o != [] && p < e <= rangeEnd <= |s| && Boundary(t, s, p) && Boundary(t, s, e)
    requires IsText(t, s[p..e], o)
    ensures MatchesAt(t, false, s, o, p, rangeEnd)
  {
    hide Key, SeqAt, Boundary, LexSequences, Sequences, NormalForm, MatchesAt;
    SequencesOfSlice(t, s, p, e, 0);
    TextMatchesIff(t, false, s, o, p, e, rangeEnd);
    var w, b := Sequences(t, s, p, e), Sequences(t, o, 0, |o|);
    SameSequencesIff(t, false, w, b);
    SequencesTail(t, s, p, e);
    SequencesTail(t, o, 0, |o|);
    KeysAre(t, w[0]);
    KeysAre(t, b[0]);
  }

  lemma SoundOccurs(t: Unicode, s: seq<Unichar>, o: seq<Unichar>, location: nat, rangeEnd: nat, p: nat, e: nat)
    requires o != [] && rangeEnd <= |s| && MatchesAt(t, false, s, o, p, rangeEnd)
    requires e == MatchEnd(t, s, o, p, rangeEnd) && Sound(t, s, o, location, rangeEnd, p, e)
    ensures Occurs(t, s, o, location, rangeEnd)
  {
    hide MatchesAt, MatchEnd, Boundary, IsText;
    SoundIff(t, s, o, location, p, rangeEnd, e);
    MatchEndIff(t, false, s, o, p, rangeEnd);
    MatchEndIs(t, false, s, o, p, rangeEnd);
    assert location <= p < e <= rangeEnd && IsText(t, s[p..e], o);
  }

  lemma OccursAtMatch(t: Unicode, s: seq<Unichar>, o: seq<Unichar>, location: nat, length: nat) returns (p: nat)
    requires o != [] && location + length <= |s| && Occurs(t, s, o, location, location + length)
    ensures MatchIn(t, false, s, o, location, length, p)
  {
    hide MatchesAt, Boundary, IsText;
    var q, e :| location <= q < e <= location + length && Boundary(t, s, q) && Boundary(t, s, e)
                && IsText(t, s[q..e], o);
    TextMatches(t, s, o, q, e, location + length);
    p := q;
  }

  /** Between boundaries, a forward search for a target with a base unit finds it exactly if it
      occurs and has no more units than the range; and what is found is it. */
  lemma ForwardFindsIff(t: Unicode, s: seq<Unichar>, o: seq<Unichar>, location: nat, length: nat, r: Found)
    requires location + length <= |s| && Boundary(t, s, location) && Boundary(t, s, location + length)
    requires BaseLength(t, o) > 0 && ForwardResult(t, false, false, s, o, location, length, r)
    ensures r.At? <==> |o| <= length && Occurs(t, s, o, location, location + length)
    ensures r.At? ==> Sound(t, s, o, location, location + length, r.location, r.location + r.length)
  {
    hide MatchesAt, MatchEnd, Boundary, Leftmost, BaseLength, Occurs, Sound;
    if r.At? {
      var last := location + length - BaseLength(t, o);
      ForwardSound(t, s, o, location, last, location + length, r);
      ForwardOutcome(t, false, s, o, location, last, location + length, r);
      SoundOccurs(t, s, o, location, location + length, r.location, r.location + r.length);
    } else if Occurs(t, s, o, location, location + length) {
      var p := OccursAtMatch(t, s, o, location, length);
      ForwardMissesIff(t, false, s, o, location, length, p, r);
    }
  }

  /** And so does a backward search whose first position is a boundary. */
  lemma BackwardFindsIff(t: Unicode, s: seq<Unichar>, o: seq<Unichar>, location: nat, length: nat, r: Found)
    requires location + length <= |s| && Boundary(t, s, location) && Boundary(t, s, location + length)
    requires BaseLength(t, o) > 0 && BackwardResult(t, false, false, s, o, location, length, r)
    requires |o| <= length ==> Boundary(t, s, location + length - BaseLength(t, o))
    ensures r.At? <==> |o| <= length && Occurs(t, s, o, location, location + length)
    ensures r.At? ==> Sound(t, s, o, location, location + length, r.location, r.location + r.length)
  {
    hide MatchesAt, MatchEnd, Boundary, Rightmost, BaseLength, Occurs, Sound;
    if r.At? {
      var from := location + length - BaseLength(t, o);
      BackwardSound(t, s, o, from, location, location + length, r);
      BackwardOutcome(t, false, s, o, from, location, location + length, r);
      SoundOccurs(t, s, o, location, location + length, r.location, r.location + r.length);
    } else if Occurs(t, s, o, location, location + length) {
      var p := OccursAtMatch(t, s, o, location, length);
      BackwardMissesIff(t, false, s, o, location, length, p, r);
    }
  }

  // ---------- examples ----------

  lemma SameNormalForm(t: Unicode)
    requires t == DiaeresisTable()
    ensures NormalForm(t, [0xDC]) == NormalForm(t, [0x55, 0x308])
  {
    var a, b := [0xDC], [0x55, 0x308];
    hide Full, NormalForm, Reorder;
    TailOfWideStart(a, 0);
    assert b[1..] == [0x308];
    TailOfWideStart(b, 1);
    SettlesOfOne(t, 0xDC, 0);
    SettlesOfFlat(t, b[1..], 0);
    assert Full(t, a) == Full(t, b) by {
      FullOfPass(t, a);
      assert Pass(t, a) == b + Pass(t, []) == b;
    }
    ReorderEqualIff(t, Full(t, a), Full(t, b));
    EqualNormalFormsIff(t, a, b);
  }

  lemma DecomposedMatches(t: Unicode)
    requires t.nonBase == {0x304, 0x308} && NormalForm(t, [0xDC]) == NormalForm(t, [0x55, 0x308])
    ensures IsText(t, [0xDC], [0x55, 0x308]) && MatchesAt(t, false, [0xDC], [0x55, 0x308], 0, 1)
  {
    var s, o := [0xDC], [0x55, 0x308];
    hide NormalForm;
    assert SeqAt(t, s, 0) == s && SeqLength(t, s, 0) == 1;
    assert SkipMarks(t, o, 2) == 2 && SeqAt(t, o, 0) == o && SeqLength(t, o, 0) == 2;
    assert Sequences(t, s, 0, 1) == [s] && Sequences(t, o, 0, 2) == [o];
    SameSequencesIff(t, false, [s], [o]);
  }

  lemma DiaeresisMarks()
    ensures DiaeresisTable().nonBase == {0x304, 0x308}
  {
  }

  /** U+00DC and its decomposition compare the same, but the search for the two units in the one
      finds nothing. */
  lemma LongerThanTheRange(r: Found, q: Found)
    requires ForwardResult(DiaeresisTable(), false, false, [0xDC], [0x55, 0x308], 0, 1, r)
    requires BackwardResult(DiaeresisTable(), false, false, [0xDC], [0x55, 0x308], 0, 1, q)
    ensures var t := DiaeresisTable();
            && IsText(t, [0xDC], [0x55, 0x308]) && MatchIn(t, false, [0xDC], [0x55, 0x308], 0, 1, 0)
            && r == q == NotFound
  {
    hide NormalForm, DiaeresisTable, MatchesAt, IsText;
    var t := DiaeresisTable();
    SameNormalForm(t);
    DiaeresisMarks();
    DecomposedMatches(t);
  }

  /** Every string matches itself. */
  lemma MatchesItself(t: Unicode, caseless: bool, s: seq<Unichar>)
    requires s != []
    ensures EndsRange(t, caseless, s, s, 0, |s|, 0)
  {
    hide Key, FirstKey, SeqAt;
    SequencesTail(t, s, 0, |s|);
    LandingIs(t, s, 0, |s|);
    LandingAligned(t, s, 0, |s|);
    var b := Sequences(t, s, SeqLength(t, s, 0), |s|);
    assert b[..|b|] == b;
  }

  /** Looked for in itself backward and anchored, a string is found exactly if it has no marks. */
  lemma FindsItselfIff(t: Unicode, caseless: bool, s: seq<Unichar>, r: Found)
    requires s != [] && BackwardResult(t, caseless, true, s, s, 0, |s|, r)
    ensures r == At(0, |s|) <==> forall j | 0 <= j < |s| :: s[j] !in t.nonBase
  {
    hide BackwardResult, EndsRange;
    MatchesItself(t, caseless, s);
    AnchoredBackwardIff(t, caseless, s, s, 0, |s|, 0, r);
  }

  lemma FirstUnitStays(t: Unicode, a: seq<Unichar>)
    requires a != [] && a[0] < 0xC0 && 0 !in a
    ensures NormalForm(t, a) != [] && NormalForm(t, a)[0] == a[0]
  {
    FirstWideFacts(a);
    if Wide(a) {
      NormalFormShape(t, a);
    }
  }

  lemma FirstUnitsDiffer(t: Unicode, a: seq<Unichar>, b: seq<Unichar>)
    requires a != [] && b != [] && a[0] < 0xC0 && b[0] < 0xC0 && a[0] != b[0] && 0 !in a && 0 !in b
    ensures NormalForm(t, a) != NormalForm(t, b)
  {
    FirstUnitStays(t, a);
    FirstUnitStays(t, b);
  }

  function Twice(): (s: seq<Unichar>) {
    [0x61, 0x304, 0x62, 0x304]
  }

  lemma NoMatchAtTwo(t: Unicode)
    requires Letters(t)
    ensures !MatchesAt(t, false, Twice(), Twice(), 2, 4)
  {
    hide NormalForm;
    var s := Twice();
    assert SkipMarks(t, s, 2) == 2 && SkipMarks(t, s, 4) == 4;
    assert SeqAt(t, s, 0) == [0x61, 0x304] && SeqAt(t, s, 2) == [0x62, 0x304];
    FirstUnitsDiffer(t, [0x61, 0x304], [0x62, 0x304]);
  }

  /** "a", U+0304, "b", U+0304 is not found in itself. */
  lemma NotFoundInItself(t: Unicode, r: Found)
    requires Letters(t) && BackwardResult(t, false, true, Twice(), Twice(), 0, 4, r)
    ensures EndsRange(t, false, Twice(), Twice(), 0, 4, 0) && r == NotFound
  {
    hide MatchesAt, MatchEnd, Rightmost;
    var s := Twice();
    MatchesItself(t, false, s);
    assert BaseLength(t, s[3..]) == 0 && BaseLength(t, s[2..]) == 1 && BaseLength(t, s[1..]) == 1;
    BackwardOutcome(t, false, s, s, 2, 2, 4, r);
    NoMatchAtTwo(t);
  }

  lemma JumpedOverPath(t: Unicode)
    requires Letters(t) && 0x63 !in t.nonBase
    ensures forall q: nat | q <= 4 && OnPath(t, [0x61, 0x304, 0x304, 0x62, 0x63], 1, q) :: q == 1 || q == 4
  {
    var s := [0x61, 0x304, 0x304, 0x62, 0x63];
    assert SkipMarks(t, s, 3) == 3 && SkipMarks(t, s, 1) == 3 && SeqStart(t, s, 1) == 0;
    assert SeqLength(t, s, 1) == 3;
    forall q: nat | q <= 4 && OnPath(t, s, 1, q) ensures q == 1 || q == 4 {
      if q != 1 {
        PathForward(t, s, 4, q);
      }
    }
  }

  lemma JumpedOverMatches(t: Unicode)
    requires Letters(t) && 0x63 !in t.nonBase
    ensures var s, o := [0x61, 0x304, 0x304, 0x62, 0x63], [0x62];
            !MatchesAt(t, false, s, o, 1, 5) && !MatchesAt(t, false, s, o, 4, 5) && MatchesAt(t, false, s, o, 3, 5)
  {
    var s, o := [0x61, 0x304, 0x304, 0x62, 0x63], [0x62];
    hide NormalForm, Key;
    assert SkipMarks(t, s, 3) == 3 && SkipMarks(t, s, 1) == 3 && SeqStart(t, s, 1) == 0;
    assert SeqAt(t, s, 1) == [0x61, 0x304, 0x304] && SeqAt(t, s, 3) == o && SeqAt(t, s, 4) == [0x63];
    assert SeqAt(t, o, 0) == o && SeqLength(t, o, 0) == 1 && Sequences(t, o, 1, 1) == [];
    FirstUnitsDiffer(t, [0x61, 0x304, 0x304], o);
    FirstUnitsDiffer(t, [0x63], o);
  }

  /** Forward from inside a sequence: "b" is not found in the last four units of "a", U+0304,
      U+0304, "b", "c". */
  lemma JumpedOver(t: Unicode, r: Found)
    requires Letters(t) && 0x63 !in t.nonBase
    requires ForwardResult(t, false, false, [0x61, 0x304, 0x304, 0x62, 0x63], [0x62], 1, 4, r)
    ensures MatchIn(t, false, [0x61, 0x304, 0x304, 0x62, 0x63], [0x62], 1, 4, 3) && r == NotFound
  {
    hide MatchesAt, MatchEnd, Leftmost, OnPath;
    var s, o := [0x61, 0x304, 0x304, 0x62, 0x63], [0x62];
    ForwardOutcomeAnywhere(t, false, s, o, 1, 4, 5, r);
    JumpedOverPath(t);
    JumpedOverMatches(t);
  }
}
