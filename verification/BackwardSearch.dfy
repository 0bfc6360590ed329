/** The backward composed modes of the search (GSEQ_STRRANGE). */
module BackwardSearch {
  import opened UnicodeTables
  import opened GSeq
  import opened NormalForms
  import opened StringCompare
  import opened StringSearch

  /** The positions that the backward loop visits from `from`: it ends at or before `last`. */
  predicate OnPathBack(t: Unicode, s: seq<Unichar>, from: nat, last: nat, q: nat)
    requires from <= |s|
    decreases from
  {
    q == from || (from > last && OnPathBack(t, s, SeqStart(t, s, from - 1), last, q))
  }

  lemma {:induction false} PathBackOrder(t: Unicode, s: seq<Unichar>, from: nat, last: nat, q: nat)
    requires from <= |s| && OnPathBack(t, s, from, last, q)
    ensures q <= from
    decreases from
  {
    if q != from {
      PathBackOrder(t, s, SeqStart(t, s, from - 1), last, q);
    }
  }

  /** The next position after `m` is visited, and none in between. */
  lemma {:induction false} PathBackNext(t: Unicode, s: seq<Unichar>, from: nat, last: nat, m: nat)
    requires from <= |s| && OnPathBack(t, s, from, last, m) && m > last
    ensures m <= |s| && OnPathBack(t, s, from, last, SeqStart(t, s, m - 1))
    ensures forall q: nat | OnPathBack(t, s, from, last, q) && q < m :: q <= SeqStart(t, s, m - 1)
    decreases from
  {
    hide SeqStart;
    var p := SeqStart(t, s, from - 1);
    if m != from {
      PathBackOrder(t, s, p, last, m);
      PathBackNext(t, s, p, last, m);
    } else {
      forall q: nat | OnPathBack(t, s, p, last, q) ensures q <= p {
        PathBackOrder(t, s, p, last, q);
      }
    }
  }

  /** Nothing is visited after a position at or before `last`. */
  lemma {:induction false} PathBackEnds(t: Unicode, s: seq<Unichar>, from: nat, last: nat, m: nat, q: nat)
    requires from <= |s| && OnPathBack(t, s, from, last, m) && m <= last && OnPathBack(t, s, from, last, q)
    ensures q >= m
    decreases from
  {
    hide SeqStart;
    if m != from {
      var p := SeqStart(t, s, from - 1);
      PathBackOrder(t, s, p, last, m);
      if q != from {
        PathBackEnds(t, s, p, last, m, q);
      }
    }
  }

  /** No visited position behind `m` matches. */
  ghost predicate NoneBehind(t: Unicode, caseless: bool, s: seq<Unichar>, o: seq<Unichar>,
                             from: nat, last: nat, m: nat, rangeEnd: nat)
    requires o != [] && rangeEnd <= |s| && from <= |s|
  {
    && OnPathBack(t, s, from, last, m)
    && forall q: nat | q > m && OnPathBack(t, s, from, last, q) :: !MatchesAt(t, caseless, s, o, q, rangeEnd)
  }

  lemma NoneBehindNext(t: Unicode, caseless: bool, s: seq<Unichar>, o: seq<Unichar>,
                       from: nat, last: nat, m: nat, rangeEnd: nat)
    requires o != [] && rangeEnd <= |s| && from <= |s|
    requires NoneBehind(t, caseless, s, o, from, last, m, rangeEnd) && !MatchesAt(t, caseless, s, o, m, rangeEnd)
    ensures m > last ==> m <= |s| && NoneBehind(t, caseless, s, o, from, last, SeqStart(t, s, m - 1), rangeEnd)
    ensures m <= last ==> forall q: nat | OnPathBack(t, s, from, last, q) :: !MatchesAt(t, caseless, s, o, q, rangeEnd)
  {
    hide MatchesAt, SeqStart;
    if m > last {
      PathBackNext(t, s, from, last, m);
    } else {
      forall q: nat | OnPathBack(t, s, from, last, q) ensures q >= m {
        PathBackEnds(t, s, from, last, m, q);
      }
    }
  }

  /** The outcome of the outer loop from `from` down to `last`: the last match visited. */
  ghost predicate Rightmost(t: Unicode, caseless: bool, s: seq<Unichar>, o: seq<Unichar>,
                            from: nat, last: nat, rangeEnd: nat, r: Found)
    requires o != [] && rangeEnd <= |s| && from <= |s|
  {
    match r
    case At(p, n) =>
      && from < |s|
      && MatchesAt(t, caseless, s, o, p, rangeEnd) && NoneBehind(t, caseless, s, o, from, last, p, rangeEnd)
      && p + n == MatchEnd(t, s, o, p, rangeEnd)
    case NotFound =>
      from < |s| && forall q: nat | OnPathBack(t, s, from, last, q) :: !MatchesAt(t, caseless, s, o, q, rangeEnd)
    case RangeError => from == |s|
  }

  /** Step back by one, and on to the start of that sequence. */
  method StepBack(t: Unicode, s: seq<Unichar>, myIndex: nat) returns (k: nat)
    requires 0 < myIndex <= |s|
    ensures k == SeqStart(t, s, myIndex - 1)
  {
    k := myIndex - 1;
    while s[k] in t.nonBase && k > 0
      invariant k < |s| && SeqStart(t, s, k) == SeqStart(t, s, myIndex - 1)
    {
      k := k - 1;
    }
  }

  lemma EndIsBehind(t: Unicode, s: seq<Unichar>, o: seq<Unichar>, p: nat, rangeEnd: nat)
    requires o != [] && rangeEnd <= |s| && p < |s|
    ensures MatchEnd(t, s, o, p, rangeEnd) >= p
  {
  }

  lemma StartOfPathBack(t: Unicode, caseless: bool, s: seq<Unichar>, o: seq<Unichar>,
                        from: nat, last: nat, rangeEnd: nat)
    requires o != [] && rangeEnd <= |s| && from <= |s|
    ensures NoneBehind(t, caseless, s, o, from, last, from, rangeEnd)
  {
    hide MatchesAt, SeqStart;
    forall q: nat | OnPathBack(t, s, from, last, q) ensures q <= from {
      PathBackOrder(t, s, from, last, q);
    }
  }

  method SearchBackward(t: Unicode, caseless: bool, s: seq<Unichar>, o: seq<Unichar>,
                        from: nat, last: nat, rangeEnd: nat, iSeq: GSeqStruct, iLength: nat) returns (r: Found)
    requires Bounded(t) && o != [] && from <= rangeEnd <= |s|
    requires Holds(t, iSeq, FirstRead(t, caseless, SeqAt(t, o, 0))) && iLength == SeqLength(t, o, 0)
    modifies iSeq, iSeq.chars
    ensures Rightmost(t, caseless, s, o, from, last, rangeEnd, r)
  {
    hide MatchesAt, SeqStart, OnPathBack, Holds, FirstRead, SeqAt, SeqLength, MatchEnd;
    if from == |s| {
      return RangeError;
    }
    var myIndex: nat := from;
    assert NoneBehind(t, caseless, s, o, from, last, myIndex, rangeEnd) by {
      StartOfPathBack(t, caseless, s, o, from, last, rangeEnd);
    }
    while true
      invariant Holds(t, iSeq, FirstRead(t, caseless, SeqAt(t, o, 0)))
      invariant myIndex < |s| && NoneBehind(t, caseless, s, o, from, last, myIndex, rangeEnd)
      decreases myIndex
    {
      var found, end, next := TryAt(t, caseless, s, o, myIndex, rangeEnd, iSeq, iLength);
      if found {
        EndIsBehind(t, s, o, myIndex, rangeEnd);
        return At(myIndex, end - myIndex);
      }
      NoneBehindNext(t, caseless, s, o, from, last, myIndex, rangeEnd);
      if myIndex <= last {
        return NotFound;
      }
      myIndex := StepBack(t, s, myIndex);
    }
  }

  /** What a backward call reports.  A target longer than the range is not looked for. */
  ghost predicate BackwardResult(t: Unicode, caseless: bool, anchored: bool,
                                 s: seq<Unichar>, o: seq<Unichar>, location: nat, length: nat, r: Found)
    requires location + length <= |s|
  {
    if o == [] || |o| > length then r == NotFound
    else
      var from := location + length - BaseLength(t, o);
      Rightmost(t, caseless, s, o, from, if anchored then from else location, location + length, r)
  }

  /** The last match among the positions visited from as many units before the end of the range
      as the target has base units, or only there if anchored.  A start at the end of the string
      raises an exception. */
  method FindComposedBackward(t: Unicode, caseless: bool, anchored: bool,
                              s: seq<Unichar>, o: seq<Unichar>, location: nat, length: nat) returns (r: Found)
    requires Bounded(t) && location + length <= |s|
    ensures BackwardResult(t, caseless, anchored, s, o, location, length, r)
  {
    hide Rightmost, SeqStart, SeqEnd, Holds;
    var rangeEnd := location + length;
    if |o| > length || |o| == 0 {
      return NotFound;
    }
    var strBaseLength := CountBase(t, o);
    var myIndex := rangeEnd - strBaseLength;
    var myEndIndex := location;
    if anchored {
      myEndIndex := myIndex;
    }
    var iStart, iLength := RangeOfSequence(t, o, 0);
    var iSeq := ReadFirst(t, caseless, o[iStart..iStart + iLength]);
    r := SearchBackward(t, caseless, s, o, myIndex, myEndIndex, rangeEnd, iSeq, iLength);
  }

  // ---------- what the outcome means ----------

  /** The positions that are tested: the first one, wherever it is, and then the boundaries down
      to that of the sequence in which the range begins. */
  predicate Tested(t: Unicode, s: seq<Unichar>, from: nat, last: nat, q: nat)
    requires last < |s|
  {
    q == from || (last < from && Boundary(t, s, q) && SeqStart(t, s, last) <= q < from)
  }

  lemma {:induction false} PathBackIsTested(t: Unicode, s: seq<Unichar>, from: nat, last: nat, q: nat)
    requires last <= from < |s|
    ensures OnPathBack(t, s, from, last, q) <==> Tested(t, s, from, last, q)
    decreases from
  {
    if from > last {
      var p := SeqStart(t, s, from - 1);
      StartIsBoundary(t, s, from - 1);
      if p >= last {
        PathBackIsTested(t, s, p, last, q);
        StartIsBoundary(t, s, last);
        StartOfMark(t, s, p, p);
      } else {
        StartOfMark(t, s, p, last);
      }
    }
  }

  /** Wherever the search begins: the last tested position that matches, NotFound exactly if none
      does, and the exception exactly if it begins at the end of the string. */
  lemma BackwardOutcome(t: Unicode, caseless: bool, s: seq<Unichar>, o: seq<Unichar>,
                        from: nat, last: nat, rangeEnd: nat, r: Found)
    requires o != [] && last <= from <= rangeEnd <= |s|
    requires Rightmost(t, caseless, s, o, from, last, rangeEnd, r)
    ensures r == RangeError <==> from == |s|
    ensures r.At? ==> && from < |s| && Tested(t, s, from, last, r.location)
                      && MatchesAt(t, caseless, s, o, r.location, rangeEnd)
                      && r.location + r.length == MatchEnd(t, s, o, r.location, rangeEnd)
                      && forall q | q > r.location && Tested(t, s, from, last, q) ::
                           !MatchesAt(t, caseless, s, o, q, rangeEnd)
    ensures r == NotFound <==>
              from < |s| && forall q: nat | Tested(t, s, from, last, q) :: !MatchesAt(t, caseless, s, o, q, rangeEnd)
  {
    hide MatchesAt, MatchEnd, OnPathBack, Tested;
    if from < |s| {
      forall q: nat ensures OnPathBack(t, s, from, last, q) <==> Tested(t, s, from, last, q) {
        PathBackIsTested(t, s, from, last, q);
      }
    }
  }

  /** The one tested position that may lie before `last`. */
  predicate TestedBefore(t: Unicode, s: seq<Unichar>, from: nat, last: nat, q: nat)
    requires last < |s|
  {
    last < from && !Boundary(t, s, last) && q == SeqStart(t, s, last)
  }

  predicate TestedInside(t: Unicode, s: seq<Unichar>, from: nat, last: nat, q: nat) {
    last <= q <= from && (q == from || Boundary(t, s, q))
  }

  lemma TestedWhere(t: Unicode, s: seq<Unichar>, from: nat, last: nat, q: nat)
    requires last <= from < |s|
    ensures Tested(t, s, from, last, q) <==> TestedBefore(t, s, from, last, q) || TestedInside(t, s, from, last, q)
  {
    StartIsBoundary(t, s, last);
    StartOfMark(t, s, SeqStart(t, s, last), last);
  }

  lemma SeqStartOfLast(t: Unicode, s: seq<Unichar>, last: nat)
    requires last < |s|
    ensures !Boundary(t, s, last) ==> SeqStart(t, s, last) < last
  {
  }

  /** A match is reported before the beginning of the range exactly if the range begins inside a
      sequence, that sequence matches, and nothing tested inside the range does. */
  lemma BackwardLeavesStartIff(t: Unicode, caseless: bool, s: seq<Unichar>, o: seq<Unichar>,
                               from: nat, last: nat, rangeEnd: nat, r: Found)
    requires o != [] && last <= from <= rangeEnd <= |s|
    requires Rightmost(t, caseless, s, o, from, last, rangeEnd, r)
    ensures r.At? && r.location < last <==>
              && last < from < |s| && !Boundary(t, s, last)
              && MatchesAt(t, caseless, s, o, SeqStart(t, s, last), rangeEnd)
              && forall q: nat | TestedInside(t, s, from, last, q) :: !MatchesAt(t, caseless, s, o, q, rangeEnd)
  {
    BackwardOutcome(t, caseless, s, o, from, last, rangeEnd, r);
    hide MatchesAt, MatchEnd, Rightmost, Tested, Boundary, SeqStart;
    if from < |s| {
      forall q: nat
        ensures Tested(t, s, from, last, q) <==>
                TestedBefore(t, s, from, last, q) || TestedInside(t, s, from, last, q)
      {
        TestedWhere(t, s, from, last, q);
      }
      SeqStartOfLast(t, s, last);
    }
  }

  /** A match is reported at a position inside a sequence exactly if the search begins there and
      that position matches. */
  lemma BackwardUnalignedIff(t: Unicode, caseless: bool, s: seq<Unichar>, o: seq<Unichar>,
                             from: nat, last: nat, rangeEnd: nat, r: Found)
    requires o != [] && last <= from <= rangeEnd <= |s|
    requires Rightmost(t, caseless, s, o, from, last, rangeEnd, r)
    ensures r.At? && !Boundary(t, s, r.location) <==>
              !Boundary(t, s, from) && MatchesAt(t, caseless, s, o, from, rangeEnd)
  {
    BackwardOutcome(t, caseless, s, o, from, last, rangeEnd, r);
    hide MatchesAt, MatchEnd, Rightmost;
    if from < |s| {
      assert Tested(t, s, from, last, from);
    }
  }

  lemma ExampleMatches(t: Unicode)
    requires 0x304 in t.nonBase && 0x61 !in t.nonBase && 0x62 !in t.nonBase
    ensures MatchesAt(t, false, [0x61, 0x304, 0x62], [0x61, 0x304], 0, 3)
    ensures !MatchesAt(t, false, [0x61, 0x304, 0x62], [0x61, 0x304], 2, 3)
  {
    var s, o := [0x61, 0x304, 0x62], [0x61, 0x304];
    hide NormalForm, Key;
    assert SeqStart(t, s, 0) == 0 && SeqStart(t, s, 2) == 2;
    assert SkipMarks(t, s, 2) == 2 && SkipMarks(t, s, 3) == 3 && SkipMarks(t, o, 2) == 2;
    assert SeqAt(t, s, 0) == o == SeqAt(t, o, 0) && SeqAt(t, s, 2) == [0x62];
    MixedNormalFormsDiffer(t, o, [0x62]);
  }

  /** When the range begins inside a sequence, the match may begin before the range: the range
      from index 1 of "a", U+0304, "b" is found to contain "a", U+0304 at index 0. */
  lemma MatchBeforeRange(t: Unicode, r: Found)
    requires 0x304 in t.nonBase && 0x61 !in t.nonBase && 0x62 !in t.nonBase
    requires Rightmost(t, false, [0x61, 0x304, 0x62], [0x61, 0x304], 2, 1, 3, r)
    ensures r.At? && r.location == 0
  {
    var s, o := [0x61, 0x304, 0x62], [0x61, 0x304];
    BackwardLeavesStartIff(t, false, s, o, 2, 1, 3, r);
    BackwardOutcome(t, false, s, o, 2, 1, 3, r);
    hide NormalForm, MatchEnd, MatchesAt, Rightmost;
    assert SeqStart(t, s, 1) == 0;
    ExampleMatches(t);
  }
}
