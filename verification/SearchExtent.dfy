/** Where a match that the composed search reports lies, and what text it covers: when it stays
    inside the range, when inside the string, and when it is the text that was looked for. */
module SearchExtent {
  import opened UnicodeTables
  import opened Decomposition
  import opened SkippedHeads
  import opened CanonicalOrder
  import opened GSeq
  import opened NormalForms
  import opened StringCompare
  import opened StringSearch
  import opened BackwardSearch

  // ---------- the end of a match ----------

  /** Where a walk over whole sequences from `q` first comes to `end` or beyond. */
  function Landing(t: Unicode, s: seq<Unichar>, q: nat, end: nat): (r: nat)
    requires end <= |s|
    ensures r >= end && r >= q
    decreases end - q
  {
    if q >= end then q else Landing(t, s, q + SeqLength(t, s, q), end)
  }

  lemma {:induction false} LandingIs(t: Unicode, s: seq<Unichar>, q: nat, end: nat)
    requires end <= |s|
    ensures Landing(t, s, q, end) == q + TotalLength(Sequences(t, s, q, end))
    decreases end - q
  {
    hide SeqLength, SeqAt;
    if q < end {
      LandingIs(t, s, q + SeqLength(t, s, q), end);
      SequencesTail(t, s, q, end);
    }
  }

  lemma {:induction false} WalkInside(t: Unicode, s: seq<Unichar>, q: nat, end: nat, n: nat)
    requires end <= |s| && n < |Sequences(t, s, q, end)|
    ensures q + TotalLength(Sequences(t, s, q, end)[..n]) < end
    decreases n
  {
    hide SeqLength, SeqAt;
    if n > 0 {
      SequencesTail(t, s, q, end);
      FirstOfPrefix(Sequences(t, s, q, end), n);
      WalkInside(t, s, q + SeqLength(t, s, q), end, n - 1);
    }
  }

  /** From a boundary the walk lands on a boundary, and on `end` itself exactly if it is one. */
  lemma {:induction false} LandingAligned(t: Unicode, s: seq<Unichar>, q: nat, end: nat)
    requires q <= end <= |s| && Boundary(t, s, q)
    ensures var l := Landing(t, s, q, end);
            l <= |s| && Boundary(t, s, l) && (l == end <==> Boundary(t, s, end))
    decreases end - q
  {
    if q < end {
      NextBoundary(t, s, q);
      SequencesPartition(t, s, q);
      StartOfMark(t, s, q, q);
      var n := q + SeqLength(t, s, q);
      if n <= end {
        LandingAligned(t, s, n, end);
      }
    }
  }

  /** The match at `p` takes every sequence up to the end of the range. */
  predicate TakesAll(t: Unicode, s: seq<Unichar>, o: seq<Unichar>, p: nat, rangeEnd: nat)
    requires rangeEnd <= |s|
  {
    |Sequences(t, s, p, rangeEnd)| == |Sequences(t, o, 0, |o|)|
  }

  lemma NoSequences(t: Unicode, s: seq<Unichar>, q: nat, end: nat)
    requires q >= end && end <= |s|
    ensures Sequences(t, s, q, end) == []
  {
  }

  /** A match either ends before the end of the range or where the walk from it lands. */
  lemma MatchEndIs(t: Unicode, caseless: bool, s: seq<Unichar>, o: seq<Unichar>, p: nat, rangeEnd: nat)
    requires o != [] && rangeEnd <= |s| && MatchesAt(t, caseless, s, o, p, rangeEnd)
    ensures var e := MatchEnd(t, s, o, p, rangeEnd);
            && e > p
            && (p < rangeEnd && !TakesAll(t, s, o, p, rangeEnd) ==> e < rangeEnd)
            && (p < rangeEnd && TakesAll(t, s, o, p, rangeEnd) ==> e == Landing(t, s, p, rangeEnd))
            && (p >= rangeEnd ==> e == p + SeqLength(t, s, p))
  {
    hide Key, FirstKey, SeqLength, SeqAt, Sequences;
    var q, j := p + SeqLength(t, s, p), SeqLength(t, o, 0);
    var a, b := Sequences(t, s, q, rangeEnd), Sequences(t, o, j, |o|);
    SequencesTail(t, o, 0, |o|);
    if p < rangeEnd {
      SequencesTail(t, s, p, rangeEnd);
      if |b| < |a| {
        WalkInside(t, s, q, rangeEnd, |b|);
      } else {
        assert a[..|b|] == a;
        LandingIs(t, s, p, rangeEnd);
      }
    } else {
      NoSequences(t, s, q, rangeEnd);
    }
  }

  /** A match runs past the end of the range: it begins there, or takes the sequence in which
      the range ends. */
  predicate Overruns(t: Unicode, s: seq<Unichar>, o: seq<Unichar>, p: nat, rangeEnd: nat)
    requires rangeEnd <= |s|
  {
    p >= rangeEnd || (TakesAll(t, s, o, p, rangeEnd) && Landing(t, s, p, rangeEnd) > rangeEnd)
  }

  lemma InStringOf(t: Unicode, caseless: bool, s: seq<Unichar>, o: seq<Unichar>, p: nat, rangeEnd: nat)
    requires o != [] && rangeEnd <= |s| && MatchesAt(t, caseless, s, o, p, rangeEnd)
    ensures p < |s|
  {
  }

  lemma {:induction false} WalkAligned(t: Unicode, s: seq<Unichar>, q: nat, end: nat, n: nat)
    requires end <= |s| && q <= |s| && Boundary(t, s, q) && n <= |Sequences(t, s, q, end)|
    ensures var e := q + TotalLength(Sequences(t, s, q, end)[..n]);
            e <= |s| && Boundary(t, s, e)
    decreases n
  {
    hide SeqLength, SeqAt, Boundary;
    if n > 0 {
      SequencesTail(t, s, q, end);
      FirstOfPrefix(Sequences(t, s, q, end), n);
      NextBoundary(t, s, q);
      WalkAligned(t, s, q + SeqLength(t, s, q), end, n - 1);
    }
  }

  lemma MatchEndAligned(t: Unicode, caseless: bool, s: seq<Unichar>, o: seq<Unichar>, p: nat, rangeEnd: nat)
    requires o != [] && rangeEnd <= |s| && MatchesAt(t, caseless, s, o, p, rangeEnd) && Boundary(t, s, p)
    ensures var e := MatchEnd(t, s, o, p, rangeEnd);
            e <= |s| && Boundary(t, s, e)
  {
    hide Key, FirstKey, SeqLength, SeqAt, Sequences, Boundary;
    var q := p + SeqLength(t, s, p);
    var a, b := Sequences(t, s, q, rangeEnd), Sequences(t, o, SeqLength(t, o, 0), |o|);
    NextBoundary(t, s, p);
    WalkAligned(t, s, q, rangeEnd, |b|);
  }

  /** Whether a match runs past the end of the range, and past the end of the string; from a
      boundary it never does the latter, and the former only if the range ends inside a sequence. */
  lemma MatchEndIff(t: Unicode, caseless: bool, s: seq<Unichar>, o: seq<Unichar>, p: nat, rangeEnd: nat)
    requires o != [] && rangeEnd <= |s| && MatchesAt(t, caseless, s, o, p, rangeEnd)
    ensures var e := MatchEnd(t, s, o, p, rangeEnd);
            && (e > rangeEnd <==> Overruns(t, s, o, p, rangeEnd))
            && (Boundary(t, s, p) ==> e <= |s| && Boundary(t, s, e))
            && (Boundary(t, s, p) && p < rangeEnd ==>
                  (e > rangeEnd <==> TakesAll(t, s, o, p, rangeEnd) && !Boundary(t, s, rangeEnd)))
  {
    MatchEndIs(t, caseless, s, o, p, rangeEnd);
    InStringOf(t, caseless, s, o, p, rangeEnd);
    if Boundary(t, s, p) {
      MatchEndAligned(t, caseless, s, o, p, rangeEnd);
      if p < rangeEnd {
        LandingAligned(t, s, p, rangeEnd);
      }
    }
  }

  // ---------- the text of a match ----------

  lemma {:induction false} FullOfInsert(t: Unicode, u: Unichar, s: seq<Unichar>)
    ensures |Full(t, Insert(t, u, s))| == FinalUnits(t, u) + |Full(t, s)|
  {
    hide Full, FinalUnits, OutOfOrder;
    var r := Insert(t, u, s);
    FullOfHead(t, r);
    if s == [] || t.Class(u) == 0 || !OutOfOrder(t, u, s[0]) {
      assert r[1..] == s;
    } else {
      assert r[1..] == Insert(t, u, s[1..]);
      FullOfInsert(t, u, s[1..]);
      FullOfHead(t, s);
    }
  }

  lemma {:induction false} FullOfReorder(t: Unicode, s: seq<Unichar>)
    ensures |Full(t, Reorder(t, s))| == |Full(t, s)|
  {
    hide Insert, FinalUnits;
    if s != [] {
      FullOfReorder(t, s[1..]);
      FullOfInsert(t, s[0], Reorder(t, s[1..]));
      FullOfHead(t, s);
    }
  }

  /** A normal form stands for as many final units as the string, and the counted NUL. */
  lemma FullOfNormalForm(t: Unicode, s: seq<Unichar>)
    requires NulOnlyFirst(s)
    ensures |Full(t, NormalForm(t, s))| == |Full(t, s)| + if Wide(s) then 1 else 0
  {
    hide Full, Reorder, Expand, FirstWide, NulAfter;
    if Wide(s) {
      var b := FirstWide(s);
      FirstWideFacts(s);
      NulAfterAll(s, b);
      FullOfReorder(t, Expanded(t, s));
      FullOfThree(t, s[..b], Expand(t, s[b..]), [0]);
      FullOfExpand(t, s[b..]);
      FullConcat(t, s[..b], s[b..]);
      FullOfFlat(t, [0]);
      assert s[b..|s|] == s[b..] && s == s[..b] + s[b..];
    }
  }

  /** Dropping units from the front or the back changes the normal form. */
  lemma PartDiffers(t: Unicode, u: seq<Unichar>, y: seq<Unichar>, z: seq<Unichar>)
    requires u != [] && NulOnlyFirst(u + y + z)
    ensures NormalForm(t, u + y + z) != NormalForm(t, y)
  {
    var x := u + y + z;
    hide Full, NormalForm, Wide;
    assert forall k | 0 <= k < |y| :: y[k] == x[|u| + k];
    FullOfNormalForm(t, x);
    FullOfNormalForm(t, y);
    FullOfThree(t, u, y, z);
    FullNotShorter(t, u);
    if NormalForm(t, x) == NormalForm(t, y) {
      if Wide(x) && !Wide(y) {
        MixedNormalFormsDiffer(t, x, y);
      } else if Wide(y) && !Wide(x) {
        MixedNormalFormsDiffer(t, y, x);
      }
    }
  }

  lemma SliceOfSlice(s: seq<Unichar>, p: nat, e: nat, i: nat, k: nat)
    requires p <= e <= |s| && i <= k <= e - p
    ensures s[p..e][i..k] == s[p + i..p + k]
  {
    var w := s[p..e];
    assert forall j | 0 <= j < e - p :: w[j] == s[p + j];
    assert forall j | 0 <= j < k - i :: w[i..k][j] == w[i + j];
  }

  lemma {:induction false} MarksOfSlice(t: Unicode, s: seq<Unichar>, p: nat, e: nat, k: nat)
    requires 0 < k && p + k <= e <= |s| && Boundary(t, s, e)
    ensures SkipMarks(t, s, p + k) == p + SkipMarks(t, s[p..e], k)
    decreases e - k
  {
    if p + k < e && s[p + k] in t.nonBase {
      MarksOfSlice(t, s, p, e, k + 1);
    }
  }

  lemma SequenceOfSlice(t: Unicode, s: seq<Unichar>, p: nat, e: nat, i: nat)
    requires p + i < e <= |s| && Boundary(t, s, p) && Boundary(t, s, e) && Boundary(t, s, p + i)
    ensures SeqAt(t, s[p..e], i) == SeqAt(t, s, p + i) && p + i + SeqLength(t, s, p + i) <= e
  {
    var w := s[p..e];
    StartOfMark(t, s, p + i, p + i);
    StartOfMark(t, w, i, i);
    MarksOfSlice(t, s, p, e, i + 1);
    var k := SkipMarks(t, w, i + 1);
    SliceOfSlice(s, p, e, i, k);
  }

  /** The sequences of a slice between boundaries are those of the string. */
  lemma {:induction false} SequencesOfSlice(t: Unicode, s: seq<Unichar>, p: nat, e: nat, i: nat)
    requires p + i <= e <= |s| && Boundary(t, s, p) && Boundary(t, s, e) && Boundary(t, s, p + i)
    ensures Sequences(t, s[p..e], i, e - p) == Sequences(t, s, p + i, e)
    decreases e - p - i
  {
    hide Boundary, SeqAt, SeqLength;
    var w := s[p..e];
    if p + i < e {
      SequenceOfSlice(t, s, p, e, i);
      NextBoundary(t, s, p + i);
      SequencesTail(t, w, i, e - p);
      SequencesTail(t, s, p + i, e);
      SequencesOfSlice(t, s, p, e, i + SeqLength(t, w, i));
    }
  }

  lemma SliceParts(s: seq<Unichar>, a: nat, p: nat, q: nat, b: nat)
    requires a <= p <= q <= b <= |s|
    ensures s[a..b] == s[a..p] + s[p..q] + s[q..b]
  {
  }

  /** From inside a sequence, the first sequence of a slice ends no later than that sequence. */
  lemma PartEnds(t: Unicode, s: seq<Unichar>, p: nat, e: nat)
    requires p < e <= |s| && !Boundary(t, s, p)
    ensures SeqStart(t, s[p..e], 0) == 0
    ensures SeqStart(t, s, p) < p && p + SeqEnd(t, s[p..e], 0) <= SeqEnd(t, s, p)
  {
    var w := s[p..e];
    var a, m := SeqStart(t, s, p), SeqEnd(t, w, 0);
    StartIsBoundary(t, s, p);
    MarksSkipped(t, w, 1);
    forall j | a + 1 <= j < p + m ensures s[j] in t.nonBase {
      if j > p {
        assert w[j - p] == s[j];
      }
    }
    if p + m > a + 1 {
      MarksUpTo(t, s, a + 1, p + m - 1);
    }
  }

  /** From inside a sequence, a slice begins with a proper part of that sequence. */
  lemma PartOfSequence(t: Unicode, s: seq<Unichar>, p: nat, e: nat)
    returns (u: seq<Unichar>, z: seq<Unichar>)
    requires p < e <= |s| && !Boundary(t, s, p)
    ensures u != [] && SeqAt(t, s, p) == u + SeqAt(t, s[p..e], 0) + z
  {
    hide SeqStart, SeqEnd;
    var a, b, m := SeqStart(t, s, p), SeqEnd(t, s, p), SeqEnd(t, s[p..e], 0);
    PartEnds(t, s, p, e);
    u, z := s[a..p], s[p + m..b];
    SliceParts(s, a, p, p + m, b);
    SliceOfSlice(s, p, e, 0, m);
  }

  /** The found text, as a string of its own, compares Same with the target. */
  predicate IsText(t: Unicode, w: seq<Unichar>, o: seq<Unichar>) {
    LexSequences(t, false, Sequences(t, w, 0, |w|), Sequences(t, o, 0, |o|)) == Same
  }

  lemma HeadsDiffer(t: Unicode, a: seq<seq<Unichar>>, b: seq<seq<Unichar>>)
    requires a != [] && b != [] && NormalForm(t, a[0]) != NormalForm(t, b[0])
    ensures LexSequences(t, false, a, b) != Same
  {
    LexSameIff(NormalForm(t, a[0]), NormalForm(t, b[0]));
  }

  lemma AlignedText(t: Unicode, s: seq<Unichar>, o: seq<Unichar>, p: nat, rangeEnd: nat, e: nat)
    requires o != [] && rangeEnd <= |s| && Boundary(t, s, p)
    requires MatchesAt(t, false, s, o, p, rangeEnd) && e == MatchEnd(t, s, o, p, rangeEnd) && e <= |s|
    ensures p <= e && IsText(t, s[p..e], o)
  {
    hide MatchesAt, MatchEnd, Sequences, LexSequences, SeqAt, SeqLength;
    FoundComparesSame(t, s, o, p, rangeEnd, e);
    MatchEndAligned(t, false, s, o, p, rangeEnd);
    SequencesOfSlice(t, s, p, e, 0);
  }

  lemma UnalignedText(t: Unicode, s: seq<Unichar>, o: seq<Unichar>, p: nat, e: nat)
    requires o != [] && p < e <= |s| && !Boundary(t, s, p)
    requires FirstKey(t, false, SeqAt(t, s, p)) == FirstKey(t, false, SeqAt(t, o, 0))
    ensures !IsText(t, s[p..e], o)
  {
    var w := s[p..e];
    var u, z := PartOfSequence(t, s, p, e);
    NulStartsSequence(t, false, s, p);
    PartDiffers(t, u, SeqAt(t, w, 0), z);
    hide Sequences, NormalForm, SeqAt, Boundary;
    SequencesTail(t, w, 0, |w|);
    SequencesTail(t, o, 0, |o|);
    HeadsDiffer(t, Sequences(t, w, 0, |w|), Sequences(t, o, 0, |o|));
  }

  lemma FirstMatches(t: Unicode, s: seq<Unichar>, o: seq<Unichar>, p: nat, rangeEnd: nat)
    requires o != [] && rangeEnd <= |s| && MatchesAt(t, false, s, o, p, rangeEnd)
    ensures p < |s| && FirstKey(t, false, SeqAt(t, s, p)) == FirstKey(t, false, SeqAt(t, o, 0))
  {
  }

  /** What the case-sensitive search finds is the text that was looked for exactly if it begins
      at a boundary. */
  lemma FoundTextIff(t: Unicode, s: seq<Unichar>, o: seq<Unichar>, p: nat, rangeEnd: nat, e: nat)
    requires o != [] && rangeEnd <= |s|
    requires MatchesAt(t, false, s, o, p, rangeEnd) && e == MatchEnd(t, s, o, p, rangeEnd) && e <= |s|
    ensures p < e && (IsText(t, s[p..e], o) <==> Boundary(t, s, p))
  {
    MatchEndIs(t, false, s, o, p, rangeEnd);
    hide MatchesAt, MatchEnd, IsText, Boundary, FirstKey;
    if Boundary(t, s, p) {
      AlignedText(t, s, o, p, rangeEnd, e);
    } else {
      FirstMatches(t, s, o, p, rangeEnd);
      UnalignedText(t, s, o, p, e);
    }
  }

  // ---------- when a search stays inside its range and finds what it looks for ----------

  /** What a caller expects of a range that is reported: it lies in the range searched and is the
      text looked for. */
  predicate Sound(t: Unicode, s: seq<Unichar>, o: seq<Unichar>, location: nat, rangeEnd: nat, p: nat, e: nat) {
    location <= p <= e <= rangeEnd <= |s| && IsText(t, s[p..e], o)
  }

  /** Exactly when a reported match is sound: it begins at a boundary inside the range, and the
      range ends at a boundary or there is a whole sequence to spare. */
  lemma SoundIff(t: Unicode, s: seq<Unichar>, o: seq<Unichar>, location: nat, p: nat, rangeEnd: nat, e: nat)
    requires o != [] && rangeEnd <= |s|
    requires MatchesAt(t, false, s, o, p, rangeEnd) && e == MatchEnd(t, s, o, p, rangeEnd)
    ensures Sound(t, s, o, location, rangeEnd, p, e) <==>
              && location <= p < rangeEnd && Boundary(t, s, p)
              && (Boundary(t, s, rangeEnd) || !TakesAll(t, s, o, p, rangeEnd))
  {
    MatchEndIff(t, false, s, o, p, rangeEnd);
    MatchEndIs(t, false, s, o, p, rangeEnd);
    hide MatchesAt, MatchEnd, IsText, Boundary, TakesAll, Landing;
    if e <= rangeEnd {
      FoundTextIff(t, s, o, p, rangeEnd, e);
    }
  }

  /** Forward from a boundary: the match runs past the end of the range exactly if the first
      boundary that matches is one from which the match takes the sequence in which the range
      ends, or is the end of the range. */
  lemma ForwardOverrunsIff(t: Unicode, caseless: bool, s: seq<Unichar>, o: seq<Unichar>,
                           from: nat, last: nat, rangeEnd: nat, r: Found)
    requires o != [] && from <= last <= rangeEnd <= |s| && Boundary(t, s, from)
    requires Leftmost(t, caseless, s, o, from, last, rangeEnd, r)
    ensures r.At? && r.location + r.length > rangeEnd <==>
              exists p | from <= p <= last && Boundary(t, s, p) ::
                && MatchesAt(t, caseless, s, o, p, rangeEnd)
                && (forall q | from <= q < p && Boundary(t, s, q) :: !MatchesAt(t, caseless, s, o, q, rangeEnd))
                && (p == rangeEnd || (TakesAll(t, s, o, p, rangeEnd) && !Boundary(t, s, rangeEnd)))
  {
    hide MatchesAt, MatchEnd, Boundary, TakesAll, Landing, Leftmost, OnPath;
    ForwardOutcome(t, caseless, s, o, from, last, rangeEnd, r);
    if r.At? {
      MatchEndIff(t, caseless, s, o, r.location, rangeEnd);
    }
  }

  /** Exactly when a forward search is sound, wherever it begins. */
  lemma ForwardSoundIff(t: Unicode, s: seq<Unichar>, o: seq<Unichar>, from: nat, last: nat, rangeEnd: nat, r: Found)
    requires o != [] && from <= last <= rangeEnd <= |s|
    requires Leftmost(t, false, s, o, from, last, rangeEnd, r) && r.At?
    ensures Sound(t, s, o, from, rangeEnd, r.location, r.location + r.length) <==>
              && Boundary(t, s, r.location) && r.location < rangeEnd
              && (Boundary(t, s, rangeEnd) || !TakesAll(t, s, o, r.location, rangeEnd))
  {
    hide MatchesAt, MatchEnd, Boundary, TakesAll, Sound, Leftmost, OnPath;
    ForwardOutcomeAnywhere(t, false, s, o, from, last, rangeEnd, r);
    SoundIff(t, s, o, from, r.location, rangeEnd, r.location + r.length);
  }

  /** Where a match fails to be sound: it begins inside a sequence or outside the range, or takes
      the sequence in which the range ends. */
  predicate Astray(t: Unicode, s: seq<Unichar>, o: seq<Unichar>, location: nat, rangeEnd: nat, p: nat)
    requires rangeEnd <= |s|
  {
    p < location || p >= rangeEnd || !Boundary(t, s, p)
    || (TakesAll(t, s, o, p, rangeEnd) && !Boundary(t, s, rangeEnd))
  }

  /** A forward search, wherever it begins, goes wrong exactly if the first match on its way is
      one that does. */
  lemma ForwardUnsoundIff(t: Unicode, s: seq<Unichar>, o: seq<Unichar>, from: nat, last: nat, rangeEnd: nat, r: Found)
    requires o != [] && from <= last <= rangeEnd <= |s|
    requires Leftmost(t, false, s, o, from, last, rangeEnd, r)
    ensures r.At? && !Sound(t, s, o, from, rangeEnd, r.location, r.location + r.length) <==>
              exists p: nat | p <= last && OnPath(t, s, from, p) ::
                && MatchesAt(t, false, s, o, p, rangeEnd) && Astray(t, s, o, from, rangeEnd, p)
                && forall q: nat | q < p && OnPath(t, s, from, q) :: !MatchesAt(t, false, s, o, q, rangeEnd)
  {
    hide MatchesAt, MatchEnd, Boundary, TakesAll, Sound, Leftmost, OnPath;
    ForwardOutcomeAnywhere(t, false, s, o, from, last, rangeEnd, r);
    if r.At? {
      ForwardSoundIff(t, s, o, from, last, rangeEnd, r);
    }
  }

  /** Between two boundaries, a forward search for a target with a base unit is always sound. */
  lemma ForwardSound(t: Unicode, s: seq<Unichar>, o: seq<Unichar>, from: nat, last: nat, rangeEnd: nat, r: Found)
    requires o != [] && from <= last < rangeEnd <= |s| && Boundary(t, s, from) && Boundary(t, s, rangeEnd)
    requires Leftmost(t, false, s, o, from, last, rangeEnd, r)
    ensures r.At? ==> Sound(t, s, o, from, rangeEnd, r.location, r.location + r.length)
  {
    hide MatchesAt, MatchEnd, Boundary, TakesAll, Sound, Leftmost, OnPath;
    ForwardOutcome(t, false, s, o, from, last, rangeEnd, r);
    if r.At? {
      SoundIff(t, s, o, from, r.location, rangeEnd, r.location + r.length);
    }
  }

  lemma PathBegins(t: Unicode, s: seq<Unichar>, from: nat)
    ensures OnPath(t, s, from, from)
  {
  }

  /** A forward search that begins inside a sequence which matches reports a range that is not
      the text looked for, whatever the string. */
  lemma ForwardFromInside(t: Unicode, s: seq<Unichar>, o: seq<Unichar>, from: nat, last: nat, rangeEnd: nat, r: Found)
    requires o != [] && from <= last <= rangeEnd <= |s| && !Boundary(t, s, from)
    requires Leftmost(t, false, s, o, from, last, rangeEnd, r) && MatchesAt(t, false, s, o, from, rangeEnd)
    ensures r.At? && r.location == from && !Sound(t, s, o, from, rangeEnd, from, from + r.length)
  {
    hide MatchesAt, MatchEnd, Boundary, TakesAll, Sound, Leftmost, OnPath;
    ForwardOutcomeAnywhere(t, false, s, o, from, last, rangeEnd, r);
    PathBegins(t, s, from);
    if r.At? {
      PathForward(t, s, from, r.location);
      SoundIff(t, s, o, from, r.location, rangeEnd, r.location + r.length);
    }
  }

  /** Backward: the match runs past the end of the range exactly if the last tested position that
      matches is one from which it does. */
  lemma BackwardOverrunsIff(t: Unicode, caseless: bool, s: seq<Unichar>, o: seq<Unichar>,
                            from: nat, last: nat, rangeEnd: nat, r: Found)
    requires o != [] && last <= from <= rangeEnd <= |s|
    requires Rightmost(t, caseless, s, o, from, last, rangeEnd, r)
    ensures r.At? && r.location + r.length > rangeEnd <==>
              from < |s| && exists p: nat | Tested(t, s, from, last, p) ::
                && MatchesAt(t, caseless, s, o, p, rangeEnd) && Overruns(t, s, o, p, rangeEnd)
                && forall q: nat | q > p && Tested(t, s, from, last, q) :: !MatchesAt(t, caseless, s, o, q, rangeEnd)
  {
    hide MatchesAt, MatchEnd, Boundary, Tested, Overruns, Rightmost;
    BackwardOutcome(t, caseless, s, o, from, last, rangeEnd, r);
    if r.At? {
      MatchEndIff(t, caseless, s, o, r.location, rangeEnd);
    }
  }

  /** Exactly when a backward search is sound: its beginning is a boundary or does not match, the
      match lies in the range, and the range ends at a boundary or there is a sequence to spare. */
  lemma BackwardSoundIff(t: Unicode, s: seq<Unichar>, o: seq<Unichar>, from: nat, last: nat, rangeEnd: nat, r: Found)
    requires o != [] && last <= from <= rangeEnd <= |s|
    requires Rightmost(t, false, s, o, from, last, rangeEnd, r) && r.At?
    ensures Sound(t, s, o, last, rangeEnd, r.location, r.location + r.length) <==>
              && (Boundary(t, s, from) || !MatchesAt(t, false, s, o, from, rangeEnd))
              && last <= r.location < rangeEnd
              && (Boundary(t, s, rangeEnd) || !TakesAll(t, s, o, r.location, rangeEnd))
  {
    hide MatchesAt, MatchEnd, Boundary, TakesAll, Sound, Rightmost, Tested;
    BackwardOutcome(t, false, s, o, from, last, rangeEnd, r);
    BackwardUnalignedIff(t, false, s, o, from, last, rangeEnd, r);
    SoundIff(t, s, o, last, r.location, rangeEnd, r.location + r.length);
  }

  /** A backward search goes wrong exactly if the last tested match is one that does. */
  lemma BackwardUnsoundIff(t: Unicode, s: seq<Unichar>, o: seq<Unichar>, from: nat, last: nat, rangeEnd: nat, r: Found)
    requires o != [] && last <= from <= rangeEnd <= |s|
    requires Rightmost(t, false, s, o, from, last, rangeEnd, r)
    ensures r.At? && !Sound(t, s, o, last, rangeEnd, r.location, r.location + r.length) <==>
              from < |s| && exists p: nat | Tested(t, s, from, last, p) ::
                && MatchesAt(t, false, s, o, p, rangeEnd) && Astray(t, s, o, last, rangeEnd, p)
                && forall q: nat | q > p && Tested(t, s, from, last, q) :: !MatchesAt(t, false, s, o, q, rangeEnd)
  {
    hide MatchesAt, MatchEnd, Boundary, TakesAll, Sound, Rightmost, Tested;
    BackwardOutcome(t, false, s, o, from, last, rangeEnd, r);
    if r.At? {
      SoundIff(t, s, o, last, r.location, rangeEnd, r.location + r.length);
    }
  }

  lemma TestedAtMost(t: Unicode, s: seq<Unichar>, from: nat, last: nat, q: nat)
    requires last < |s| && Tested(t, s, from, last, q)
    ensures q <= from
  {
  }

  /** Between boundaries, and from one, a backward search is always sound. */
  lemma BackwardSound(t: Unicode, s: seq<Unichar>, o: seq<Unichar>, from: nat, last: nat, rangeEnd: nat, r: Found)
    requires o != [] && last <= from < rangeEnd <= |s|
    requires Boundary(t, s, from) && Boundary(t, s, last) && Boundary(t, s, rangeEnd)
    requires Rightmost(t, false, s, o, from, last, rangeEnd, r)
    ensures r.At? ==> Sound(t, s, o, last, rangeEnd, r.location, r.location + r.length)
  {
    hide MatchesAt, MatchEnd, Boundary, TakesAll, Sound, Rightmost, Tested;
    BackwardLeavesStartIff(t, false, s, o, from, last, rangeEnd, r);
    if r.At? {
      BackwardOutcome(t, false, s, o, from, last, rangeEnd, r);
      TestedAtMost(t, s, from, last, r.location);
      BackwardSoundIff(t, s, o, from, last, rangeEnd, r);
    }
  }

  lemma OneBase(t: Unicode, s: seq<Unichar>, q: nat)
    requires q < |s| && s[q] !in t.nonBase
    ensures BaseLength(t, SeqAt(t, s, q)) == 1
  {
    var o := SeqAt(t, s, q);
    MarksSkipped(t, s, q + 1);
    assert forall k | 0 < k < |o| :: o[k] == s[q + k];
    assert forall k | 0 <= k < |o| - 1 :: o[1..][k] == o[k + 1];
    BaseLengthZeroIff(t, o[1..]);
  }

  /** A target of one sequence matches wherever that sequence is read. */
  lemma LoneMatch(t: Unicode, s: seq<Unichar>, o: seq<Unichar>, p: nat, rangeEnd: nat)
    requires o != [] && SeqAt(t, o, 0) == o && SeqLength(t, o, 0) == |o| && Sequences(t, o, |o|, |o|) == []
    requires p < |s| && rangeEnd <= |s| && SeqAt(t, s, p) == o && SeqLength(t, s, p) == |o|
    ensures MatchesAt(t, false, s, o, p, rangeEnd) && MatchEnd(t, s, o, p, rangeEnd) == p + |o|
  {
    hide SeqAt, SeqLength, Sequences, Key, FirstKey;
  }

  lemma SameSequence(t: Unicode, s: seq<Unichar>, q: nat, k: nat)
    requires Boundary(t, s, q) && q <= k < |s| && k < q + SeqLength(t, s, q)
    ensures SeqAt(t, s, k) == SeqAt(t, s, q) && SeqLength(t, s, k) == SeqLength(t, s, q)
  {
    SequencesPartition(t, s, q);
    StartOfMark(t, s, q, q);
  }

  /** A sequence taken for itself is one sequence. */
  lemma WholeTarget(t: Unicode, s: seq<Unichar>, q: nat)
    requires q < |s| && Boundary(t, s, q)
    ensures var o := SeqAt(t, s, q);
            SeqAt(t, o, 0) == o && SeqLength(t, o, 0) == |o| && Sequences(t, o, |o|, |o|) == []
  {
    NextBoundary(t, s, q);
    StartOfMark(t, s, q, q);
    SequenceOfSlice(t, s, q, SeqEnd(t, s, q), 0);
  }

  lemma MatchesAtLastMark(t: Unicode, s: seq<Unichar>, q: nat)
    requires q < |s| && Boundary(t, s, q) && q + SeqLength(t, s, q) <= |s|
    ensures var o, rangeEnd := SeqAt(t, s, q), q + SeqLength(t, s, q);
            && MatchesAt(t, false, s, o, rangeEnd - 1, rangeEnd)
            && MatchEnd(t, s, o, rangeEnd - 1, rangeEnd) == rangeEnd - 1 + |o|
  {
    hide SeqAt, SeqLength, Sequences, Boundary, MatchesAt, MatchEnd;
    var o, rangeEnd := SeqAt(t, s, q), q + SeqLength(t, s, q);
    SameSequence(t, s, q, rangeEnd - 1);
    WholeTarget(t, s, q);
    LoneMatch(t, s, o, rangeEnd - 1, rangeEnd);
  }

  lemma BackwardHere(t: Unicode, s: seq<Unichar>, o: seq<Unichar>, from: nat, last: nat, rangeEnd: nat, r: Found)
    requires o != [] && from < rangeEnd <= |s| && MatchesAt(t, false, s, o, from, rangeEnd)
    requires Rightmost(t, false, s, o, from, last, rangeEnd, r)
    ensures r.At? && r.location == from && from + r.length == MatchEnd(t, s, o, from, rangeEnd)
  {
    hide MatchesAt, MatchEnd;
    assert OnPathBack(t, s, from, last, from);
    if r.At? {
      PathBackOrder(t, s, from, last, r.location);
    }
  }

  /** Looking backwards for one base unit with marks that stands at the end of the range always
      goes wrong: the search begins at its last mark, matches there, and reports a range that
      runs past the end. */
  lemma MarkedAtRangeEnd(t: Unicode, s: seq<Unichar>, q: nat, last: nat, r: Found)
    requires q < |s| && s[q] !in t.nonBase && SeqLength(t, s, q) > 1
    requires var o, rangeEnd := SeqAt(t, s, q), q + SeqLength(t, s, q);
             && rangeEnd <= |s| && last < rangeEnd
             && Rightmost(t, false, s, o, rangeEnd - BaseLength(t, o), last, rangeEnd, r)
    ensures BaseLength(t, SeqAt(t, s, q)) == 1
    ensures r == At(q + SeqLength(t, s, q) - 1, SeqLength(t, s, q))
  {
    hide MatchesAt, MatchEnd, SeqAt, SeqLength, BaseLength, Rightmost;
    var o, rangeEnd := SeqAt(t, s, q), q + SeqLength(t, s, q);
    OneBase(t, s, q);
    MatchesAtLastMark(t, s, q);
    BackwardHere(t, s, o, rangeEnd - 1, last, rangeEnd, r);
  }

  // ---------- examples: "a", "b" and "x" are bases, U+0304 is a mark ----------

  ghost predicate Letters(t: Unicode) {
    0x304 in t.nonBase && 0x61 !in t.nonBase && 0x62 !in t.nonBase && 0x78 !in t.nonBase
  }

  /** A base and a mark are one sequence. */
  lemma OneSequence(t: Unicode, u: Unichar)
    requires 0x304 in t.nonBase && u !in t.nonBase
    ensures var o := [u, 0x304];
            SeqAt(t, o, 0) == o && SeqLength(t, o, 0) == 2 && Sequences(t, o, 2, 2) == []
  {
    assert SkipMarks(t, [u, 0x304], 2) == 2;
  }

  lemma MatchAtOne(t: Unicode)
    requires Letters(t)
    ensures var s, o := [0x61, 0x62, 0x304], [0x62, 0x304];
            !MatchesAt(t, false, s, o, 0, 2) && MatchesAt(t, false, s, o, 1, 2) && MatchEnd(t, s, o, 1, 2) == 3
  {
    var s, o := [0x61, 0x62, 0x304], [0x62, 0x304];
    hide Key, NormalForm;
    MixedNormalFormsDiffer(t, o, [0x61]);
    OneSequence(t, 0x62);
    assert SeqStart(t, s, 0) == 0 && SkipMarks(t, s, 1) == 1 && SeqAt(t, s, 0) == [0x61];
    assert SeqStart(t, s, 1) == 1 && SkipMarks(t, s, 3) == 3 && SeqAt(t, s, 1) == o;
  }

  /** Forward: "b", U+0304 is found in the first two units of "a", "b", U+0304, at index 1 with
      length 2, which ends past the range. */
  lemma PastTheRange(t: Unicode, r: Found)
    requires Letters(t) && Leftmost(t, false, [0x61, 0x62, 0x304], [0x62, 0x304], 0, 1, 2, r)
    ensures r == At(1, 2)
  {
    hide Leftmost, MatchesAt, MatchEnd;
    var s := [0x61, 0x62, 0x304];
    ForwardOutcome(t, false, s, [0x62, 0x304], 0, 1, 2, r);
    MatchAtOne(t);
    assert Boundary(t, s, 1);
  }

  lemma SequenceAtOne(t: Unicode)
    requires Letters(t)
    ensures var s := [0x78, 0x61, 0x304];
            SeqAt(t, s, 1) == [0x61, 0x304] && SeqLength(t, s, 1) == 2 && BaseLength(t, SeqAt(t, s, 1)) == 1
  {
    var s := [0x78, 0x61, 0x304];
    OneBase(t, s, 1);
    hide BaseLength;
    assert SeqStart(t, s, 1) == 1 && SkipMarks(t, s, 3) == 3;
  }

  /** Backward: "a", U+0304 is found in the whole of "x", "a", U+0304, at index 2 with length 2,
      which ends past the string. */
  lemma PastTheString(t: Unicode, r: Found)
    requires Letters(t) && Rightmost(t, false, [0x78, 0x61, 0x304], [0x61, 0x304], 2, 0, 3, r)
    ensures r == At(2, 2)
  {
    hide Rightmost;
    var s := [0x78, 0x61, 0x304];
    SequenceAtOne(t);
    hide SeqAt, SeqLength;
    MarkedAtRangeEnd(t, s, 1, 0, r);
  }

  lemma MatchInside(t: Unicode)
    requires Letters(t)
    ensures var s, o := [0x61, 0x304, 0x62], [0x61, 0x304];
            MatchesAt(t, false, s, o, 1, 3) && MatchEnd(t, s, o, 1, 3) == 3
  {
    var s, o := [0x61, 0x304, 0x62], [0x61, 0x304];
    hide Key, NormalForm;
    OneSequence(t, 0x61);
    assert SeqStart(t, s, 1) == 0 && SkipMarks(t, s, 2) == 2 && SeqAt(t, s, 1) == o;
  }

  /** Forward from inside a sequence: "a", U+0304 is found in the last two units of "a", U+0304,
      "b", at index 1 with length 2, which is U+0304, "b". */
  lemma WrongText(t: Unicode, r: Found)
    requires Letters(t) && Leftmost(t, false, [0x61, 0x304, 0x62], [0x61, 0x304], 1, 2, 3, r)
    ensures r == At(1, 2) && !IsText(t, [0x304, 0x62], [0x61, 0x304])
  {
    hide Leftmost, MatchesAt, MatchEnd, IsText, OnPath;
    var s, o := [0x61, 0x304, 0x62], [0x61, 0x304];
    MatchInside(t);
    ForwardFromInside(t, s, o, 1, 2, 3, r);
    ForwardOutcomeAnywhere(t, false, s, o, 1, 2, 3, r);
    assert s[1..3] == [0x304, 0x62];
  }
}
