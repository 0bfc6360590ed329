/** Searching a range of one string for another (GSEQ_STRRANGE): the literal modes in both
    directions, what a composed match is, and the composed modes forward. */
module StringSearch {
  import opened UnicodeTables
  import opened Decomposition
  import opened GSeq
  import opened SkippedHeads
  import opened NormalForms
  import opened StringCompare

  /** `RangeError` is the NSRangeException of rangeOfComposedCharacterSequenceAtIndex:. */
  datatype Found = NotFound | At(location: nat, length: nat) | RangeError

  // ---------- literal search ----------

  predicate UnitsMatch(t: Unicode, caseless: bool, a: Unichar, b: Unichar) {
    a == b || (caseless && t.ToLower(a) == t.ToLower(b))
  }

  predicate OccursAt(t: Unicode, caseless: bool, s: seq<Unichar>, o: seq<Unichar>, p: nat) {
    p + |o| <= |s| && forall k | 0 <= k < |o| :: UnitsMatch(t, caseless, s[p + k], o[k])
  }

  lemma UnitsMatchIff(t: Unicode, caseless: bool, a: Unichar, b: Unichar)
    ensures UnitsMatch(t, caseless, a, b) <==> Fold(t, caseless, a) == Fold(t, caseless, b)
  {
  }

  /** The literal search looks for what the literal comparison calls the same. */
  lemma OccursIff(t: Unicode, caseless: bool, s: seq<Unichar>, o: seq<Unichar>, p: nat)
    requires p + |o| <= |s|
    ensures OccursAt(t, caseless, s, o, p) <==>
            Lex(Folded(t, caseless, s[p..p + |o|]), Folded(t, caseless, o)) == Same
  {
    var a, b := Folded(t, caseless, s[p..p + |o|]), Folded(t, caseless, o);
    LexSameIff(a, b);
    forall k | 0 <= k < |o| ensures UnitsMatch(t, caseless, s[p + k], o[k]) <==> a[k] == b[k] {
      UnitsMatchIff(t, caseless, s[p + k], o[k]);
    }
  }

  /** The inner loop at one position.  Its test against the end of the range cannot stop it,
      because the target fits into the range from here. */
  method MatchLiteral(t: Unicode, caseless: bool, s: seq<Unichar>, o: seq<Unichar>, myIndex: nat, rangeEnd: nat)
    returns (found: bool)
    requires o != [] && myIndex + |o| <= rangeEnd <= |s|
    ensures found <==> OccursAt(t, caseless, s, o, myIndex)
  {
    var i := 1;
    var myCharacter, strCharacter := s[myIndex], o[0];
    while true
      invariant 1 <= i <= |o| && myCharacter == s[myIndex + i - 1] && strCharacter == o[i - 1]
      invariant forall k | 0 <= k < i - 1 :: UnitsMatch(t, caseless, s[myIndex + k], o[k])
      decreases |o| - i
    {
      if !UnitsMatch(t, caseless, myCharacter, strCharacter) {
        return false;
      }
      if i == |o| {
        return true;
      }
      myCharacter := s[myIndex + i];
      strCharacter := o[i];
      i := i + 1;
    }
  }

  /** The leftmost occurrence in the range; if anchored, only one at its very start. */
  method FindLiteralForward(t: Unicode, caseless: bool, anchored: bool,
                            s: seq<Unichar>, o: seq<Unichar>, location: nat, length: nat) returns (r: Found)
    requires location + length <= |s|
    ensures r.At? ==> && r.length == |o| != 0
                      && location <= r.location && r.location + |o| <= location + length
                      && OccursAt(t, caseless, s, o, r.location)
                      && (anchored ==> r.location == location)
                      && forall p | location <= p < r.location :: !OccursAt(t, caseless, s, o, p)
    ensures !r.At? ==> && r == NotFound
                       && (o == [] || forall p | location <= p && p + |o| <= location + length
                                                 && (anchored ==> p == location) ::
                                        !OccursAt(t, caseless, s, o, p))
  {
    var rangeEnd := location + length;
    if |o| > length || |o| == 0 {
      return NotFound;
    }
    var myIndex, myEndIndex := location, rangeEnd - |o|;
    if anchored {
      myEndIndex := myIndex;
    }
    while true
      invariant location <= myIndex <= myEndIndex && (anchored ==> myIndex == location)
      invariant forall p | location <= p < myIndex :: !OccursAt(t, caseless, s, o, p)
      decreases myEndIndex - myIndex
    {
      var found := MatchLiteral(t, caseless, s, o, myIndex, rangeEnd);
      if found {
        return At(myIndex, |o|);
      }
      if myIndex == myEndIndex {
        break;
      }
      myIndex := myIndex + 1;
    }
    return NotFound;
  }

  /** The rightmost occurrence in the range; if anchored, only one at its very end. */
  method FindLiteralBackward(t: Unicode, caseless: bool, anchored: bool,
                             s: seq<Unichar>, o: seq<Unichar>, location: nat, length: nat) returns (r: Found)
    requires location + length <= |s|
    ensures r.At? ==> && r.length == |o| != 0
                      && location <= r.location && r.location + |o| <= location + length
                      && OccursAt(t, caseless, s, o, r.location)
                      && (anchored ==> r.location + |o| == location + length)
                      && forall p | r.location < p && p + |o| <= location + length :: !OccursAt(t, caseless, s, o, p)
    ensures !r.At? ==> && r == NotFound
                       && (o == [] || forall p | location <= p && p + |o| <= location + length
                                                 && (anchored ==> p + |o| == location + length) ::
                                        !OccursAt(t, caseless, s, o, p))
  {
    var rangeEnd := location + length;
    if |o| > length || |o| == 0 {
      return NotFound;
    }
    var myIndex, myEndIndex := rangeEnd - |o|, location;
    if anchored {
      myEndIndex := myIndex;
    }
    while true
      invariant location <= myEndIndex <= myIndex <= rangeEnd - |o|
      invariant anchored ==> myIndex == rangeEnd - |o|
      invariant forall p | myIndex < p <= rangeEnd - |o| :: !OccursAt(t, caseless, s, o, p)
      decreases myIndex
    {
      var found := MatchLiteral(t, caseless, s, o, myIndex, rangeEnd);
      if found {
        return At(myIndex, |o|);
      }
      if myIndex == myEndIndex {
        break;
      }
      myIndex := myIndex - 1;
    }
    return NotFound;
  }

  // ---------- composed search: what is a match ----------

  /** What the first comparison reads from a sequence. */
  function FirstRead(t: Unicode, caseless: bool, c: seq<Unichar>): seq<Unichar> {
    if caseless then Lower(t, c) else c
  }

  /** The first sequences are lowered before they are normalised, later ones after. */
  function FirstKey(t: Unicode, caseless: bool, c: seq<Unichar>): seq<Unichar> {
    NormalForm(t, FirstRead(t, caseless, c))
  }

  /** The sequences `b` match the first |b| of `a`. */
  ghost predicate RestMatches(t: Unicode, caseless: bool, a: seq<seq<Unichar>>, b: seq<seq<Unichar>>) {
    |b| <= |a| && forall i | 0 <= i < |b| :: Key(t, caseless, a[i]) == Key(t, caseless, b[i])
  }

  /** The sequence of `s` at `p` matches the first of `o`, and the next ones, each starting
      before `rangeEnd`, match the rest of `o`. */
  ghost predicate MatchesAt(t: Unicode, caseless: bool, s: seq<Unichar>, o: seq<Unichar>, p: nat, rangeEnd: nat)
    requires o != [] && rangeEnd <= |s|
  {
    && p < |s|
    && FirstKey(t, caseless, SeqAt(t, s, p)) == FirstKey(t, caseless, SeqAt(t, o, 0))
    && RestMatches(t, caseless, Sequences(t, s, p + SeqLength(t, s, p), rangeEnd),
                                Sequences(t, o, SeqLength(t, o, 0), |o|))
  }

  function TotalLength(a: seq<seq<Unichar>>): nat {
    if a == [] then 0 else |a[0]| + TotalLength(a[1..])
  }

  /** Where a match from `p` ends. */
  ghost function MatchEnd(t: Unicode, s: seq<Unichar>, o: seq<Unichar>, p: nat, rangeEnd: nat): nat
    requires o != [] && rangeEnd <= |s| && p < |s|
  {
    var a, b := Sequences(t, s, p + SeqLength(t, s, p), rangeEnd), Sequences(t, o, SeqLength(t, o, 0), |o|);
    p + SeqLength(t, s, p) + TotalLength(if |b| <= |a| then a[..|b|] else a)
  }

  /** _baseLength: the number of base units. */
  function BaseLength(t: Unicode, o: seq<Unichar>): (n: nat)
    ensures n <= |o|
  {
    if o == [] then 0 else (if o[0] in t.nonBase then 0 else 1) + BaseLength(t, o[1..])
  }

  method CountBase(t: Unicode, o: seq<Unichar>) returns (blen: nat)
    ensures blen == BaseLength(t, o)
  {
    blen := 0;
    assert o[0..] == o;
    for count := 0 to |o|
      invariant blen + BaseLength(t, o[count..]) == BaseLength(t, o)
    {
      assert o[count..][1..] == o[count + 1..];
      if o[count] !in t.nonBase {
        blen := blen + 1;
      }
    }
  }

  /** The positions that the forward loop visits from `from`. */
  predicate OnPath(t: Unicode, s: seq<Unichar>, from: nat, q: nat)
    decreases |s| - from
  {
    q == from || (from < q && from < |s| && OnPath(t, s, from + SeqLength(t, s, from), q))
  }

  lemma RestMatchesStep(t: Unicode, caseless: bool, a: seq<seq<Unichar>>, b: seq<seq<Unichar>>)
    requires a != [] && b != []
    ensures RestMatches(t, caseless, a, b) <==>
            Key(t, caseless, a[0]) == Key(t, caseless, b[0]) && RestMatches(t, caseless, a[1..], b[1..])
  {
    assert forall i | 0 < i < |a| :: a[i] == a[1..][i - 1];
    assert forall i | 0 < i < |b| :: b[i] == b[1..][i - 1];
    assert forall i | 0 <= i < |a[1..]| :: a[1..][i] == a[i + 1];
    assert forall i | 0 <= i < |b[1..]| :: b[1..][i] == b[i + 1];
  }

  /** The sequences of `s` from `p` and of `o` from `j` match iff `goal`, then ending at `stop`. */
  ghost predicate StillMatching(t: Unicode, caseless: bool, s: seq<Unichar>, p: nat, rangeEnd: nat,
                                o: seq<Unichar>, j: nat, goal: bool, stop: nat)
    requires rangeEnd <= |s|
  {
    var a, b := Sequences(t, s, p, rangeEnd), Sequences(t, o, j, |o|);
    && RestMatches(t, caseless, a, b) == goal
    && (goal ==> p + TotalLength(a[..|b|]) == stop)
  }

  lemma MatchStep(t: Unicode, caseless: bool, s: seq<Unichar>, p: nat, rangeEnd: nat,
                  o: seq<Unichar>, j: nat, goal: bool, stop: nat, p': nat, j': nat)
    requires p < rangeEnd <= |s| && j < |o| && StillMatching(t, caseless, s, p, rangeEnd, o, j, goal, stop)
    requires p' == p + SeqLength(t, s, p) && j' == j + SeqLength(t, o, j)
    ensures Key(t, caseless, SeqAt(t, s, p)) != Key(t, caseless, SeqAt(t, o, j)) ==> !goal
    ensures Key(t, caseless, SeqAt(t, s, p)) == Key(t, caseless, SeqAt(t, o, j)) ==>
            StillMatching(t, caseless, s, p', rangeEnd, o, j', goal, stop)
  {
    hide Key, Sequences, SeqAt, SeqLength;
    var a, b := Sequences(t, s, p, rangeEnd), Sequences(t, o, j, |o|);
    SequencesTail(t, s, p, rangeEnd);
    SequencesTail(t, o, j, |o|);
    RestMatchesStep(t, caseless, a, b);
    if goal {
      assert a[..|b|][1..] == a[1..][..|b| - 1];
    }
  }

  lemma MatchStops(t: Unicode, caseless: bool, s: seq<Unichar>, p: nat, rangeEnd: nat,
                   o: seq<Unichar>, j: nat, goal: bool, stop: nat)
    requires rangeEnd <= |s| && StillMatching(t, caseless, s, p, rangeEnd, o, j, goal, stop)
    requires p >= rangeEnd || j >= |o|
    ensures goal <==> j >= |o|
    ensures goal ==> p == stop
  {
  }

  /** One turn of the inner loop. */
  method MatchNext(t: Unicode, caseless: bool, s: seq<Unichar>, p: nat, ghost rangeEnd: nat,
                   o: seq<Unichar>, j: nat, ghost goal: bool, ghost stop: nat)
    returns (same: bool, p': nat, j': nat)
    requires Bounded(t) && p < rangeEnd <= |s| && j < |o|
    requires StillMatching(t, caseless, s, p, rangeEnd, o, j, goal, stop)
    ensures !same ==> !goal
    ensures same ==> p < p' && StillMatching(t, caseless, s, p', rangeEnd, o, j', goal, stop)
  {
    var r, sLength, oLength := CompareAt(t, caseless, s, p, o, j);
    LexSameIff(Key(t, caseless, SeqAt(t, s, p)), Key(t, caseless, SeqAt(t, o, j)));
    same, p', j' := r == Same, p + sLength, j + oLength;
    MatchStep(t, caseless, s, p, rangeEnd, o, j, goal, stop, p', j');
  }

  /** The inner loop: whether the sequences behind the first ones match, and up to where. */
  method MatchRest(t: Unicode, caseless: bool, s: seq<Unichar>, first: nat, rangeEnd: nat,
                   o: seq<Unichar>, firstO: nat, ghost goal: bool, ghost stop: nat)
    returns (found: bool, p: nat)
    requires Bounded(t) && rangeEnd <= |s|
    requires StillMatching(t, caseless, s, first, rangeEnd, o, firstO, goal, stop)
    ensures found <==> goal
    ensures found ==> p == stop
  {
    p := first;
    var strCount: nat := firstO;
    if strCount >= |o| {
      MatchStops(t, caseless, s, p, rangeEnd, o, strCount, goal, stop);
      return true, p;
    }
    while p < rangeEnd
      invariant strCount < |o| && StillMatching(t, caseless, s, p, rangeEnd, o, strCount, goal, stop)
      decreases rangeEnd - p
    {
      found, p, strCount := MatchNext(t, caseless, s, p, rangeEnd, o, strCount, goal, stop);
      if !found {
        return;
      }
      if strCount >= |o| {
        MatchStops(t, caseless, s, p, rangeEnd, o, strCount, goal, stop);
        return;
      }
    }
    MatchStops(t, caseless, s, p, rangeEnd, o, strCount, goal, stop);
    found := false;
  }

  // ---------- composed search forward ----------

  lemma PathForward(t: Unicode, s: seq<Unichar>, from: nat, q: nat)
    requires OnPath(t, s, from, q)
    ensures from <= q
  {
  }

  lemma {:induction false} PathNext(t: Unicode, s: seq<Unichar>, from: nat, m: nat, q: nat)
    requires OnPath(t, s, from, m) && OnPath(t, s, from, q) && m < q && m < |s|
    ensures OnPath(t, s, m + SeqLength(t, s, m), q) && m + SeqLength(t, s, m) <= q
    decreases |s| - from
  {
    if m != from {
      PathNext(t, s, from + SeqLength(t, s, from), m, q);
    } else {
      PathForward(t, s, from + SeqLength(t, s, from), q);
    }
  }

  lemma {:induction false} PathExtends(t: Unicode, s: seq<Unichar>, from: nat, m: nat)
    requires OnPath(t, s, from, m) && m < |s|
    ensures OnPath(t, s, from, m + SeqLength(t, s, m))
    decreases |s| - from
  {
    if m != from {
      PathExtends(t, s, from + SeqLength(t, s, from), m);
      PathForward(t, s, from + SeqLength(t, s, from), m);
    }
  }

  /** No position of the path before `m` matches. */
  ghost predicate NoneBefore(t: Unicode, caseless: bool, s: seq<Unichar>, o: seq<Unichar>,
                             from: nat, m: nat, rangeEnd: nat)
    requires o != [] && rangeEnd <= |s|
  {
    && OnPath(t, s, from, m)
    && forall q: nat | q < m && OnPath(t, s, from, q) :: !MatchesAt(t, caseless, s, o, q, rangeEnd)
  }

  lemma NoneBeforeNext(t: Unicode, caseless: bool, s: seq<Unichar>, o: seq<Unichar>,
                       from: nat, m: nat, rangeEnd: nat, m': nat)
    requires o != [] && rangeEnd <= |s| && m < |s|
    requires NoneBefore(t, caseless, s, o, from, m, rangeEnd)
    requires !MatchesAt(t, caseless, s, o, m, rangeEnd) && m' == m + SeqLength(t, s, m)
    ensures NoneBefore(t, caseless, s, o, from, m', rangeEnd)
  {
    hide MatchesAt, SeqLength;
    PathExtends(t, s, from, m);
    forall q: nat | q < m' && OnPath(t, s, from, q) ensures !MatchesAt(t, caseless, s, o, q, rangeEnd) {
      if q > m {
        PathNext(t, s, from, m, q);
      }
    }
  }

  /** The buffer of the first target sequence: as it was read, or normalised by a comparison. */
  ghost predicate Holds(t: Unicode, b: GSeqStruct, x: seq<Unichar>)
    reads b, b.chars
  {
    && b.Valid() && b.Room(t) && x != []
    && b.Contents() == if b.normalized then NormalForm(t, x) else x
  }

  method ReadFirst(t: Unicode, caseless: bool, c: seq<Unichar>) returns (b: GSeqStruct)
    requires Bounded(t) && c != []
    ensures fresh(b) && fresh(b.chars) && !b.normalized && Holds(t, b, FirstRead(t, caseless, c))
  {
    b := new GSeqStruct(c);
    if caseless {
      b.Lowercase(t);
    }
    MakeHasRoom(t, FirstRead(t, caseless, c));
  }

  /** Behind the first unit of a sequence there are only marks, and NUL is not a mark. */
  lemma NulStartsSequence(t: Unicode, caseless: bool, s: seq<Unichar>, i: nat)
    requires i < |s|
    ensures NulOnlyFirst(FirstRead(t, caseless, SeqAt(t, s, i)))
  {
    var c := SeqAt(t, s, i);
    MarksSkipped(t, s, SeqStart(t, s, i) + 1);
    assert forall k | 0 <= k < |c| :: c[k] == s[SeqStart(t, s, i) + k];
    assert forall k | 0 < k < |c| :: c[k] in t.nonBase && t.ToLower(c[k]) != 0;
  }

  method CompareFirst(t: Unicode, caseless: bool, iSeq: GSeqStruct, ghost x: seq<Unichar>, c: seq<Unichar>)
    returns (same: bool)
    requires Bounded(t) && Holds(t, iSeq, x) && NulOnlyFirst(x) && c != [] && NulOnlyFirst(FirstRead(t, caseless, c))
    modifies iSeq, iSeq.chars
    ensures Holds(t, iSeq, x)
    ensures same <==> NormalForm(t, x) == FirstKey(t, caseless, c)
  {
    var sSeq := ReadFirst(t, caseless, c);
    ghost var y := FirstRead(t, caseless, c);
    VerdictIgnoresHistory(t, x, y);
    ComparisonIsTotalPreorder(t, x, y, y);
    var r := Compare(t, iSeq, sSeq);
    same := r == Same;
  }

  /** One turn of the outer loop: test position `m`. */
  method TryAt(t: Unicode, caseless: bool, s: seq<Unichar>, o: seq<Unichar>, m: nat, rangeEnd: nat,
               iSeq: GSeqStruct, iLength: nat)
    returns (found: bool, end: nat, next: nat)
    requires Bounded(t) && o != [] && m < |s| && rangeEnd <= |s|
    requires Holds(t, iSeq, FirstRead(t, caseless, SeqAt(t, o, 0))) && iLength == SeqLength(t, o, 0)
    modifies iSeq, iSeq.chars
    ensures Holds(t, iSeq, FirstRead(t, caseless, SeqAt(t, o, 0)))
    ensures found <==> MatchesAt(t, caseless, s, o, m, rangeEnd)
    ensures found ==> end == MatchEnd(t, s, o, m, rangeEnd)
    ensures next == m + SeqLength(t, s, m)
  {
    hide NormalForm, Sequences, FirstRead, SeqStart, SeqEnd;
    var sStart, sLength := RangeOfSequence(t, s, m);
    NulStartsSequence(t, caseless, s, m);
    NulStartsSequence(t, caseless, o, 0);
    found := CompareFirst(t, caseless, iSeq, FirstRead(t, caseless, SeqAt(t, o, 0)), s[sStart..sStart + sLength]);
    next, end := m + sLength, m + sLength;
    if found {
      ghost var goal, stop := MatchesAt(t, caseless, s, o, m, rangeEnd), MatchEnd(t, s, o, m, rangeEnd);
      found, end := MatchRest(t, caseless, s, next, rangeEnd, o, iLength, goal, stop);
    }
  }

  /** The last position that the forward loop may test. */
  function LastStart(t: Unicode, anchored: bool, o: seq<Unichar>, location: nat, length: nat): int {
    if anchored then location else location + length - BaseLength(t, o)
  }

  /** The outcome of the outer loop over the positions from `from` up to `last`. */
  ghost predicate Leftmost(t: Unicode, caseless: bool, s: seq<Unichar>, o: seq<Unichar>,
                           from: nat, last: int, rangeEnd: nat, r: Found)
    requires o != [] && rangeEnd <= |s|
  {
    match r
    case At(p, n) =>
      && p <= last
      && MatchesAt(t, caseless, s, o, p, rangeEnd) && NoneBefore(t, caseless, s, o, from, p, rangeEnd)
      && p + n == MatchEnd(t, s, o, p, rangeEnd)
    case NotFound => exists m: nat | m > last :: NoneBefore(t, caseless, s, o, from, m, rangeEnd)
    case RangeError => |s| <= last && NoneBefore(t, caseless, s, o, from, |s|, rangeEnd)
  }

  method SearchForward(t: Unicode, caseless: bool, s: seq<Unichar>, o: seq<Unichar>,
                       from: nat, last: nat, rangeEnd: nat, iSeq: GSeqStruct, iLength: nat) returns (r: Found)
    requires Bounded(t) && o != [] && from <= last <= rangeEnd <= |s|
    requires Holds(t, iSeq, FirstRead(t, caseless, SeqAt(t, o, 0))) && iLength == SeqLength(t, o, 0)
    modifies iSeq, iSeq.chars
    ensures Leftmost(t, caseless, s, o, from, last, rangeEnd, r)
  {
    var myIndex: nat := from;
    while true
      invariant Holds(t, iSeq, FirstRead(t, caseless, SeqAt(t, o, 0)))
      invariant myIndex <= last && NoneBefore(t, caseless, s, o, from, myIndex, rangeEnd)
      decreases last - myIndex
    {
      if myIndex >= |s| {
        return RangeError;
      }
      var found, end, next := TryAt(t, caseless, s, o, myIndex, rangeEnd, iSeq, iLength);
      if found {
        return At(myIndex, end - myIndex);
      }
      NoneBeforeNext(t, caseless, s, o, from, myIndex, rangeEnd, next);
      myIndex := next;
      if myIndex > last {
        return NotFound;
      }
    }
  }

  /** What a forward call reports.  A target longer than the range is not looked for. */
  ghost predicate ForwardResult(t: Unicode, caseless: bool, anchored: bool,
                                s: seq<Unichar>, o: seq<Unichar>, location: nat, length: nat, r: Found)
    requires location + length <= |s|
  {
    if o == [] || |o| > length then r == NotFound
    else Leftmost(t, caseless, s, o, location, LastStart(t, anchored, o, location, length), location + length, r)
  }

  /** The leftmost match among the positions visited from `location`.  Running off the end of the
      string raises an exception. */
  method FindComposedForward(t: Unicode, caseless: bool, anchored: bool,
                             s: seq<Unichar>, o: seq<Unichar>, location: nat, length: nat) returns (r: Found)
    requires Bounded(t) && location + length <= |s|
    ensures ForwardResult(t, caseless, anchored, s, o, location, length, r)
  {
    hide Leftmost, SeqStart, SeqEnd, Holds;
    var rangeEnd := location + length;
    if |o| > length || |o| == 0 {
      return NotFound;
    }
    var strBaseLength := CountBase(t, o);
    var myEndIndex := rangeEnd - strBaseLength;
    if anchored {
      myEndIndex := location;
    }
    var iStart, iLength := RangeOfSequence(t, o, 0);
    var iSeq := ReadFirst(t, caseless, o[iStart..iStart + iLength]);
    r := SearchForward(t, caseless, s, o, location, myEndIndex, rangeEnd, iSeq, iLength);
  }

  // ---------- what the outcome means ----------

  /** From a boundary the visited positions are exactly the boundaries. */
  lemma {:induction false} PathIsBoundaries(t: Unicode, s: seq<Unichar>, from: nat, q: nat)
    requires Boundary(t, s, from) && from <= |s|
    ensures OnPath(t, s, from, q) <==> from <= q <= |s| && Boundary(t, s, q)
    decreases |s| - from
  {
    if from < |s| {
      SequencesPartition(t, s, from);
      StartOfMark(t, s, from, from);
      PathIsBoundaries(t, s, SeqEnd(t, s, from), q);
    }
  }

  lemma NoMatchAtEnd(t: Unicode, caseless: bool, s: seq<Unichar>, o: seq<Unichar>, rangeEnd: nat)
    requires o != [] && rangeEnd <= |s|
    ensures !MatchesAt(t, caseless, s, o, |s|, rangeEnd)
  {
  }

  /** A walk that comes to the end of the string goes no further. */
  lemma {:induction false} PathPastEnd(t: Unicode, s: seq<Unichar>, from: nat, m: nat)
    requires OnPath(t, s, from, |s|) && OnPath(t, s, from, m)
    ensures m <= |s|
    decreases |s| - from
  {
    hide SeqLength;
    if from < |s| && m != from {
      PathPastEnd(t, s, from + SeqLength(t, s, from), m);
    }
  }

  /** Wherever the search begins: the first visited position up to `last` that matches, with the
      extent of the match; none; or none, and the walk comes to `last` at the end of the string. */
  lemma ForwardOutcomeAnywhere(t: Unicode, caseless: bool, s: seq<Unichar>, o: seq<Unichar>,
                               from: nat, last: nat, rangeEnd: nat, r: Found)
    requires o != [] && from <= last <= rangeEnd <= |s|
    requires Leftmost(t, caseless, s, o, from, last, rangeEnd, r)
    ensures r.At? ==> && from <= r.location <= last && OnPath(t, s, from, r.location)
                      && MatchesAt(t, caseless, s, o, r.location, rangeEnd)
                      && r.location + r.length == MatchEnd(t, s, o, r.location, rangeEnd)
                      && forall q: nat | q < r.location && OnPath(t, s, from, q) ::
                           !MatchesAt(t, caseless, s, o, q, rangeEnd)
    ensures !r.At? <==> forall q: nat | q <= last && OnPath(t, s, from, q) :: !MatchesAt(t, caseless, s, o, q, rangeEnd)
    ensures r == RangeError <==> !r.At? && last == |s| && OnPath(t, s, from, |s|)
  {
    hide MatchesAt, MatchEnd, OnPath;
    forall q: nat | OnPath(t, s, from, q) ensures from <= q {
      PathForward(t, s, from, q);
    }
    if r == RangeError {
      NoMatchAtEnd(t, caseless, s, o, rangeEnd);
    } else if r == NotFound {
      var m: nat :| m > last && NoneBefore(t, caseless, s, o, from, m, rangeEnd);
      if last == |s| && OnPath(t, s, from, |s|) {
        PathPastEnd(t, s, from, m);
        assert false;
      }
    }
  }

  /** From a boundary, the three outcomes are exactly these: the leftmost boundary up to `last`
      that matches; no such boundary; or none, with `last` at the very end of the string,
      which happens only for a target without base units. */
  lemma ForwardOutcome(t: Unicode, caseless: bool, s: seq<Unichar>, o: seq<Unichar>,
                       from: nat, last: nat, rangeEnd: nat, r: Found)
    requires o != [] && from <= last <= rangeEnd <= |s| && Boundary(t, s, from)
    requires Leftmost(t, caseless, s, o, from, last, rangeEnd, r)
    ensures r.At? ==> && from <= r.location <= last && Boundary(t, s, r.location)
                      && MatchesAt(t, caseless, s, o, r.location, rangeEnd)
                      && r.location + r.length == MatchEnd(t, s, o, r.location, rangeEnd)
                      && forall q | from <= q < r.location && Boundary(t, s, q) ::
                           !MatchesAt(t, caseless, s, o, q, rangeEnd)
    ensures !r.At? <==> forall q | from <= q <= last && Boundary(t, s, q) :: !MatchesAt(t, caseless, s, o, q, rangeEnd)
    ensures r == RangeError <==> !r.At? && last == |s|
  {
    ForwardOutcomeAnywhere(t, caseless, s, o, from, last, rangeEnd, r);
    hide MatchesAt, MatchEnd, OnPath, Leftmost;
    forall q: nat ensures OnPath(t, s, from, q) <==> from <= q <= |s| && Boundary(t, s, q) {
      PathIsBoundaries(t, s, from, q);
    }
  }

  lemma {:induction false} BaseLengthZeroIff(t: Unicode, o: seq<Unichar>)
    ensures BaseLength(t, o) == 0 <==> forall i | 0 <= i < |o| :: o[i] in t.nonBase
  {
    if o != [] {
      BaseLengthZeroIff(t, o[1..]);
      assert forall i | 0 < i < |o| :: o[i] == o[1..][i - 1];
      assert forall i | 0 <= i < |o[1..]| :: o[1..][i] == o[i + 1];
    }
  }

  lemma LoneMarkDiffers()
    ensures var t := DiaeresisTable();
            FirstKey(t, false, [0x61]) != FirstKey(t, false, [0x304])
  {
    MixedNormalFormsDiffer(DiaeresisTable(), [0x304], [0x61]);
  }

  lemma WholeSequence(t: Unicode, u: Unichar)
    ensures SeqAt(t, [u], 0) == [u]
  {
  }

  /** Looking for a lone mark in a string that does not contain it fails with the exception. */
  lemma SearchRunsOffTheEnd(r: Found)
    requires Leftmost(DiaeresisTable(), false, [0x61], [0x304], 0, 1, 1, r)
    ensures r == RangeError
  {
    var t, s, o := DiaeresisTable(), [0x61], [0x304];
    ForwardOutcome(t, false, s, o, 0, 1, 1, r);
    LoneMarkDiffers();
    WholeSequence(t, 0x61);
    WholeSequence(t, 0x304);
  }

  lemma FirstOfPrefix(a: seq<seq<Unichar>>, n: nat)
    requires 0 < n <= |a|
    ensures TotalLength(a[..n]) == |a[0]| + TotalLength(a[1..][..n - 1])
    ensures a[..n] == [a[0]] + a[1..][..n - 1]
  {
    assert a[..n][1..] == a[1..][..n - 1];
  }

  /** A prefix of the sequences from a position is what lies between two positions. */
  lemma {:induction false} SequencesPrefix(t: Unicode, s: seq<Unichar>, q: nat, end: nat, n: nat, e: nat)
    requires end <= |s| && n <= |Sequences(t, s, q, end)|
    requires e == q + TotalLength(Sequences(t, s, q, end)[..n]) && e <= |s|
    ensures q <= e && Sequences(t, s, q, e) == Sequences(t, s, q, end)[..n]
    decreases n
  {
    hide SeqAt, SeqLength;
    var a := Sequences(t, s, q, end);
    if n > 0 {
      SequencesTail(t, s, q, end);
      FirstOfPrefix(a, n);
      SequencesPrefix(t, s, q + SeqLength(t, s, q), end, n - 1, e);
      SequencesTail(t, s, q, e);
    }
  }

  lemma NextBoundary(t: Unicode, s: seq<Unichar>, p: nat)
    requires p < |s| && Boundary(t, s, p)
    ensures Boundary(t, s, p + SeqLength(t, s, p)) && p + SeqLength(t, s, p) <= |s|
  {
    SequencesPartition(t, s, p);
    StartOfMark(t, s, p, p);
  }

  lemma SameHeadsIff(t: Unicode, caseless: bool, a: seq<seq<Unichar>>, b: seq<seq<Unichar>>)
    requires a != [] && b != []
    ensures LexSequences(t, caseless, a, b) == Same <==>
            Key(t, caseless, a[0]) == Key(t, caseless, b[0]) && LexSequences(t, caseless, a[1..], b[1..]) == Same
  {
    LexSameIff(Key(t, caseless, a[0]), Key(t, caseless, b[0]));
  }

  /** What a search finds, if it lies in the string at all, the comparison calls the same exactly
      if the first sequences have the same key: the search lowers them before it normalises
      them, the comparison afterwards. */
  lemma FoundComparesSameIff(t: Unicode, caseless: bool, s: seq<Unichar>, o: seq<Unichar>,
                             p: nat, rangeEnd: nat, e: nat)
    requires o != [] && rangeEnd <= |s|
    requires MatchesAt(t, caseless, s, o, p, rangeEnd) && e == MatchEnd(t, s, o, p, rangeEnd) && e <= |s|
    ensures p <= e
    ensures LexSequences(t, caseless, Sequences(t, s, p, e), Sequences(t, o, 0, |o|)) == Same <==>
            Key(t, caseless, SeqAt(t, s, p)) == Key(t, caseless, SeqAt(t, o, 0))
  {
    hide Key, Sequences, SeqAt, SeqLength, LexSequences, NormalForm, Boundary, FirstKey;
    var q, j := p + SeqLength(t, s, p), SeqLength(t, o, 0);
    var a, b := Sequences(t, s, q, rangeEnd), Sequences(t, o, j, |o|);
    SequencesPrefix(t, s, q, rangeEnd, |b|, e);
    SequencesTail(t, s, p, e);
    SequencesTail(t, o, 0, |o|);
    SameSequencesIff(t, caseless, a[..|b|], b);
    SameHeadsIff(t, caseless, Sequences(t, s, p, e), Sequences(t, o, 0, |o|));
  }

  /** In a case-sensitive search they always have. */
  lemma FoundComparesSame(t: Unicode, s: seq<Unichar>, o: seq<Unichar>, p: nat, rangeEnd: nat, e: nat)
    requires o != [] && rangeEnd <= |s|
    requires MatchesAt(t, false, s, o, p, rangeEnd) && e == MatchEnd(t, s, o, p, rangeEnd) && e <= |s|
    ensures p <= e && LexSequences(t, false, Sequences(t, s, p, e), Sequences(t, o, 0, |o|)) == Same
  {
    hide MatchEnd, LexSequences, Sequences, NormalForm;
    FoundComparesSameIff(t, false, s, o, p, rangeEnd, e);
  }
}
