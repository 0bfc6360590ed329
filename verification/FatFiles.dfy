/** markgc on fat files: what no run can change, which slices it accepts, and what becomes of
    a well-formed file. */
module FatFiles {
  import opened Bytes
  import opened MachO
  import opened MarkGC
  import opened MarkGCSquare
  import opened Wrappers

  // ---------- any file ----------

  ghost predicate SameUpTo(b: seq<Byte>, c: seq<Byte>, n: nat) {
    |b| == |c| && forall k | 0 <= k < n && k < |b| :: b[k] == c[k]
  }

  lemma {:induction false} CmdsFrame(a: Arch, b: seq<Byte>, cur: nat, n: nat)
    requires CmdsOk(a, b, cur, n)
    ensures SameUpTo(b, DoCmds(a, b, cur, n), cur)
    decreases n
  {
    hide DoCmd, Read32;
    if n > 0 {
      CmdFrame(a, b, cur);
      CmdsFrame(a, DoCmd(a, b, cur), cur + Read32(a.e, b, cur + 4), n - 1);
    }
  }

  /** Processing an image changes nothing before the image, and nothing of its header. */
  lemma MachoFrame(host: Endian, b: seq<Byte>, at: nat)
    requires MachoOk(host, b, at)
    ensures SameUpTo(b, DoMacho(host, b, at), at + 28)
  {
    hide CmdsOk, DoCmds, Read32;
    var arch := ArchAt(host, b, at);
    if arch.Some? {
      var a := arch.value;
      CmdsFrame(a, b, at + HeaderSize(a), Read32(a.e, b, at + NCMDS_AT));
    }
  }

  lemma SameRead(e: Endian, b: seq<Byte>, c: seq<Byte>, n: nat, at: nat)
    requires SameUpTo(b, c, n) && at + 4 <= n && at + 4 <= |b|
    ensures Read32(e, b, at) == Read32(e, c, at)
  {
    ReadOutside(e, b, c, at);
  }

  lemma SameEntry(b: seq<Byte>, c: seq<Byte>, base: nat, i: nat)
    requires SameUpTo(b, c, base + 28) && TableSize(i + 1) <= |b| && TableSize(i) <= base
    ensures SliceAt(b, i) == SliceAt(c, i) && SliceSize(b, i) == SliceSize(c, i)
  {
    hide Read32;
    SameRead(Big, b, c, base + 28, TableSize(i) + 8);
    SameRead(Big, b, c, base + 28, TableSize(i) + 12);
  }

  predicate AllFit(b: seq<Byte>, i: nat, n: nat, base: nat)
    requires TableSize(n) <= |b|
  {
    forall k | i <= k < n :: SliceFits(b, k, base)
  }

  /** Whatever the slices hold, the fat header and the table in front of `base` stay as they
      are, and so does a hidden entry at `base`.  The loop gets through only if every slice
      it was told of fits between the table and the end of the file. */
  lemma {:induction false} SlicesFrame(host: Endian, b: seq<Byte>, i: nat, n: nat, base: nat)
    requires TableSize(n) <= |b| && TableSize(n) <= base + 20 && SlicesOk(host, b, i, n, base)
    ensures SameUpTo(b, DoSlices(host, b, i, n, base).1, base + 28)
    ensures DoSlices(host, b, i, n, base).0 ==> AllFit(b, i, n, base)
    decreases n - i
  {
    hide CmdsOk, DoMacho, ArchAt, SliceAt, SliceSize;
    if i < n && SliceFits(b, i, base) && ArchAt(host, b, SliceAt(b, i)).Some? {
      var c := DoMacho(host, b, SliceAt(b, i));
      MachoFrame(host, b, SliceAt(b, i));
      SlicesFrame(host, c, i + 1, n, base);
      forall k | i < k < n ensures SliceFits(b, k, base) <==> SliceFits(c, k, base) {
        SameEntry(b, c, base, k);
      }
    }
  }

  /** For any fat file: the header, the table and what may be a hidden entry survive, hence a
      second run reads the same table; and success means that all slices fit. */
  lemma FatFrame(host: Endian, b: seq<Byte>)
    requires FileOk(host, b) && IsFat(host, b) && |b| >= 8
    ensures var ok, c := DoFile(host, b).0, DoFile(host, b).1;
            && SameUpTo(b, c, TableSize(Declared(b)) + 28)
            && IsFat(host, c) && Declared(c) == Declared(b) && Count(c) == Count(b)
            && (ok ==> TableSize(Count(b)) <= |b| && AllFit(b, 0, Count(b), TableSize(Declared(b))))
  {
    hide SlicesOk, DoSlices, Read32, AllFit;
    var base, c := TableSize(Declared(b)), DoFile(host, b).1;
    if |b| >= base {
      TableFits(b);
      SlicesFrame(host, b, 0, Count(b), base);
      SameRead(Big, b, c, base + 28, 4);
      SameRead(host, b, c, base + 28, 0);
      if |b| >= base + 20 {
        SameRead(Big, b, c, base + 28, base);
      }
    }
  }

  // ---------- a well-formed file ----------

  /** An image in a fat file, at the offset `at`. */
  datatype Slice = Slice(arch: Arch, image: Image, at: Word32) {
    predicate Valid() {
      image.Valid(arch) && |ImageBytes(arch, image)| < 0x1_0000_0000
    }

    function Bytes(): seq<Byte>
      requires Valid()
    {
      ImageBytes(arch, image)
    }

    function End(): nat
      requires Valid()
    {
      at + |Bytes()|
    }

    function Rewritten(): Slice {
      this.(image := Rewrite(image))
    }
  }

  lemma RewrittenKeeps(s: Slice)
    requires s.Valid()
    ensures var r := s.Rewritten();
            r.Valid() && |r.Bytes()| == |s.Bytes()| && r.Rewritten() == r
  {
    hide ImageBytes, Rewrite;
    RewriteKeeps(s.arch, s.image);
    RewriteIdempotent(s.image);
  }

  /** Entry `i` of a table of `n` describes `s`, which lies behind the table. */
  predicate Placed(b: seq<Byte>, n: nat, i: nat, s: Slice)
    requires TableSize(n) <= |b| && i < n
  {
    && s.Valid() && TableSize(n) <= s.at && s.End() <= |b|
    && SliceAt(b, i) == s.at && SliceSize(b, i) == |s.Bytes()|
    && b[s.at..s.End()] == s.Bytes()
  }

  predicate Apart(s: Slice, r: Slice)
    requires s.Valid() && r.Valid()
  {
    s.End() <= r.at || r.End() <= s.at
  }

  predicate Laid(b: seq<Byte>, ss: seq<Slice>) {
    && TableSize(|ss|) <= |b|
    && (forall i | 0 <= i < |ss| :: Placed(b, |ss|, i, ss[i]))
    && (forall i, j | 0 <= i < j < |ss| :: Apart(ss[i], ss[j]))
  }

  /** Neither in the table nor in a slice. */
  ghost predicate Outside(ss: seq<Slice>, k: nat) {
    forall i | 0 <= i < |ss| && ss[i].Valid() :: k < ss[i].at || ss[i].End() <= k
  }

  lemma SplitAround(b: seq<Byte>, i: nat, j: nat)
    requires i <= j <= |b|
    ensures b == b[..i] + b[i..j] + b[j..]
  {
  }

  /** Processing one slice replaces its bytes. */
  lemma SliceSquare(host: Endian, b: seq<Byte>, s: Slice)
    requires s.Valid() && s.End() <= |b| && b[s.at..s.End()] == s.Bytes()
    ensures MachoOk(host, b, s.at) && ArchAt(host, b, s.at).Some?
    ensures s.Rewritten().Valid() && |s.Rewritten().Bytes()| == |s.Bytes()|
    ensures DoMacho(host, b, s.at) == Splice(b, s.at, s.Rewritten().Bytes())
  {
    hide MachoOk, DoMacho, ArchAt, ImageBytes, Rewrite, Splice;
    RewrittenKeeps(s);
    SplitAround(b, s.at, s.End());
    ImageSquare(host, s.arch, s.image, b[..s.at], b[s.End()..]);
    SpliceMiddle(b[..s.at], s.Bytes(), s.Rewritten().Bytes(), b[s.End()..]);
  }

  /** A slice apart from the replaced one stays in place. */
  lemma PlacedApart(b: seq<Byte>, n: nat, j: nat, r: Slice, s: Slice, w: seq<Byte>)
    requires TableSize(n) <= |b| && j < n && Placed(b, n, j, r)
    requires s.Valid() && TableSize(n) <= s.at && s.End() <= |b| && |w| == |s.Bytes()| && Apart(r, s)
    ensures Placed(Splice(b, s.at, w), n, j, r)
  {
    hide Read32, ImageBytes, Splice;
    var c := Splice(b, s.at, w);
    SpliceSlice(b, s.at, w);
    SameRead(Big, b, c, s.at, TableSize(j) + 8);
    SameRead(Big, b, c, s.at, TableSize(j) + 12);
    assert c[r.at..r.End()] == b[r.at..r.End()];
  }

  lemma PlacedAgain(b: seq<Byte>, n: nat, i: nat, s: Slice)
    requires TableSize(n) <= |b| && i < n && Placed(b, n, i, s)
    requires s.Rewritten().Valid() && |s.Rewritten().Bytes()| == |s.Bytes()|
    ensures Placed(Splice(b, s.at, s.Rewritten().Bytes()), n, i, s.Rewritten())
  {
    hide Read32, ImageBytes, Rewrite, Splice;
    var w := s.Rewritten().Bytes();
    var c := Splice(b, s.at, w);
    SpliceSlice(b, s.at, w);
    SameRead(Big, b, c, s.at, TableSize(i) + 8);
    SameRead(Big, b, c, s.at, TableSize(i) + 12);
  }

  lemma PlacedMeans(b: seq<Byte>, n: nat, i: nat, s: Slice)
    requires TableSize(n) <= |b| && i < n && Placed(b, n, i, s)
    ensures s.Valid() && TableSize(n) <= s.at && s.End() <= |b|
    ensures SliceAt(b, i) == s.at && SliceSize(b, i) == |s.Bytes()|
    ensures b[s.at..s.End()] == s.Bytes()
  {
  }

  lemma SliceStep(host: Endian, b: seq<Byte>, ss: seq<Slice>, i: nat)
    requires Laid(b, ss) && i < |ss|
    ensures ss[i].Rewritten().Valid() && |ss[i].Rewritten().Bytes()| == |ss[i].Bytes()|
    ensures MachoOk(host, b, ss[i].at) && ArchAt(host, b, ss[i].at).Some?
    ensures var c := DoMacho(host, b, ss[i].at);
            && c == Splice(b, ss[i].at, ss[i].Rewritten().Bytes())
            && Laid(c, ss[i := ss[i].Rewritten()])
  {
    hide MachoOk, DoMacho, ArchAt, ImageBytes, Rewrite, SliceAt, SliceSize, Splice, Placed;
    var s, n := ss[i], |ss|;
    assert Placed(b, n, i, s);
    PlacedMeans(b, n, i, s);
    SliceSquare(host, b, s);
    PlacedAgain(b, n, i, s);
    var c, rr := Splice(b, s.at, s.Rewritten().Bytes()), ss[i := s.Rewritten()];
    forall j | 0 <= j < n ensures Placed(c, n, j, rr[j]) {
      if j != i {
        PlacedApart(b, n, j, ss[j], s, s.Rewritten().Bytes());
      }
    }
  }

  /** The slices from `i` on rewritten. */
  function RewriteFrom(ss: seq<Slice>, i: nat): (r: seq<Slice>)
    ensures |r| == |ss|
  {
    seq(|ss|, k requires 0 <= k < |ss| => if k >= i then ss[k].Rewritten() else ss[k])
  }

  lemma RewriteFromStep(ss: seq<Slice>, i: nat)
    requires i < |ss|
    ensures RewriteFrom(ss[i := ss[i].Rewritten()], i + 1) == RewriteFrom(ss, i)
  {
    hide Rewrite;
  }

  lemma OutsideStep(ss: seq<Slice>, i: nat, k: nat)
    requires i < |ss| && ss[i].Valid() && ss[i].Rewritten().Valid()
    requires |ss[i].Rewritten().Bytes()| == |ss[i].Bytes()| && Outside(ss, k)
    ensures Outside(ss[i := ss[i].Rewritten()], k)
  {
    hide ImageBytes, Rewrite;
    var rr := ss[i := ss[i].Rewritten()];
    forall j | 0 <= j < |rr| && rr[j].Valid() ensures k < rr[j].at || rr[j].End() <= k {
      assert ss[j].Valid();
    }
  }

  lemma LaidPlaced(b: seq<Byte>, ss: seq<Slice>, i: nat)
    requires Laid(b, ss) && i < |ss|
    ensures TableSize(|ss|) <= |b| && Placed(b, |ss|, i, ss[i])
  {
    hide Placed;
  }

  lemma OutsideSlice(ss: seq<Slice>, i: nat, k: nat)
    requires i < |ss| && ss[i].Valid() && Outside(ss, k)
    ensures k < ss[i].at || ss[i].End() <= k
  {
  }

  lemma RewriteFromEnd(ss: seq<Slice>, i: nat)
    requires i >= |ss|
    ensures RewriteFrom(ss, i) == ss
  {
  }

  lemma LaidFits(b: seq<Byte>, ss: seq<Slice>)
    requires Laid(b, ss)
    ensures TableSize(|ss|) <= |b|
  {
  }

  /** The loop gets through, rewrites every slice, and changes nothing else. */
  lemma {:induction false} SlicesSquare(host: Endian, b: seq<Byte>, ss: seq<Slice>, i: nat, base: nat)
    requires Laid(b, ss) && (ss == [] || base <= TableSize(|ss|))
    ensures SlicesOk(host, b, i, |ss|, base)
    ensures var r := DoSlices(host, b, i, |ss|, base);
            && r.0 && Laid(r.1, RewriteFrom(ss, i))
            && forall k | 0 <= k < |b| && Outside(ss, k) :: r.1[k] == b[k]
    decreases |ss| - i
  {
    hide MachoOk, DoMacho, ArchAt, ImageBytes, Rewrite, SliceAt, SliceSize, Placed, Splice, RewriteFrom, Outside, Laid;
    LaidFits(b, ss);
    if i < |ss| {
      var s, rr := ss[i], ss[i := ss[i].Rewritten()];
      LaidPlaced(b, ss, i);
      PlacedMeans(b, |ss|, i, s);
      SliceStep(host, b, ss, i);
      var c := DoMacho(host, b, s.at);
      SlicesSquare(host, c, rr, i + 1, base);
      RewriteFromStep(ss, i);
      SpliceSlice(b, s.at, s.Rewritten().Bytes());
      forall k | 0 <= k < |b| && Outside(ss, k) ensures Outside(rr, k) && c[k] == b[k] {
        OutsideStep(ss, i, k);
        OutsideSlice(ss, i, k);
      }
    } else {
      RewriteFromEnd(ss, i);
    }
  }

  /** A fat file whose table, with a hidden entry if there is one, describes `ss`. */
  predicate FatFile(host: Endian, b: seq<Byte>, ss: seq<Slice>) {
    && IsFat(host, b) && |b| >= 8 && Declared(b) < 0xFFFF_FFFF
    && |ss| == Count(b) && Laid(b, ss)
  }

  lemma FatOnce(host: Endian, b: seq<Byte>, ss: seq<Slice>)
    requires FatFile(host, b, ss)
    ensures FileOk(host, b)
    ensures var r := DoFile(host, b);
            && r.0 && FatFile(host, r.1, RewriteFrom(ss, 0))
            && forall k | 0 <= k < |b| && Outside(ss, k) :: r.1[k] == b[k]
  {
    hide SlicesOk, DoSlices, Laid, Outside, RewriteFrom, Read32;
    assert TableSize(|ss|) <= |b| by {
      LaidFits(b, ss);
    }
    SlicesSquare(host, b, ss, 0, TableSize(Declared(b)));
    FatFrame(host, b);
  }

  /** Rewriting all slices again is the identity. */
  lemma RewriteTwice(ss: seq<Slice>)
    requires forall i | 0 <= i < |ss| :: ss[i].Valid()
    ensures RewriteFrom(RewriteFrom(ss, 0), 0) == RewriteFrom(ss, 0)
  {
    hide Rewrite, ImageBytes;
    forall i | 0 <= i < |ss| ensures ss[i].Rewritten().Rewritten() == ss[i].Rewritten() {
      RewrittenKeeps(ss[i]);
    }
  }

  lemma ElementOfSlice(b: seq<Byte>, i: nat, j: nat, k: nat)
    requires i <= k < j <= |b|
    ensures b[i..j][k - i] == b[k]
  {
  }

  /** Two files with the same slices in place, equal outside them, are the same. */
  lemma LaidDetermines(b: seq<Byte>, c: seq<Byte>, ss: seq<Slice>)
    requires Laid(b, ss) && Laid(c, ss) && |b| == |c|
    requires forall k | 0 <= k < |b| && Outside(ss, k) :: b[k] == c[k]
    ensures b == c
  {
    hide ImageBytes, SliceAt, SliceSize, Placed;
    forall k | 0 <= k < |b| ensures b[k] == c[k] {
      if !Outside(ss, k) {
        var i :| 0 <= i < |ss| && ss[i].Valid() && ss[i].at <= k < ss[i].End();
        PlacedMeans(b, |ss|, i, ss[i]);
        PlacedMeans(c, |ss|, i, ss[i]);
        ElementOfSlice(b, ss[i].at, ss[i].End(), k);
        ElementOfSlice(c, ss[i].at, ss[i].End(), k);
      }
    }
  }

  /** Every slice of a well-formed fat file is rewritten, no byte outside the slices changes,
      and a second run changes nothing. */
  lemma FatSquare(host: Endian, b: seq<Byte>, ss: seq<Slice>)
    requires FatFile(host, b, ss)
    ensures FileOk(host, b) && FileOk(host, DoFile(host, b).1)
    ensures var r := DoFile(host, b);
            && r.0 && FatFile(host, r.1, RewriteFrom(ss, 0))
            && (forall k | 0 <= k < |b| && Outside(ss, k) :: r.1[k] == b[k])
            && DoFile(host, r.1) == r
  {
    hide SlicesOk, DoSlices, DoFile, FileOk, Outside, RewriteFrom, IsFat, Count, Declared, Placed;
    FatOnce(host, b, ss);
    var c, rr := DoFile(host, b).1, RewriteFrom(ss, 0);
    FatOnce(host, c, rr);
    forall i | 0 <= i < |ss| ensures ss[i].Valid() {
      PlacedMeans(b, |ss|, i, ss[i]);
    }
    RewriteTwice(ss);
    LaidDetermines(DoFile(host, c).1, c, rr);
  }

  lemma FatFileLaid(host: Endian, b: seq<Byte>, ss: seq<Slice>)
    requires FatFile(host, b, ss)
    ensures Laid(b, ss)
  {
  }

  lemma SliceOf(ss: seq<Slice>, k: nat) returns (i: nat)
    requires !Outside(ss, k)
    ensures i < |ss| && ss[i].Valid() && ss[i].at <= k < ss[i].End()
  {
    hide ImageBytes;
    i :| 0 <= i < |ss| && ss[i].Valid() && ss[i].at <= k < ss[i].End();
  }

  lemma LaidMeans(b: seq<Byte>, ss: seq<Slice>, i: nat)
    requires Laid(b, ss) && i < |ss|
    ensures ss[i].Valid() && TableSize(|ss|) <= ss[i].at && ss[i].End() <= |b|
    ensures b[ss[i].at..ss[i].End()] == ss[i].Bytes()
  {
    hide ImageBytes, SliceAt, SliceSize;
  }

  lemma RewrittenStays(s: Slice)
    requires s.Valid()
    ensures s.Rewritten().Valid() && s.Rewritten().at == s.at && s.Rewritten().End() == s.End()
  {
    hide ImageBytes, Rewrite;
    RewrittenKeeps(s);
  }

  lemma ChangedByte(s: Slice, k: nat)
    requires s.Valid() && s.Rewritten().Valid() && k < |s.Bytes()| == |s.Rewritten().Bytes()|
    requires s.Rewritten().Bytes()[k] != s.Bytes()[k]
    ensures InImage(s.arch, s.image, k)
  {
    hide ImageBytes, Rewrite, InImage;
    ImageFrame(s.arch, s.image, k);
  }

  lemma SliceBytesFrame(b: seq<Byte>, c: seq<Byte>, ss: seq<Slice>, rr: seq<Slice>, i: nat, k: nat)
    requires Laid(b, ss) && Laid(c, rr) && |ss| == |rr| && |b| == |c| && i < |ss| && rr[i] == ss[i].Rewritten()
    requires ss[i].Valid() && ss[i].at <= k < ss[i].End() && k < |b| && c[k] != b[k]
    ensures InImage(ss[i].arch, ss[i].image, k - ss[i].at)
  {
    hide Laid, InImage, Slice.Valid, Slice.Bytes, Slice.Rewritten, TableSize;
    LaidMeans(b, ss, i);
    LaidMeans(c, rr, i);
    ElementOfSlice(b, ss[i].at, ss[i].End(), k);
    RewrittenStays(ss[i]);
    ElementOfSlice(c, ss[i].at, ss[i].End(), k);
    ChangedByte(ss[i], k - ss[i].at);
  }

  lemma RewrittenAt(ss: seq<Slice>, i: nat)
    requires i < |ss|
    ensures RewriteFrom(ss, 0)[i] == ss[i].Rewritten()
  {
  }

  /** Every byte of a well-formed fat file that a run changes lies in the name or the flags of a
      section that is disabled, in one of the slices. */
  lemma FatBytesFrame(host: Endian, b: seq<Byte>, ss: seq<Slice>, k: nat) returns (i: nat)
    requires FatFile(host, b, ss) && FileOk(host, b) && k < |b| && DoFile(host, b).1[k] != b[k]
    ensures i < |ss| && ss[i].Valid() && ss[i].at <= k < ss[i].End()
    ensures InImage(ss[i].arch, ss[i].image, k - ss[i].at)
  {
    hide FatFile, Laid, Outside, DoFile, FileOk, RewriteFrom, InImage;
    FatOnce(host, b, ss);
    var c, rr := DoFile(host, b).1, RewriteFrom(ss, 0);
    FatFileLaid(host, b, ss);
    FatFileLaid(host, c, rr);
    i := SliceOf(ss, k);
    RewrittenAt(ss, i);
    SliceBytesFrame(b, c, ss, rr, i, k);
  }
}
