/** markgc: disable the initialiser and terminator sections of a Mach-O file in place. */
module MarkGC {
  import opened Bytes
  import opened MachO
  import opened Wrappers

  // ---------- on bytes: what each routine does to the buffer ----------

  /** The bytes of one section after dosect: three tests, each on the outcome of the one before. */
  function Disabled(a: Arch, s: seq<Byte>, segment: seq<Byte>, name: seq<Byte>, newName: seq<Byte>): (r: seq<Byte>)
    requires |s| == SectSize(a) && |segment| == 6 && |name| == 16 == |newName|
    ensures |r| == |s|
  {
    if StrnEqual(s[16..32], segment, 6) && StrnEqual(s[..16], name, 16) then
      var flags := Read32(a.e, s, FlagsAt(a));
      newName + s[16..FlagsAt(a)] + Put32(a.e, flags - flags % 0x100) + s[FlagsAt(a) + 4..]
    else s
  }

  function DoSect(a: Arch, s: seq<Byte>): (r: seq<Byte>)
    requires |s| == SectSize(a)
    ensures |r| == |s|
  {
    Disabled(a, Disabled(a, Disabled(a, s, DATA_PREFIX, MOD_INIT, OBJC_INIT),
                         TEXT_PREFIX, INIT_OFFSETS, OBJC_OFFS),
             DATA_PREFIX, MOD_TERM, OBJC_TERM)
  }

  /** A record-wise change that keeps the size of the records. */
  ghost predicate KeepsSize(f: seq<Byte> -> seq<Byte>, size: nat) {
    forall s: seq<Byte> | |s| == size :: |f(s)| == size
  }

  /** Apply `f` to `n` consecutive records of `size` bytes from `at` on, one after the other. */
  ghost function Each(f: seq<Byte> -> seq<Byte>, b: seq<Byte>, at: nat, size: nat, n: nat): (r: seq<Byte>)
    requires at + Span(n, size) <= |b| && KeepsSize(f, size)
    ensures |r| == |b|
  {
    if n == 0 then b
    else
      var c, last := Each(f, b, at, size, n - 1), at + Span(n - 1, size);
      Splice(c, last, f(c[last..last + size]))
  }

  ghost function SectionChange(a: Arch): (f: seq<Byte> -> seq<Byte>)
    ensures KeepsSize(f, SectSize(a))
  {
    s => if |s| == SectSize(a) then DoSect(a, s) else s
  }

  ghost function DoSections(a: Arch, b: seq<Byte>, at: nat, n: nat): (r: seq<Byte>)
    requires at + Span(n, SectSize(a)) <= |b|
    ensures |r| == |b|
  {
    Each(SectionChange(a), b, at, SectSize(a), n)
  }

  /** The section headers of the segment command at `seg` lie inside the buffer. */
  predicate SegOk(a: Arch, b: seq<Byte>, seg: nat) {
    && seg + SegSize(a) <= |b|
    && seg + SegSize(a) + Span(Read32(a.e, b, seg + NsectsAt(a)), SectSize(a)) <= |b|
  }

  ghost function DoSeg(a: Arch, b: seq<Byte>, seg: nat): (r: seq<Byte>)
    requires SegOk(a, b, seg)
    ensures |r| == |b|
  {
    DoSections(a, b, seg + SegSize(a), Read32(a.e, b, seg + NsectsAt(a)))
  }

  predicate IsSegment(cmd: Word32) {
    cmd == LC_SEGMENT || cmd == LC_SEGMENT_64
  }

  /** The command at `cur` can be processed without leaving the buffer. */
  predicate CmdOk(a: Arch, b: seq<Byte>, cur: nat) {
    cur + 8 <= |b| && (IsSegment(Read32(a.e, b, cur)) ==> SegOk(a, b, cur))
  }

  ghost function DoCmd(a: Arch, b: seq<Byte>, cur: nat): (r: seq<Byte>)
    requires CmdOk(a, b, cur)
    ensures |r| == |b|
  {
    if IsSegment(Read32(a.e, b, cur)) then DoSeg(a, b, cur) else b
  }

  /** The walk over `n` commands stays inside the buffer: what the code takes for granted. */
  ghost predicate CmdsOk(a: Arch, b: seq<Byte>, cur: nat, n: nat)
    decreases n
  {
    n == 0 || (CmdOk(a, b, cur) && CmdsOk(a, DoCmd(a, b, cur), cur + Read32(a.e, b, cur + 4), n - 1))
  }

  ghost function DoCmds(a: Arch, b: seq<Byte>, cur: nat, n: nat): (r: seq<Byte>)
    requires CmdsOk(a, b, cur, n)
    ensures |r| == |b|
    decreases n
  {
    if n == 0 then b
    else DoCmds(a, DoCmd(a, b, cur), cur + Read32(a.e, b, cur + 4), n - 1)
  }

  /** The instance of the templates that a magic number, read as the host reads it, selects. */
  function ArchOf(host: Endian, magic: Word32): Option<Arch> {
    if magic == MH_MAGIC_64 then Some(Arch(true, host))
    else if magic == MH_MAGIC then Some(Arch(false, host))
    else if magic == MH_CIGAM_64 then Some(Arch(true, host.Other()))
    else if magic == MH_CIGAM then Some(Arch(false, host.Other()))
    else None
  }

  function ArchAt(host: Endian, b: seq<Byte>, at: nat): Option<Arch>
    requires at + 4 <= |b|
  {
    ArchOf(host, Read32(host, b, at))
  }

  /** What parse_macho takes for granted about the image at `at`. */
  ghost predicate MachoOk(host: Endian, b: seq<Byte>, at: nat) {
    && at + 4 <= |b|
    && match ArchAt(host, b, at)
       case None => true
       case Some(a) => at + HeaderSize(a) <= |b|
                       && CmdsOk(a, b, at + HeaderSize(a), Read32(a.e, b, at + NCMDS_AT))
  }

  ghost function DoMacho(host: Endian, b: seq<Byte>, at: nat): (r: seq<Byte>)
    requires MachoOk(host, b, at)
    ensures |r| == |b|
  {
    match ArchAt(host, b, at)
    case None => b
    case Some(a) => DoCmds(a, b, at + HeaderSize(a), Read32(a.e, b, at + NCMDS_AT))
  }

  // ---------- fat files ----------

  const FAT_MAGIC: Word32 := 0xCAFE_BABE
  const FAT_CIGAM: Word32 := 0xBEBA_FECA
  const CPU_TYPE_ARM64: Word32 := 0x0100_000C

  predicate IsFat(host: Endian, b: seq<Byte>) {
    |b| >= 4 && (Read32(host, b, 0) == FAT_MAGIC || Read32(host, b, 0) == FAT_CIGAM)
  }

  /** fat_arch_size: where the entry with index `n` begins. */
  function TableSize(n: nat): nat { n * 20 + 8 }

  /** The number of entries according to the header. */
  function Declared(b: seq<Byte>): Word32
    requires |b| >= 8
  {
    Read32(Big, b, 4)
  }

  /** One more entry behind the table. */
  predicate Hidden(b: seq<Byte>)
    requires |b| >= 8
  {
    var n := Declared(b);
    n > 0 && |b| >= TableSize(n + 1) && Read32(Big, b, TableSize(n)) == CPU_TYPE_ARM64
  }

  function Count(b: seq<Byte>): (n: Word32)
    requires |b| >= 8
  {
    if Hidden(b) then (Declared(b) + 1) % 0x1_0000_0000 else Declared(b)
  }

  function SliceAt(b: seq<Byte>, i: nat): Word32
    requires TableSize(i + 1) <= |b|
  {
    Read32(Big, b, TableSize(i) + 8)
  }

  function SliceSize(b: seq<Byte>, i: nat): Word32
    requires TableSize(i + 1) <= |b|
  {
    Read32(Big, b, TableSize(i) + 12)
  }

  /** Slice `i` lies behind the table, which ends at `base`, and inside the file. */
  predicate SliceFits(b: seq<Byte>, i: nat, base: nat)
    requires TableSize(i + 1) <= |b|
  {
    base <= SliceAt(b, i) && SliceAt(b, i) + SliceSize(b, i) <= |b|
  }

  /** Every image that the loop over the slices reaches can be processed. */
  ghost predicate SlicesOk(host: Endian, b: seq<Byte>, i: nat, n: nat, base: nat)
    requires TableSize(n) <= |b|
    decreases n - i
  {
    i < n && SliceFits(b, i, base) ==>
      var at := SliceAt(b, i);
      && MachoOk(host, b, at)
      && (ArchAt(host, b, at).Some? ==> SlicesOk(host, DoMacho(host, b, at), i + 1, n, base))
  }

  /** The loop over the slices: whether it gets through, and the bytes it leaves. */
  ghost function DoSlices(host: Endian, b: seq<Byte>, i: nat, n: nat, base: nat): (r: (bool, seq<Byte>))
    requires TableSize(n) <= |b| && SlicesOk(host, b, i, n, base)
    ensures |r.1| == |b|
    decreases n - i
  {
    if i >= n then (true, b)
    else if !SliceFits(b, i, base) then (false, b)
    else
      var at := SliceAt(b, i);
      if ArchAt(host, b, at).None? then (false, b)
      else DoSlices(host, DoMacho(host, b, at), i + 1, n, base)
  }

  lemma TableFits(b: seq<Byte>)
    requires |b| >= 8 && TableSize(Declared(b)) <= |b|
    ensures TableSize(Count(b)) <= |b|
  {
    hide Read32;
  }

  ghost predicate FileOk(host: Endian, b: seq<Byte>) {
    if |b| < 4 then true
    else if !IsFat(host, b) then MachoOk(host, b, 0)
    else if |b| < 8 || |b| < TableSize(Declared(b)) then true
    else TableFits(b); SlicesOk(host, b, 0, Count(b), TableSize(Declared(b)))
  }

  /** The result of parse_fat on a whole file, and the bytes it leaves. */
  ghost function DoFile(host: Endian, b: seq<Byte>): (r: (bool, seq<Byte>))
    requires FileOk(host, b)
    ensures |r.1| == |b|
  {
    if |b| < 4 then (false, b)
    else if !IsFat(host, b) then (ArchAt(host, b, 0).Some?, DoMacho(host, b, 0))
    else if |b| < 8 || |b| < TableSize(Declared(b)) then (false, b)
    else TableFits(b); DoSlices(host, b, 0, Count(b), TableSize(Declared(b)))
  }

  // ---------- splicing ----------

  lemma SpliceSlice(b: seq<Byte>, at: nat, w: seq<Byte>)
    requires at + |w| <= |b|
    ensures Splice(b, at, w)[at..at + |w|] == w
    ensures forall i | 0 <= i < at || at + |w| <= i < |b| :: Splice(b, at, w)[i] == b[i]
  {
  }

  lemma SpliceTwice(b: seq<Byte>, at: nat, v: seq<Byte>, w: seq<Byte>)
    requires at + |w| <= |b| && |v| == |w|
    ensures Splice(Splice(b, at, v), at, w) == Splice(b, at, w)
  {
  }

  lemma SpliceSame(b: seq<Byte>, at: nat, n: nat)
    requires at + n <= |b|
    ensures Splice(b, at, b[at..at + n]) == b
  {
  }

  /** Writing two fields of a record is writing the changed record. */
  lemma SpliceFields(b: seq<Byte>, at: nat, n: nat, name: seq<Byte>, f: nat, w: seq<Byte>)
    requires at + n <= |b| && |name| <= f && f + |w| <= n
    ensures var s := b[at..at + n];
            Splice(Splice(b, at + f, w), at, name) == Splice(b, at, name + s[|name|..f] + w + s[f + |w|..])
  {
    var p, s, q := b[..at], b[at..at + n], b[at + n..];
    var s1 := s[..f] + w + s[f + |w|..];
    assert b == p + s + q;
    assert Splice(b, at + f, w) == p + s1 + q;
    assert Splice(p + s1 + q, at, name) == p + (name + s1[|name|..]) + q;
    assert name + s1[|name|..] == name + s[|name|..f] + w + s[f + |w|..];
  }

  lemma SubSlice(b: seq<Byte>, at: nat, n: nat, i: nat, j: nat)
    requires at + n <= |b| && i <= j <= n
    ensures b[at..at + n][i..j] == b[at + i..at + j]
  {
    var c := b[at..at + n];
    assert forall k | 0 <= k < n :: c[k] == b[at + k];
    assert forall k | 0 <= k < j - i :: c[i..j][k] == c[i + k];
  }

  // ---------- the program ----------

  method StrnCompare(buf: array<Byte>, at: nat, rhs: seq<Byte>, n: nat) returns (equal: bool)
    requires at + n <= buf.Length && n <= |rhs|
    ensures equal <==> StrnEqual(buf[at..at + n], rhs, n)
  {
    var i := 0;
    ghost var l := buf[at..at + n];
    assert l[0..] == l && rhs[0..] == rhs;
    while i < n
      invariant 0 <= i <= n
      invariant StrnEqual(l[i..], rhs[i..], n - i) == StrnEqual(l, rhs, n)
    {
      assert l[i..][0] == buf[at + i] && rhs[i..][0] == rhs[i];
      assert l[i..][1..] == l[i + 1..] && rhs[i..][1..] == rhs[i + 1..];
      if buf[at + i] != rhs[i] {
        return false;
      }
      if buf[at + i] == 0 {
        return true;
      }
      i := i + 1;
    }
    equal := true;
  }

  method Set32(e: Endian, buf: array<Byte>, at: nat, w: Word32)
    requires at + 4 <= buf.Length
    modifies buf
    ensures buf[..] == Splice(old(buf[..]), at, Put32(e, w))
  {
    var b := Put32(e, w);
    buf[at], buf[at + 1], buf[at + 2], buf[at + 3] := b[0], b[1], b[2], b[3];
  }

  /** strncpy of a 16-character name. */
  method SetName(buf: array<Byte>, at: nat, name: seq<Byte>)
    requires at + 16 <= buf.Length && |name| == 16
    modifies buf
    ensures buf[..] == Splice(old(buf[..]), at, name)
  {
    for i := 0 to 16
      invariant forall j | 0 <= j < buf.Length ::
                  buf[j] == if at <= j < at + i then name[j - at] else old(buf[j])
    {
      buf[at + i] := name[i];
    }
  }

  method GetWord(e: Endian, buf: array<Byte>, at: nat) returns (w: Word32)
    requires at + 4 <= buf.Length
    ensures w == Read32(e, buf[..], at)
  {
    assert buf[at..at + 4] == buf[..][at..at + 4];
    w := Get32(e, buf[at..at + 4]);
  }

  /** set_flags without the type bits, then set_sectname. */
  method Disable(a: Arch, buf: array<Byte>, sect: nat, newName: seq<Byte>)
    requires sect + SectSize(a) <= buf.Length && |newName| == 16
    modifies buf
    ensures var s := old(buf[..])[sect..sect + SectSize(a)];
            var flags := Read32(a.e, s, FlagsAt(a));
            buf[..] == Splice(old(buf[..]), sect,
                              newName + s[16..FlagsAt(a)] + Put32(a.e, flags - flags % 0x100) + s[FlagsAt(a) + 4..])
  {
    hide Get32, Put32, Splice;
    ghost var b := buf[..];
    var at := sect + FlagsAt(a);
    SubSlice(b, sect, SectSize(a), FlagsAt(a), FlagsAt(a) + 4);
    var flags := GetWord(a.e, buf, at);
    SpliceFields(b, sect, SectSize(a), newName, FlagsAt(a), Put32(a.e, flags - flags % 0x100));
    Set32(a.e, buf, at, flags - flags % 0x100);
    SetName(buf, sect, newName);
  }

  lemma {:induction false} StrnPrefix(lhs: seq<Byte>, rhs: seq<Byte>, n: nat)
    requires n <= |lhs| && n <= |rhs|
    ensures StrnEqual(lhs, rhs, n) == StrnEqual(lhs[..n], rhs, n)
  {
    if n > 0 {
      StrnPrefix(lhs[1..], rhs[1..], n - 1);
      assert lhs[..n][1..] == lhs[1..][..n - 1];
    }
  }

  method IsNamed(a: Arch, buf: array<Byte>, sect: nat, segment: seq<Byte>, name: seq<Byte>) returns (r: bool)
    requires sect + SectSize(a) <= buf.Length && |segment| == 6 && |name| == 16
    ensures var s := buf[..][sect..sect + SectSize(a)];
            r <==> StrnEqual(s[16..32], segment, 6) && StrnEqual(s[..16], name, 16)
  {
    ghost var b := buf[..];
    SubSlice(b, sect, SectSize(a), 16, 32);
    SubSlice(b, sect, SectSize(a), 0, 16);
    SubSlice(b, sect + 16, 16, 0, 6);
    StrnPrefix(b[sect + 16..sect + 32], segment, 6);
    assert buf[sect + 16..sect + 22] == b[sect + 16..sect + 22] && buf[sect..sect + 16] == b[sect..sect + 16];
    var inSegment := StrnCompare(buf, sect + 16, segment, 6);
    var named := StrnCompare(buf, sect, name, 16);
    r := inSegment && named;
  }

  method DisableSection(a: Arch, buf: array<Byte>, sect: nat, segment: seq<Byte>, name: seq<Byte>, newName: seq<Byte>)
    requires sect + SectSize(a) <= buf.Length && |segment| == 6 && |name| == 16 == |newName|
    modifies buf
    ensures buf[..] == Splice(old(buf[..]), sect,
                              Disabled(a, old(buf[..])[sect..sect + SectSize(a)], segment, name, newName))
  {
    ghost var b := buf[..];
    var disable := IsNamed(a, buf, sect, segment, name);
    if disable {
      Disable(a, buf, sect, newName);
    } else {
      SpliceSame(b, sect, SectSize(a));
    }
  }

  method DoSectInPlace(a: Arch, buf: array<Byte>, sect: nat)
    requires sect + SectSize(a) <= buf.Length
    modifies buf
    ensures buf[..] == Splice(old(buf[..]), sect, DoSect(a, old(buf[..])[sect..sect + SectSize(a)]))
  {
    ghost var b := buf[..];
    ghost var s := b[sect..sect + SectSize(a)];
    ghost var s1 := Disabled(a, s, DATA_PREFIX, MOD_INIT, OBJC_INIT);
    ghost var s2 := Disabled(a, s1, TEXT_PREFIX, INIT_OFFSETS, OBJC_OFFS);
    DisableSection(a, buf, sect, DATA_PREFIX, MOD_INIT, OBJC_INIT);
    SpliceSlice(b, sect, s1);
    DisableSection(a, buf, sect, TEXT_PREFIX, INIT_OFFSETS, OBJC_OFFS);
    SpliceTwice(b, sect, s1, s2);
    SpliceSlice(b, sect, s2);
    DisableSection(a, buf, sect, DATA_PREFIX, MOD_TERM, OBJC_TERM);
    SpliceTwice(b, sect, s2, Disabled(a, s2, DATA_PREFIX, MOD_TERM, OBJC_TERM));
  }

  // ---------- segments and commands ----------

  lemma ReadOutside(e: Endian, b: seq<Byte>, c: seq<Byte>, at: nat)
    requires at + 4 <= |b| == |c| && forall i | at <= i < at + 4 :: b[i] == c[i]
    ensures Read32(e, b, at) == Read32(e, c, at)
  {
    assert b[at..at + 4] == c[at..at + 4];
  }

  /** Nothing outside the records changes. */
  lemma {:induction false} EachFrame(f: seq<Byte> -> seq<Byte>, b: seq<Byte>, at: nat, size: nat, n: nat)
    requires at + Span(n, size) <= |b| && KeepsSize(f, size)
    ensures forall i | 0 <= i < at || at + Span(n, size) <= i < |b| :: Each(f, b, at, size, n)[i] == b[i]
  {
    if n > 0 {
      EachFrame(f, b, at, size, n - 1);
    }
  }

  /** One more record after those already done. */
  lemma EachNext(f: seq<Byte> -> seq<Byte>, b: seq<Byte>, at: nat, size: nat, n: nat, c: seq<Byte>, d: seq<Byte>)
    requires at + Span(n, size) + size <= |b| && KeepsSize(f, size) && c == Each(f, b, at, size, n)
    requires var s := at + Span(n, size); d == Splice(c, s, f(c[s..s + size]))
    ensures Span(n + 1, size) == Span(n, size) + size && d == Each(f, b, at, size, n + 1)
    ensures forall i | 0 <= i < at || at + Span(n + 1, size) <= i < |b| :: d[i] == b[i]
  {
    hide Splice;
    EachFrame(f, b, at, size, n);
    SpliceSlice(c, at + Span(n, size), f(c[at + Span(n, size)..at + Span(n, size) + size]));
  }

  /** The buffer `c` is `b` with the first `i` of its `n` sections done. */
  ghost predicate SegState(a: Arch, b: seq<Byte>, seg: nat, n: nat, i: nat, c: seq<Byte>) {
    && SegOk(a, b, seg) && n == Read32(a.e, b, seg + NsectsAt(a))
    && seg + SegSize(a) + Span(i, SectSize(a)) <= |b|
    && c == DoSections(a, b, seg + SegSize(a), i)
  }

  lemma SectionFits(a: Arch, b: seq<Byte>, seg: nat, n: nat, i: nat)
    requires SegOk(a, b, seg) && n == Read32(a.e, b, seg + NsectsAt(a)) && i < n
    ensures i * SectSize(a) == Span(i, SectSize(a))
    ensures seg + SegSize(a) + Span(i, SectSize(a)) + SectSize(a) == seg + SegSize(a) + Span(i + 1, SectSize(a)) <= |b|
  {
    SpanIsProduct(i, SectSize(a));
    SpanAdds(i, 1, SectSize(a));
    SpanAdds(i + 1, n - i - 1, SectSize(a));
  }

  lemma NextSection(a: Arch, b: seq<Byte>, seg: nat, n: nat, i: nat, c: seq<Byte>, d: seq<Byte>)
    requires SegState(a, b, seg, n, i, c) && i < n
    requires var at := seg + SegSize(a) + Span(i, SectSize(a));
             && at + SectSize(a) <= |c|
             && d == Splice(c, at, DoSect(a, c[at..at + SectSize(a)]))
    ensures SegState(a, b, seg, n, i + 1, d)
    ensures |d| == |b| && Read32(a.e, d, seg + NsectsAt(a)) == n
  {
    hide DoSect, Get32, Span, Read32, Splice, Each, SectSize;
    var sect := seg + SegSize(a);
    SectionFits(a, b, seg, n, i);
    EachNext(SectionChange(a), b, sect, SectSize(a), i, c, d);
    ReadOutside(a.e, d, b, seg + NsectsAt(a));
  }

  method DoSegInPlace(a: Arch, buf: array<Byte>, seg: nat)
    requires SegOk(a, buf[..], seg)
    modifies buf
    ensures buf[..] == DoSeg(a, old(buf[..]), seg)
  {
    hide Get32, DoSect, Splice, SectSize;
    ghost var b := buf[..];
    var sect := seg + SegSize(a);
    var i: nat := 0;
    var nsects := GetWord(a.e, buf, seg + NsectsAt(a));
    while i < nsects
      invariant i <= nsects && SegState(a, b, seg, nsects, i, buf[..])
    {
      SectionFits(a, b, seg, nsects, i);
      ghost var before := buf[..];
      DoSectInPlace(a, buf, sect + i * SectSize(a));
      NextSection(a, b, seg, nsects, i, before, buf[..]);
      i := i + 1;
      nsects := GetWord(a.e, buf, seg + NsectsAt(a));
    }
  }

  /** The walk has `left` commands to go, from `cur`, and will end with `all`. */
  ghost predicate ParseState(a: Arch, b: seq<Byte>, at: nat, n: nat, cur: nat, left: nat,
                             c: seq<Byte>, all: seq<Byte>)
  {
    && |c| == |b| && at + HeaderSize(a) <= |b| && at + HeaderSize(a) <= cur
    && Read32(a.e, b, at + NCMDS_AT) == n == Read32(a.e, c, at + NCMDS_AT)
    && CmdsOk(a, c, cur, left) && DoCmds(a, c, cur, left) == all
  }

  lemma CmdFrame(a: Arch, b: seq<Byte>, cur: nat)
    requires CmdOk(a, b, cur)
    ensures forall i | 0 <= i < cur :: DoCmd(a, b, cur)[i] == b[i]
  {
    if IsSegment(Read32(a.e, b, cur)) {
      EachFrame(SectionChange(a), b, cur + SegSize(a), SectSize(a), Read32(a.e, b, cur + NsectsAt(a)));
    }
  }

  /** One turn of the loop over the commands. */
  method DoCmdInPlace(a: Arch, ghost b: seq<Byte>, buf: array<Byte>, ghost at: nat, ghost n: nat,
                      cur: nat, ghost left: nat, ghost all: seq<Byte>) returns (next: nat)
    requires left > 0 && ParseState(a, b, at, n, cur, left, buf[..], all)
    modifies buf
    ensures ParseState(a, b, at, n, next, left - 1, buf[..], all)
  {
    ghost var before := buf[..];
    var size := GetWord(a.e, buf, cur + 4);
    next := cur + size;
    var kind := GetWord(a.e, buf, cur);
    CmdFrame(a, before, cur);
    ReadOutside(a.e, DoCmd(a, before, cur), before, at + NCMDS_AT);
    if IsSegment(kind) {
      DoSegInPlace(a, buf, cur);
    }
  }

  /** parse_macho for one width and byte order. */
  method ParseCommands(a: Arch, buf: array<Byte>, at: nat)
    requires at + HeaderSize(a) <= buf.Length
    requires CmdsOk(a, buf[..], at + HeaderSize(a), Read32(a.e, buf[..], at + NCMDS_AT))
    modifies buf
    ensures buf[..] == DoCmds(a, old(buf[..]), at + HeaderSize(a), Read32(a.e, old(buf[..]), at + NCMDS_AT))
  {
    hide Get32, DoCmd, CmdOk;
    ghost var b := buf[..];
    var cmds: nat := at + HeaderSize(a);
    var c: nat := 0;
    var ncmds := GetWord(a.e, buf, at + NCMDS_AT);
    ghost var all := DoCmds(a, b, cmds, ncmds);
    while c < ncmds
      invariant c <= ncmds && ParseState(a, b, at, ncmds, cmds, ncmds - c, buf[..], all)
    {
      cmds := DoCmdInPlace(a, b, buf, at, ncmds, cmds, ncmds - c, all);
      c := c + 1;
      ncmds := GetWord(a.e, buf, at + NCMDS_AT);
    }
  }

  /** parse_macho on any image. */
  method ParseMacho(host: Endian, buf: array<Byte>, at: nat) returns (ok: bool)
    requires MachoOk(host, buf[..], at)
    modifies buf
    ensures ok == ArchAt(host, old(buf[..]), at).Some?
    ensures buf[..] == DoMacho(host, old(buf[..]), at)
  {
    hide CmdsOk, DoCmds, Get32;
    var magic := GetWord(host, buf, at);
    var arch := ArchOf(host, magic);
    ok := arch.Some?;
    if ok {
      ParseCommands(arch.value, buf, at);
    }
  }

  /** From the slice with index `i` on, the loop will end with `result`. */
  ghost predicate SlicesState(host: Endian, c: seq<Byte>, i: nat, n: nat, base: nat, result: (bool, seq<Byte>)) {
    TableSize(n) <= |c| && SlicesOk(host, c, i, n, base) && DoSlices(host, c, i, n, base) == result
  }

  lemma SlicesEnd(host: Endian, c: seq<Byte>, n: nat, base: nat)
    requires TableSize(n) <= |c|
    ensures SlicesOk(host, c, n, n, base) && DoSlices(host, c, n, n, base) == (true, c)
  {
  }

  /** One turn of the loop over the slices. */
  method ParseSlice(host: Endian, buf: array<Byte>, i: nat, n: nat, base: nat, ghost result: (bool, seq<Byte>))
    returns (ok: bool)
    requires i < n && SlicesState(host, buf[..], i, n, base, result)
    modifies buf
    ensures !ok ==> (false, buf[..]) == result
    ensures ok ==> SlicesState(host, buf[..], i + 1, n, base, result)
  {
    hide MachoOk, DoCmds, Get32;
    var size := buf.Length;
    var archOffset := GetWord(Big, buf, 8 + 20 * i + 8);
    var archSize := GetWord(Big, buf, 8 + 20 * i + 12);
    if archOffset < base {
      return false;
    }
    if archOffset > size {
      return false;
    }
    if archSize > size {
      return false;
    }
    if archOffset > size - archSize {
      return false;
    }
    ok := ParseMacho(host, buf, archOffset);
  }

  method ParseSlices(host: Endian, buf: array<Byte>, n: nat, base: nat) returns (ok: bool)
    requires TableSize(n) <= buf.Length && SlicesOk(host, buf[..], 0, n, base)
    modifies buf
    ensures (ok, buf[..]) == DoSlices(host, old(buf[..]), 0, n, base)
  {
    hide SlicesOk, DoSlices;
    ghost var result := DoSlices(host, buf[..], 0, n, base);
    var i: nat := 0;
    while i < n
      invariant i <= n && SlicesState(host, buf[..], i, n, base, result)
    {
      ok := ParseSlice(host, buf, i, n, base, result);
      if !ok {
        return;
      }
      i := i + 1;
    }
    SlicesEnd(host, buf[..], n, base);
    ok := true;
  }

  /** parse_fat on a file mapped into `buf`, for a host with 64-bit sizes. */
  method ParseFat(host: Endian, buf: array<Byte>) returns (ok: bool)
    requires FileOk(host, buf[..])
    modifies buf
    ensures (ok, buf[..]) == DoFile(host, old(buf[..]))
  {
    hide SlicesOk, DoSlices, MachoOk, DoMacho, Get32;
    ghost var b := buf[..];
    var size := buf.Length;
    if size < 4 {
      return false;
    }
    var magic := GetWord(host, buf, 0);
    if magic != FAT_MAGIC && magic != FAT_CIGAM {
      ok := ParseMacho(host, buf, 0);
      return;
    }
    if size < 8 {
      return false;
    }
    var nfat: int := GetWord(Big, buf, 4);
    var fatArchSize := nfat * 20 + 8;
    if size < fatArchSize {
      return false;
    }
    TableFits(b);
    if size >= fatArchSize + 20 {
      var cputype := GetWord(Big, buf, 8 + 20 * nfat);
      if nfat > 0 && cputype == CPU_TYPE_ARM64 {
        nfat := (nfat + 1) % 0x1_0000_0000;
      }
    }
    ok := ParseSlices(host, buf, nfat, fatArchSize);
  }
}
