/** What markgc does to the bytes of a Mach-O image is the encoding of what the rewrite does
    to the image. */
module MarkGCSquare {
  import opened Bytes
  import opened MachO
  import opened MarkGC
  import opened Wrappers

  // ---------- one section ----------

  /** The value-level counterpart of one of the three tests in dosect. */
  function Renamed(s: Section, segment: seq<Byte>, name: seq<Byte>, newName: Name16): Section
    requires |segment| == 6 && |name| == 16
  {
    if StrnEqual(s.segname, segment, 6) && StrnEqual(s.sectname, name, 16)
    then s.(sectname := newName, flags := s.flags - s.flags % 0x100) else s
  }

  lemma SectionFields(a: Arch, s: Section)
    ensures var b := SectionBytes(a, s);
            && b[..16] == s.sectname && b[16..32] == s.segname
            && b[FlagsAt(a)..FlagsAt(a) + 4] == Put32(a.e, s.flags)
            && b[16..FlagsAt(a)] == s.segname + Middle(a, s)
            && b[FlagsAt(a) + 4..] == Reserved(a, s)
  {
    hide Put32, Middle, Reserved;
  }

  lemma DisabledSquare(a: Arch, s: Section, segment: seq<Byte>, name: seq<Byte>, newName: Name16)
    requires |segment| == 6 && |name| == 16
    ensures Disabled(a, SectionBytes(a, s), segment, name, newName)
            == SectionBytes(a, Renamed(s, segment, name, newName))
  {
    hide StrnEqual, Put32, Get32;
    SectionFields(a, s);
    GetOfPut(a.e, s.flags);
    var r := s.(sectname := newName, flags := s.flags - s.flags % 0x100);
    assert Middle(a, r) == Middle(a, s) && Reserved(a, r) == Reserved(a, s);
    assert SectionBytes(a, r) == newName + (s.segname + Middle(a, s)) + Put32(a.e, r.flags) + Reserved(a, s);
  }

  /** After one test has matched, the later ones do not. */
  lemma RenamedOnce(s: Section)
    ensures Renamed(Renamed(Renamed(s, DATA_PREFIX, MOD_INIT, OBJC_INIT), TEXT_PREFIX, INIT_OFFSETS, OBJC_OFFS),
                    DATA_PREFIX, MOD_TERM, OBJC_TERM) == RewriteSection(s)
  {
    hide StrnEqual;
    ThirdLetter(OBJC_INIT, INIT_OFFSETS);
    ThirdLetter(OBJC_INIT, MOD_TERM);
    ThirdLetter(OBJC_OFFS, MOD_TERM);
  }

  lemma SectionSquare(a: Arch, s: Section)
    ensures DoSect(a, SectionBytes(a, s)) == SectionBytes(a, RewriteSection(s))
  {
    hide Disabled, Renamed, SectionBytes, RewriteSection;
    var s1 := Renamed(s, DATA_PREFIX, MOD_INIT, OBJC_INIT);
    var s2 := Renamed(s1, TEXT_PREFIX, INIT_OFFSETS, OBJC_OFFS);
    DisabledSquare(a, s, DATA_PREFIX, MOD_INIT, OBJC_INIT);
    DisabledSquare(a, s1, TEXT_PREFIX, INIT_OFFSETS, OBJC_OFFS);
    DisabledSquare(a, s2, DATA_PREFIX, MOD_TERM, OBJC_TERM);
    RenamedOnce(s);
  }

  lemma MiddleReservedSame(a: Arch, s: Section, r: Section)
    requires r == s.(sectname := r.sectname, flags := r.flags)
    ensures Middle(a, r) == Middle(a, s) && Reserved(a, r) == Reserved(a, s)
  {
    hide Put32, PutP;
  }

  lemma ElementOf(b: seq<Byte>, c: seq<Byte>, i: nat, j: nat, k: nat)
    requires i <= k < j <= |b| == |c| && b[i..j] == c[i..j]
    ensures b[k] == c[k]
  {
    assert b[k] == b[i..j][k - i] == c[i..j][k - i];
  }

  /** Of a section, only the name and the flags change, of the flags only the section type,
      and they change only if the section is one to be disabled. */
  lemma SectionFrame(a: Arch, s: Section, i: nat)
    requires i < SectSize(a)
    ensures var r := RewriteSection(s);
            && SectionBytes(a, r)[i] != SectionBytes(a, s)[i] ==>
                 NewName(s) != [] && (i < 16 || FlagsAt(a) <= i < FlagsAt(a) + 4)
    ensures var r := RewriteSection(s);
            r.flags / 0x100 == s.flags / 0x100 && (NewName(s) != [] ==> r.flags % 0x100 == 0)
  {
    hide NewName, Put32, Middle, Reserved, SectionBytes;
    var r := RewriteSection(s);
    SectionFields(a, s);
    SectionFields(a, r);
    if NewName(s) != [] {
      MiddleReservedSame(a, s, r);
      assert SectionBytes(a, r)[16..FlagsAt(a)] == SectionBytes(a, s)[16..FlagsAt(a)];
      assert SectionBytes(a, r)[FlagsAt(a) + 4..SectSize(a)] == SectionBytes(a, s)[FlagsAt(a) + 4..SectSize(a)];
      if 16 <= i < FlagsAt(a) {
        ElementOf(SectionBytes(a, s), SectionBytes(a, r), 16, FlagsAt(a), i);
      } else if FlagsAt(a) + 4 <= i {
        ElementOf(SectionBytes(a, s), SectionBytes(a, r), FlagsAt(a) + 4, SectSize(a), i);
      }
    }
  }

  // ---------- the sections of a segment ----------

  /** The first record can be done first. */
  lemma {:induction false} EachFront(f: seq<Byte> -> seq<Byte>, b: seq<Byte>, at: nat, size: nat, n: nat)
    requires n > 0 && at + Span(n, size) <= |b| && KeepsSize(f, size)
    ensures Each(f, b, at, size, n) == Each(f, Splice(b, at, f(b[at..at + size])), at + size, size, n - 1)
  {
    hide Splice;
    if n > 1 {
      EachFront(f, b, at, size, n - 1);
    }
  }

  lemma SpliceMiddle(pre: seq<Byte>, v: seq<Byte>, w: seq<Byte>, post: seq<Byte>)
    requires |v| == |w|
    ensures var b := pre + v + post;
            b[|pre|..|pre| + |v|] == v && Splice(b, |pre|, w) == pre + w + post
  {
  }

  lemma RewriteSectionsTail(ss: seq<Section>)
    requires ss != []
    ensures var r := RewriteSections(ss);
            r[0] == RewriteSection(ss[0]) && r[1..] == RewriteSections(ss[1..])
  {
    hide RewriteSection;
  }

  lemma EachNone(f: seq<Byte> -> seq<Byte>, b: seq<Byte>, at: nat, size: nat)
    requires at <= |b| && KeepsSize(f, size)
    ensures Each(f, b, at, size, 0) == b && RewriteSections([]) == []
  {
  }

  lemma {:induction false} SectionsSquare(a: Arch, ss: seq<Section>, pre: seq<Byte>, post: seq<Byte>)
    ensures DoSections(a, pre + SectionsBytes(a, ss) + post, |pre|, |ss|)
            == pre + SectionsBytes(a, RewriteSections(ss)) + post
    decreases |ss|
  {
    hide DoSect, SectionBytes, RewriteSection, Splice, RewriteSections, Each;
    var b, size := pre + SectionsBytes(a, ss) + post, SectSize(a);
    if ss != [] {
      var v, w := SectionBytes(a, ss[0]), SectionBytes(a, RewriteSection(ss[0]));
      var rest := SectionsBytes(a, ss[1..]);
      SectionSquare(a, ss[0]);
      EachFront(SectionChange(a), b, |pre|, size, |ss|);
      assert b == pre + v + (rest + post);
      SpliceMiddle(pre, v, w, rest + post);
      assert pre + w + (rest + post) == (pre + w) + rest + post;
      SectionsSquare(a, ss[1..], pre + w, post);
      RewriteSectionsTail(ss);
      assert (pre + w) + SectionsBytes(a, RewriteSections(ss[1..])) + post
          == pre + (w + SectionsBytes(a, RewriteSections(ss[1..]))) + post;
    } else {
      EachNone(SectionChange(a), b, |pre|, size);
    }
  }

  // ---------- one load command ----------

  /** Everything of a segment command before its sections. */
  function SegmentStart(a: Arch, c: Command): (b: seq<Byte>)
    requires c.Segment? && c.Valid(a)
    ensures |b| == SegSize(a)
  {
    SegmentHead(a, c) + Put32(a.e, |c.sections|) + Put32(a.e, c.flags)
  }

  lemma ReadPut(e: Endian, pre: seq<Byte>, w: Word32, post: seq<Byte>)
    ensures Read32(e, pre + Put32(e, w) + post, |pre|) == w
  {
    hide Put32, Get32;
    GetOfPut(e, w);
    assert (pre + Put32(e, w) + post)[|pre|..|pre| + 4] == Put32(e, w);
  }

  /** The two words that every command begins with. */
  lemma CommandWords(a: Arch, c: Command, pre: seq<Byte>, post: seq<Byte>)
    requires c.Valid(a)
    ensures var b := pre + CommandBytes(a, c) + post;
            Read32(a.e, b, |pre|) == c.cmd && Read32(a.e, b, |pre| + 4) == c.Size(a)
  {
    hide Put32, Read32, PutP, SectionsBytes;
    var w := CommandBytes(a, c);
    var b := pre + w + post;
    assert w == Put32(a.e, c.cmd) + Put32(a.e, c.Size(a)) + w[8..];
    assert b == pre + Put32(a.e, c.cmd) + (Put32(a.e, c.Size(a)) + w[8..] + post);
    ReadPut(a.e, pre, c.cmd, Put32(a.e, c.Size(a)) + w[8..] + post);
    assert b == (pre + Put32(a.e, c.cmd)) + Put32(a.e, c.Size(a)) + (w[8..] + post);
    ReadPut(a.e, pre + Put32(a.e, c.cmd), c.Size(a), w[8..] + post);
  }

  lemma SegmentSplits(a: Arch, c: Command, pre: seq<Byte>, post: seq<Byte>)
    requires c.Segment? && c.Valid(a)
    ensures pre + CommandBytes(a, c) + post
            == (pre + SegmentStart(a, c)) + SectionsBytes(a, c.sections) + (c.extra + post)
    ensures Read32(a.e, pre + CommandBytes(a, c) + post, |pre| + NsectsAt(a)) == |c.sections|
  {
    hide Put32, Read32, SegmentHead, SectionsBytes;
    var n, rest := Put32(a.e, |c.sections|), Put32(a.e, c.flags) + SectionsBytes(a, c.sections) + c.extra + post;
    var h := SegmentHead(a, c);
    assert pre + CommandBytes(a, c) + post == (pre + h) + n + rest;
    ReadPut(a.e, pre + h, |c.sections|, rest);
  }

  lemma RewriteCommandKeeps(a: Arch, c: Command)
    requires c.Valid(a)
    ensures RewriteCommand(c).Valid(a) && RewriteCommand(c).Size(a) == c.Size(a)
    ensures c.Segment? ==> SegmentStart(a, RewriteCommand(c)) == SegmentStart(a, c)
  {
    hide RewriteSections, Put32, PutP;
  }

  lemma CommandSquare(a: Arch, c: Command, pre: seq<Byte>, post: seq<Byte>)
    requires c.Valid(a)
    ensures RewriteCommand(c).Valid(a)
    ensures var b := pre + CommandBytes(a, c) + post;
            && CmdOk(a, b, |pre|)
            && DoCmd(a, b, |pre|) == pre + CommandBytes(a, RewriteCommand(c)) + post
  {
    hide Read32, SectionsBytes, DoSections, SegmentHead, RewriteSections, SegmentStart;
    CommandWords(a, c, pre, post);
    RewriteCommandKeeps(a, c);
    if c.Segment? {
      SegmentSplits(a, c, pre, post);
      SegmentSplits(a, RewriteCommand(c), pre, post);
      SectionsSquare(a, c.sections, pre + SegmentStart(a, c), c.extra + post);
    }
  }

  // ---------- all of them ----------

  lemma RewriteCommandsTail(a: Arch, cs: seq<Command>)
    requires cs != [] && AllValid(a, cs)
    ensures var r := RewriteCommands(cs);
            r[0] == RewriteCommand(cs[0]) && r[1..] == RewriteCommands(cs[1..])
    ensures cs[0].Valid(a) && AllValid(a, cs[1..])
  {
    hide RewriteCommand;
  }

  lemma RewriteCommandsValid(a: Arch, cs: seq<Command>)
    requires AllValid(a, cs)
    ensures AllValid(a, RewriteCommands(cs))
  {
    hide RewriteCommand;
    forall i | 0 <= i < |cs| ensures RewriteCommands(cs)[i].Valid(a) {
      RewriteCommandKeeps(a, cs[i]);
    }
  }

  lemma {:induction false} CommandsSquare(a: Arch, cs: seq<Command>, pre: seq<Byte>, post: seq<Byte>)
    requires AllValid(a, cs)
    ensures AllValid(a, RewriteCommands(cs))
    ensures |CommandsBytes(a, RewriteCommands(cs))| == |CommandsBytes(a, cs)|
    ensures var b := pre + CommandsBytes(a, cs) + post;
            && CmdsOk(a, b, |pre|, |cs|)
            && DoCmds(a, b, |pre|, |cs|) == pre + CommandsBytes(a, RewriteCommands(cs)) + post
    decreases |cs|
  {
    hide DoCmd, CmdOk, CommandBytes, RewriteCommand, RewriteCommands, Read32;
    RewriteCommandsValid(a, cs);
    if cs == [] {
      assert RewriteCommands(cs) == [];
    } else {
      var r := RewriteCommands(cs);
      RewriteCommandsTail(a, cs);
      var v, w, rest := CommandBytes(a, cs[0]), CommandBytes(a, r[0]), CommandsBytes(a, cs[1..]);
      var b := pre + CommandsBytes(a, cs) + post;
      assert b == pre + v + (rest + post);
      CommandWords(a, cs[0], pre, rest + post);
      CommandSquare(a, cs[0], pre, rest + post);
      RewriteCommandKeeps(a, cs[0]);
      assert pre + w + (rest + post) == (pre + w) + rest + post;
      CommandsSquare(a, cs[1..], pre + w, post);
      assert (pre + w) + CommandsBytes(a, r[1..]) + post == pre + (w + CommandsBytes(a, r[1..])) + post;
    }
  }

  // ---------- a whole image ----------

  lemma RewriteKeeps(a: Arch, m: Image)
    requires m.Valid(a)
    ensures Rewrite(m).Valid(a) && HeaderBytes(a, Rewrite(m)) == HeaderBytes(a, m)
    ensures |ImageBytes(a, Rewrite(m))| == |ImageBytes(a, m)|
  {
    hide Put32, CommandsBytes, RewriteCommands;
    CommandsSquare(a, m.commands, [], []);
  }

  lemma MagicBytes(e: Endian)
    ensures Put32(e, MH_MAGIC) == Put32(e.Other(), MH_CIGAM)
    ensures Put32(e, MH_MAGIC_64) == Put32(e.Other(), MH_CIGAM_64)
  {
    hide Put32;
    var b, b64 := [0xFE, 0xED, 0xFA, 0xCE], [0xFE, 0xED, 0xFA, 0xCF];
    if e.Little? {
      b, b64 := [0xCE, 0xFA, 0xED, 0xFE], [0xCF, 0xFA, 0xED, 0xFE];
    }
    PutOfGet(e, b);
    PutOfGet(e, b64);
    PutOfGet(e.Other(), b);
    PutOfGet(e.Other(), b64);
  }

  /** A magic number written in one byte order and read in the other. */
  lemma MagicSelects(host: Endian, a: Arch)
    ensures ArchOf(host, Get32(host, Put32(a.e, if a.is64 then MH_MAGIC_64 else MH_MAGIC))) == Some(a)
  {
    hide Put32, Get32;
    MagicBytes(a.e);
    GetOfPut(host, if a.is64 then MH_MAGIC_64 else MH_MAGIC);
    GetOfPut(host, if a.is64 then MH_CIGAM_64 else MH_CIGAM);
  }

  lemma HeaderWords(host: Endian, a: Arch, m: Image, pre: seq<Byte>, post: seq<Byte>)
    requires m.Valid(a)
    ensures var b := pre + HeaderBytes(a, m) + post;
            && ArchAt(host, b, |pre|) == Some(a)
            && Read32(a.e, b, |pre| + NCMDS_AT) == |m.commands|
  {
    hide Put32, Get32, ArchOf, CommandsBytes;
    var h, magic := HeaderBytes(a, m), Put32(a.e, if a.is64 then MH_MAGIC_64 else MH_MAGIC);
    var b := pre + h + post;
    assert h[..4] == magic;
    assert b[|pre|..|pre| + 4] == magic;
    MagicSelects(host, a);
    var n := |m.commands|;
    assert h == h[..16] + Put32(a.e, n) + h[20..];
    assert b == (pre + h[..16]) + Put32(a.e, n) + (h[20..] + post);
    ReadPut(a.e, pre + h[..16], n, h[20..] + post);
  }

  /** The square: for every width and byte order, on either host, and wherever the image lies,
      the bytes of an image become the bytes of its rewrite and nothing around it changes. */
  lemma ImageSquare(host: Endian, a: Arch, m: Image, pre: seq<Byte>, post: seq<Byte>)
    requires m.Valid(a)
    ensures Rewrite(m).Valid(a)
    ensures var b := pre + ImageBytes(a, m) + post;
            && MachoOk(host, b, |pre|) && ArchAt(host, b, |pre|) == Some(a)
            && DoMacho(host, b, |pre|) == pre + ImageBytes(a, Rewrite(m)) + post
  {
    hide ArchAt, Read32, CmdsOk, DoCmds, HeaderBytes, CommandsBytes, AllValid, RewriteCommands;
    var h, c := HeaderBytes(a, m), CommandsBytes(a, m.commands);
    RewriteKeeps(a, m);
    CommandsSquare(a, m.commands, pre + h, m.body + post);
    HeaderWords(host, a, m, pre, c + m.body + post);
    assert pre + ImageBytes(a, m) + post == pre + h + (c + m.body + post) == (pre + h) + c + (m.body + post);
    var d := CommandsBytes(a, Rewrite(m).commands);
    assert pre + ImageBytes(a, Rewrite(m)) + post == (pre + h) + d + (m.body + post);
  }

  lemma NotFat(host: Endian, b: seq<Byte>)
    requires |b| >= 4 && ArchAt(host, b, 0).Some?
    ensures !IsFat(host, b)
  {
    hide Read32;
  }

  /** A file that begins with the magic number of an image is handled as one. */
  lemma ThinIsMacho(host: Endian, b: seq<Byte>)
    requires |b| >= 4 && MachoOk(host, b, 0) && ArchAt(host, b, 0).Some?
    ensures FileOk(host, b) && DoFile(host, b) == (true, DoMacho(host, b, 0))
  {
    hide MachoOk, DoMacho, SlicesOk, DoSlices, Read32, Declared, Count, IsFat, ArchAt, TableSize;
    NotFat(host, b);
  }

  lemma NothingAround(b: seq<Byte>)
    ensures [] + b + [] == b
  {
  }

  lemma ImageAlone(host: Endian, a: Arch, m: Image)
    requires m.Valid(a)
    ensures var b := ImageBytes(a, m);
            && Rewrite(m).Valid(a) && |b| >= 4 && MachoOk(host, b, 0) && ArchAt(host, b, 0) == Some(a)
            && DoMacho(host, b, 0) == ImageBytes(a, Rewrite(m))
  {
    hide MachoOk, DoMacho, ImageBytes, Rewrite, ArchAt;
    ImageSquare(host, a, m, [], []);
    NothingAround(ImageBytes(a, m));
    NothingAround(ImageBytes(a, Rewrite(m)));
  }

  lemma ThinOnce(host: Endian, a: Arch, m: Image)
    requires m.Valid(a)
    ensures var b := ImageBytes(a, m);
            && FileOk(host, b) && DoFile(host, b).0 && Rewrite(m).Valid(a)
            && DoFile(host, b).1 == ImageBytes(a, Rewrite(m))
  {
    hide MachoOk, DoMacho, ImageBytes, Rewrite, FileOk, DoFile, ArchAt;
    ImageAlone(host, a, m);
    ThinIsMacho(host, ImageBytes(a, m));
  }

  /** A thin file: no disabled section remains to be disabled, and a second run changes nothing. */
  lemma ThinFile(host: Endian, a: Arch, m: Image)
    requires m.Valid(a)
    ensures var b := ImageBytes(a, m);
            && FileOk(host, b) && DoFile(host, b).0 && Rewrite(m).Valid(a)
            && DoFile(host, b).1 == ImageBytes(a, Rewrite(m))
            && FileOk(host, DoFile(host, b).1)
            && DoFile(host, DoFile(host, b).1) == DoFile(host, b)
  {
    hide MachoOk, DoMacho, ImageBytes, Rewrite, SlicesOk, DoSlices;
    ThinOnce(host, a, m);
    ImageSquare(host, a, m, [], []);
    ThinOnce(host, a, Rewrite(m));
    RewriteIdempotent(m);
  }

  // ---------- which bytes of a file can change ----------

  /** Byte `k` of a section lies in its name or its flags, and the section is one to be disabled. */
  predicate InField(a: Arch, s: Section, k: nat) {
    NewName(s) != [] && (k < 16 || FlagsAt(a) <= k < FlagsAt(a) + 4)
  }

  ghost predicate InSections(a: Arch, ss: seq<Section>, k: nat) {
    exists j: nat | j < |ss| :: Span(j, SectSize(a)) <= k && InField(a, ss[j], k - Span(j, SectSize(a)))
  }

  ghost predicate InCommand(a: Arch, c: Command, k: nat) {
    c.Segment? && SegSize(a) <= k && InSections(a, c.sections, k - SegSize(a))
  }

  /** Where a load command begins, behind the header. */
  function CommandAt(a: Arch, cs: seq<Command>, i: nat): nat
    requires i <= |cs|
  {
    if i == 0 then 0 else cs[0].Size(a) + CommandAt(a, cs[1..], i - 1)
  }

  ghost predicate InCommands(a: Arch, cs: seq<Command>, k: nat) {
    exists i: nat | i < |cs| :: CommandAt(a, cs, i) <= k && InCommand(a, cs[i], k - CommandAt(a, cs, i))
  }

  ghost predicate InImage(a: Arch, m: Image, k: nat) {
    HeaderSize(a) <= k && InCommands(a, m.commands, k - HeaderSize(a))
  }

  lemma FieldOf(a: Arch, s: Section, k: nat)
    requires NewName(s) != [] && (k < 16 || FlagsAt(a) <= k < FlagsAt(a) + 4)
    ensures InField(a, s, k)
  {
  }

  lemma {:induction false} SectionsFrame(a: Arch, ss: seq<Section>, k: nat)
    requires k < |SectionsBytes(a, ss)| && SectionsBytes(a, RewriteSections(ss))[k] != SectionsBytes(a, ss)[k]
    ensures InSections(a, ss, k)
    decreases |ss|
  {
    hide SectionBytes, RewriteSection, RewriteSections, InField;
    if ss != [] {
      RewriteSectionsTail(ss);
      var n := SectSize(a);
      if k < n {
        SectionFrame(a, ss[0], k);
        FieldOf(a, ss[0], k);
        assert Span(0, n) == 0;
      } else {
        SectionsFrame(a, ss[1..], k - n);
        var j: nat :| j < |ss[1..]| && Span(j, n) <= k - n && InField(a, ss[1..][j], k - n - Span(j, n));
        assert ss[1..][j] == ss[j + 1] && Span(j + 1, n) == n + Span(j, n);
      }
    }
  }

  lemma SegmentParts(a: Arch, c: Command)
    requires c.Segment? && c.Valid(a)
    ensures CommandBytes(a, c) == SegmentStart(a, c) + SectionsBytes(a, c.sections) + c.extra
  {
    hide Put32, SegmentHead, SectionsBytes;
  }

  lemma CommandFrame(a: Arch, c: Command, k: nat)
    requires c.Valid(a) && RewriteCommand(c).Valid(a) && k < c.Size(a)
    requires CommandBytes(a, RewriteCommand(c))[k] != CommandBytes(a, c)[k]
    ensures InCommand(a, c, k)
  {
    hide SectionsBytes, SegmentHead, RewriteSections, SegmentStart, InSections, Put32;
    if c.Segment? {
      var r, h := RewriteCommand(c), SegSize(a);
      RewriteCommandKeeps(a, c);
      SegmentParts(a, c);
      SegmentParts(a, r);
      var x, y := SectionsBytes(a, c.sections), SectionsBytes(a, r.sections);
      if h <= k < h + |x| {
        assert CommandBytes(a, c)[k] == x[k - h] && CommandBytes(a, r)[k] == y[k - h];
        SectionsFrame(a, c.sections, k - h);
      }
    }
  }

  lemma {:induction false} CommandsFrame(a: Arch, cs: seq<Command>, k: nat)
    requires AllValid(a, cs) && AllValid(a, RewriteCommands(cs))
    requires k < |CommandsBytes(a, cs)| == |CommandsBytes(a, RewriteCommands(cs))|
    requires CommandsBytes(a, RewriteCommands(cs))[k] != CommandsBytes(a, cs)[k]
    ensures InCommands(a, cs, k)
    decreases |cs|
  {
    hide CommandBytes, RewriteCommand, RewriteCommands, InCommand;
    if cs != [] {
      var r, n := RewriteCommands(cs), cs[0].Size(a);
      RewriteCommandsTail(a, cs);
      RewriteCommandKeeps(a, cs[0]);
      if k < n {
        CommandFrame(a, cs[0], k);
        assert CommandAt(a, cs, 0) == 0;
      } else {
        RewriteCommandsValid(a, cs[1..]);
        CommandsFrame(a, cs[1..], k - n);
        var i: nat :| i < |cs[1..]| && CommandAt(a, cs[1..], i) <= k - n
                      && InCommand(a, cs[1..][i], k - n - CommandAt(a, cs[1..], i));
        assert cs[1..][i] == cs[i + 1] && CommandAt(a, cs, i + 1) == n + CommandAt(a, cs[1..], i);
      }
    }
  }

  /** Every byte of an image that its rewrite changes lies in the name or the flags of a section
      that is disabled. */
  lemma ImageFrame(a: Arch, m: Image, k: nat)
    requires m.Valid(a) && Rewrite(m).Valid(a) && k < |ImageBytes(a, m)| == |ImageBytes(a, Rewrite(m))|
    requires ImageBytes(a, Rewrite(m))[k] != ImageBytes(a, m)[k]
    ensures InImage(a, m, k)
  {
    RewriteKeeps(a, m);
    CommandsSquare(a, m.commands, [], []);
    hide HeaderBytes, CommandsBytes, RewriteCommands, InCommands, AllValid, CmdsOk, DoCmds;
    var h, c, d := HeaderBytes(a, m), CommandsBytes(a, m.commands), CommandsBytes(a, Rewrite(m).commands);
    assert ImageBytes(a, m) == h + c + m.body && ImageBytes(a, Rewrite(m)) == h + d + m.body;
    if |h| <= k < |h| + |c| {
      CommandsFrame(a, m.commands, k - |h|);
    }
  }

  /** The frame of a run on a thin file. */
  lemma ThinFrame(host: Endian, a: Arch, m: Image, k: nat)
    requires m.Valid(a) && k < |ImageBytes(a, m)| && FileOk(host, ImageBytes(a, m))
    ensures DoFile(host, ImageBytes(a, m)).1[k] != ImageBytes(a, m)[k] ==> InImage(a, m, k)
  {
    hide ImageBytes, Rewrite, FileOk, DoFile, InImage;
    ThinOnce(host, a, m);
    RewriteKeeps(a, m);
    if ImageBytes(a, Rewrite(m))[k] != ImageBytes(a, m)[k] {
      ImageFrame(a, m, k);
    }
  }
}
