/** The parts of the Mach-O format that markgc touches: the byte layout of headers, load
    commands and sections, for both widths and byte orders. */
module MachO {
  import opened Bytes

  /** One of the four instances of the pointer templates. */
  datatype Arch = Arch(is64: bool, e: Endian)

  const LC_SEGMENT: Word32 := 0x1
  const LC_SEGMENT_64: Word32 := 0x19

  function HeaderSize(a: Arch): nat { if a.is64 then 32 else 28 }
  function SegSize(a: Arch): nat { if a.is64 then 72 else 56 }
  function NsectsAt(a: Arch): nat { if a.is64 then 64 else 48 }
  function SectSize(a: Arch): nat { if a.is64 then 80 else 68 }
  function FlagsAt(a: Arch): nat { if a.is64 then 64 else 56 }

  const NCMDS_AT: nat := 16

  function Read32(e: Endian, b: seq<Byte>, at: nat): Word32
    requires at + 4 <= |b|
  {
    Get32(e, b[at..at + 4])
  }

  /** Overwrite the bytes at `at` with `w`. */
  function Splice(b: seq<Byte>, at: nat, w: seq<Byte>): (r: seq<Byte>)
    requires at + |w| <= |b|
    ensures |r| == |b|
  {
    b[..at] + w + b[at + |w|..]
  }

  // ---------- names ----------

  /** strncmp(lhs, rhs, n) == 0: equal up to n characters or a common terminator. */
  predicate StrnEqual(lhs: seq<Byte>, rhs: seq<Byte>, n: nat)
    requires n <= |lhs| && n <= |rhs|
  {
    n == 0 || (lhs[0] == rhs[0] && (lhs[0] == 0 || StrnEqual(lhs[1..], rhs[1..], n - 1)))
  }

  /** With a text of k characters on the right, the comparison is of those characters and
      the terminator, as far as they fall within n. */
  lemma {:induction false} StrnEqualIff(lhs: seq<Byte>, rhs: seq<Byte>, n: nat, k: nat)
    requires k <= n <= |lhs| && n <= |rhs|
    requires (forall i | 0 <= i < k :: rhs[i] != 0) && (k < n ==> rhs[k] == 0)
    ensures var t := if k < n then k + 1 else n;
            StrnEqual(lhs, rhs, n) <==> lhs[..t] == rhs[..t]
  {
    if n > 0 && k > 0 {
      var t := if k < n then k + 1 else n;
      StrnEqualIff(lhs[1..], rhs[1..], n - 1, k - 1);
      assert lhs[..t] == [lhs[0]] + lhs[1..][..t - 1] && rhs[..t] == [rhs[0]] + rhs[1..][..t - 1];
    } else if n > 0 {
      assert lhs[..1] == [lhs[0]] && rhs[..1] == [rhs[0]];
    }
  }

  const DATA_PREFIX: seq<Byte> := // __DATA
    [0x5F, 0x5F, 0x44, 0x41, 0x54, 0x41]
  const TEXT_PREFIX: seq<Byte> := // __TEXT
    [0x5F, 0x5F, 0x54, 0x45, 0x58, 0x54]
  const MOD_INIT: seq<Byte> := // __mod_init_func
    [0x5F, 0x5F, 0x6D, 0x6F, 0x64, 0x5F, 0x69, 0x6E, 0x69, 0x74, 0x5F, 0x66, 0x75, 0x6E, 0x63, 0]
  const INIT_OFFSETS: seq<Byte> := // __init_offsets
    [0x5F, 0x5F, 0x69, 0x6E, 0x69, 0x74, 0x5F, 0x6F, 0x66, 0x66, 0x73, 0x65, 0x74, 0x73, 0, 0]
  const MOD_TERM: seq<Byte> := // __mod_term_func
    [0x5F, 0x5F, 0x6D, 0x6F, 0x64, 0x5F, 0x74, 0x65, 0x72, 0x6D, 0x5F, 0x66, 0x75, 0x6E, 0x63, 0]
  const OBJC_INIT: seq<Byte> := // __objc_init_func
    [0x5F, 0x5F, 0x6F, 0x62, 0x6A, 0x63, 0x5F, 0x69, 0x6E, 0x69, 0x74, 0x5F, 0x66, 0x75, 0x6E, 0x63]
  const OBJC_OFFS: seq<Byte> := // __objc_init_offs
    [0x5F, 0x5F, 0x6F, 0x62, 0x6A, 0x63, 0x5F, 0x69, 0x6E, 0x69, 0x74, 0x5F, 0x6F, 0x66, 0x66, 0x73]
  const OBJC_TERM: seq<Byte> := // __objc_term_func
    [0x5F, 0x5F, 0x6F, 0x62, 0x6A, 0x63, 0x5F, 0x74, 0x65, 0x72, 0x6D, 0x5F, 0x66, 0x75, 0x6E, 0x63]

  predicate InData(segname: seq<Byte>)
    requires |segname| == 16
  {
    StrnEqual(segname, DATA_PREFIX, 6)
  }

  predicate InText(segname: seq<Byte>)
    requires |segname| == 16
  {
    StrnEqual(segname, TEXT_PREFIX, 6)
  }

  predicate Named(sectname: seq<Byte>, name: seq<Byte>)
    requires |sectname| == 16 == |name|
  {
    StrnEqual(sectname, name, 16)
  }

  // ---------- values ----------

  type Name16 = n: seq<Byte> | |n| == 16 witness seq(16, i => 0)
  type Word64 = w: int | 0 <= w < 0x1_0000_0000_0000_0000

  function PutP(a: Arch, w: Word64): (b: seq<Byte>)
    ensures |b| == if a.is64 then 8 else 4
  {
    var hi, lo := w / 0x1_0000_0000, w % 0x1_0000_0000;
    if !a.is64 then Put32(a.e, lo)
    else if a.e.Big? then Put32(Big, hi) + Put32(Big, lo)
    else Put32(Little, lo) + Put32(Little, hi)
  }

  datatype Section = Section(
    sectname: Name16, segname: Name16, addr: Word64, size: Word64, offset: Word32, align: Word32,
    reloff: Word32, nreloc: Word32, flags: Word32, reserved1: Word32, reserved2: Word32, reserved3: Word32)

  function Middle(a: Arch, s: Section): (b: seq<Byte>)
    ensures |b| == FlagsAt(a) - 32
  {
    PutP(a, s.addr) + PutP(a, s.size)
    + (Put32(a.e, s.offset) + Put32(a.e, s.align) + Put32(a.e, s.reloff) + Put32(a.e, s.nreloc))
  }

  function Reserved(a: Arch, s: Section): (b: seq<Byte>)
    ensures |b| == SectSize(a) - FlagsAt(a) - 4
  {
    Put32(a.e, s.reserved1) + Put32(a.e, s.reserved2) + (if a.is64 then Put32(a.e, s.reserved3) else [])
  }

  function SectionBytes(a: Arch, s: Section): (b: seq<Byte>)
    ensures |b| == SectSize(a)
  {
    s.sectname + s.segname + Middle(a, s) + Put32(a.e, s.flags) + Reserved(a, s)
  }

  /** The extent of `n` consecutive records. */
  function Span(n: nat, size: nat): nat {
    if n == 0 then 0 else size + Span(n - 1, size)
  }

  lemma {:induction false} SpanIsProduct(n: nat, size: nat)
    ensures Span(n, size) == n * size
  {
    if n > 0 {
      SpanIsProduct(n - 1, size);
    }
  }

  lemma {:induction false} SpanAdds(m: nat, n: nat, size: nat)
    ensures Span(m + n, size) == Span(m, size) + Span(n, size)
  {
    if m > 0 {
      SpanAdds(m - 1, n, size);
    }
  }

  function SectionsBytes(a: Arch, ss: seq<Section>): (b: seq<Byte>)
    ensures |b| == Span(|ss|, SectSize(a))
  {
    if ss == [] then [] else SectionBytes(a, ss[0]) + SectionsBytes(a, ss[1..])
  }

  /** A load command; `extra` is whatever the command size covers beyond the known fields. */
  datatype Command =
    | Segment(cmd: Word32, segname: Name16, vmaddr: Word64, vmsize: Word64, fileoff: Word64, filesize: Word64,
              maxprot: Word32, initprot: Word32, flags: Word32, sections: seq<Section>, extra: seq<Byte>)
    | Other(cmd: Word32, extra: seq<Byte>)
  {
    function Size(a: Arch): nat {
      if Segment? then SegSize(a) + Span(|sections|, SectSize(a)) + |extra| else 8 + |extra|
    }

    predicate Valid(a: Arch) {
      && Size(a) < 0x1_0000_0000
      && ((cmd == LC_SEGMENT || cmd == LC_SEGMENT_64) <==> Segment?)
      && (Segment? ==> |sections| < 0x1_0000_0000)
    }
  }

  function SegmentHead(a: Arch, c: Command): (b: seq<Byte>)
    requires c.Segment? && c.Valid(a)
    ensures |b| == NsectsAt(a)
  {
    Put32(a.e, c.cmd) + Put32(a.e, c.Size(a)) + c.segname
    + (PutP(a, c.vmaddr) + PutP(a, c.vmsize) + PutP(a, c.fileoff) + PutP(a, c.filesize))
    + (Put32(a.e, c.maxprot) + Put32(a.e, c.initprot))
  }

  function CommandBytes(a: Arch, c: Command): (b: seq<Byte>)
    requires c.Valid(a)
    ensures |b| == c.Size(a)
  {
    if c.Segment? then
      SegmentHead(a, c) + Put32(a.e, |c.sections|) + Put32(a.e, c.flags) + SectionsBytes(a, c.sections) + c.extra
    else Put32(a.e, c.cmd) + Put32(a.e, c.Size(a)) + c.extra
  }

  predicate AllValid(a: Arch, cs: seq<Command>) {
    forall i | 0 <= i < |cs| :: cs[i].Valid(a)
  }

  function CommandsBytes(a: Arch, cs: seq<Command>): seq<Byte>
    requires AllValid(a, cs)
  {
    if cs == [] then [] else CommandBytes(a, cs[0]) + CommandsBytes(a, cs[1..])
  }

  /** A whole image: header, load commands, and the file contents behind them. */
  datatype Image = Image(cputype: Word32, cpusubtype: Word32, filetype: Word32, flags: Word32, reserved: Word32,
                         commands: seq<Command>, body: seq<Byte>)
  {
    predicate Valid(a: Arch) {
      && |commands| < 0x1_0000_0000
      && AllValid(a, commands)
      && |CommandsBytes(a, commands)| < 0x1_0000_0000
    }
  }

  const MH_MAGIC: Word32 := 0xFEED_FACE
  const MH_MAGIC_64: Word32 := 0xFEED_FACF
  const MH_CIGAM: Word32 := 0xCEFA_EDFE
  const MH_CIGAM_64: Word32 := 0xCFFA_EDFE

  function HeaderBytes(a: Arch, m: Image): (b: seq<Byte>)
    requires m.Valid(a)
    ensures |b| == HeaderSize(a)
  {
    (Put32(a.e, if a.is64 then MH_MAGIC_64 else MH_MAGIC)
     + Put32(a.e, m.cputype) + Put32(a.e, m.cpusubtype) + Put32(a.e, m.filetype))
    + Put32(a.e, |m.commands|)
    + (Put32(a.e, |CommandsBytes(a, m.commands)|) + Put32(a.e, m.flags)
       + (if a.is64 then Put32(a.e, m.reserved) else []))
  }

  function ImageBytes(a: Arch, m: Image): (b: seq<Byte>)
    requires m.Valid(a)
    ensures |b| >= HeaderSize(a)
  {
    HeaderBytes(a, m) + CommandsBytes(a, m.commands) + m.body
  }

  // ---------- the rewrite, on values ----------

  /** What a section is renamed to, if it is one of those that are disabled. */
  function NewName(s: Section): (r: seq<Byte>)
    ensures r == [] || |r| == 16
  {
    if InData(s.segname) && Named(s.sectname, MOD_INIT) then OBJC_INIT
    else if InText(s.segname) && Named(s.sectname, INIT_OFFSETS) then OBJC_OFFS
    else if InData(s.segname) && Named(s.sectname, MOD_TERM) then OBJC_TERM
    else []
  }

  /** Disabled sections get the new name and section type 0; nothing else changes. */
  function RewriteSection(s: Section): Section {
    if NewName(s) == [] then s else s.(sectname := NewName(s), flags := s.flags - s.flags % 0x100)
  }

  /** The characters of a name. */
  function Text(s: string): (b: seq<Byte>)
    requires forall i | 0 <= i < |s| :: s[i] < 128 as char
    ensures |b| == |s|
  {
    seq(|s|, i requires 0 <= i < |s| => s[i] as int)
  }

  lemma TextsAre()
    ensures Text("__DATA") == DATA_PREFIX && Text("__TEXT") == TEXT_PREFIX
    ensures Text("__mod_init_func") + [0] == MOD_INIT && Text("__init_offsets") + [0, 0] == INIT_OFFSETS
    ensures Text("__mod_term_func") + [0] == MOD_TERM
    ensures Text("__objc_init_func") == OBJC_INIT && Text("__objc_init_offs") == OBJC_OFFS
    ensures Text("__objc_term_func") == OBJC_TERM
  {
  }

  lemma PrefixIff(n: seq<Byte>, rhs: seq<Byte>, k: nat)
    requires |rhs| == k <= |n| && forall i | 0 <= i < k :: rhs[i] != 0
    ensures StrnEqual(n, rhs, k) <==> n[..k] == rhs
  {
    StrnEqualIff(n, rhs, k, k);
    assert rhs[..k] == rhs;
  }

  lemma NamedIff(n: seq<Byte>, name: seq<Byte>, k: nat)
    requires |n| == 16 == |name| && k < 16 && name[k] == 0 && forall i | 0 <= i < k :: name[i] != 0
    ensures Named(n, name) <==> n[..k + 1] == name[..k + 1]
  {
    StrnEqualIff(n, name, 16, k);
  }

  /** Which sections are disabled, and what they are renamed to. */
  lemma NewNameIs(s: Section)
    ensures var data, text := s.segname[..6] == Text("__DATA"), s.segname[..6] == Text("__TEXT");
            NewName(s) ==
              if data && s.sectname == Text("__mod_init_func") + [0] then Text("__objc_init_func")
              else if text && s.sectname[..15] == Text("__init_offsets") + [0] then Text("__objc_init_offs")
              else if data && s.sectname == Text("__mod_term_func") + [0] then Text("__objc_term_func")
              else []
  {
    hide StrnEqual, Text;
    TextsAre();
    PrefixIff(s.segname, DATA_PREFIX, 6);
    PrefixIff(s.segname, TEXT_PREFIX, 6);
    NamedIff(s.sectname, MOD_INIT, 15);
    NamedIff(s.sectname, INIT_OFFSETS, 14);
    NamedIff(s.sectname, MOD_TERM, 15);
    assert s.sectname[..16] == s.sectname && MOD_INIT[..16] == MOD_INIT && MOD_TERM[..16] == MOD_TERM;
    assert INIT_OFFSETS[..15] == Text("__init_offsets") + [0];
  }

  /** A disabled section has its new name and section type 0, with the attributes it had; nothing
      else of it changes, and no other section does. */
  lemma RewriteSectionIs(s: Section)
    ensures NewName(s) == [] ==> RewriteSection(s) == s
    ensures NewName(s) != [] ==>
              var r := RewriteSection(s);
              && r.sectname == NewName(s) && r.flags % 0x100 == 0 && r.flags / 0x100 == s.flags / 0x100
              && r.(sectname := s.sectname, flags := s.flags) == s
  {
    hide NewName;
  }

  function RewriteSections(ss: seq<Section>): (r: seq<Section>)
    ensures |r| == |ss|
  {
    seq(|ss|, i requires 0 <= i < |ss| => RewriteSection(ss[i]))
  }

  function RewriteCommand(c: Command): Command {
    if c.Segment? then c.(sections := RewriteSections(c.sections)) else c
  }

  function RewriteCommands(cs: seq<Command>): (r: seq<Command>)
    ensures |r| == |cs|
  {
    seq(|cs|, i requires 0 <= i < |cs| => RewriteCommand(cs[i]))
  }

  function Rewrite(m: Image): Image {
    m.(commands := RewriteCommands(m.commands))
  }

  lemma ThirdLetter(n: seq<Byte>, name: seq<Byte>)
    requires |n| == 16 == |name| && n[0] == 0x5F && n[1] == 0x5F && name[2] != n[2]
    ensures !Named(n, name)
  {
    var a, b := n[1..], name[1..];
    assert a[1..][0] == n[2] && b[1..][0] == name[2];
    assert !StrnEqual(a, b, 15);
  }

  lemma RenamedIsDone(s: Section)
    requires NewName(s) != []
    ensures NewName(RewriteSection(s)) == []
  {
    var n := NewName(s);
    ThirdLetter(n, MOD_INIT);
    ThirdLetter(n, INIT_OFFSETS);
    ThirdLetter(n, MOD_TERM);
  }

  /** No matching section remains, so rewriting twice is the same as rewriting once. */
  lemma RewriteIdempotent(m: Image)
    ensures Rewrite(Rewrite(m)) == Rewrite(m)
    ensures forall i, j | 0 <= i < |m.commands| && m.commands[i].Segment? && 0 <= j < |m.commands[i].sections| ::
              NewName(Rewrite(m).commands[i].sections[j]) == []
  {
    forall i | 0 <= i < |m.commands| && m.commands[i].Segment?
      ensures RewriteSections(RewriteSections(m.commands[i].sections)) == RewriteSections(m.commands[i].sections)
      ensures forall j | 0 <= j < |m.commands[i].sections| :: NewName(RewriteSections(m.commands[i].sections)[j]) == []
    {
      var ss := m.commands[i].sections;
      forall j | 0 <= j < |ss| ensures NewName(RewriteSection(ss[j])) == [] {
        if NewName(ss[j]) != [] {
          RenamedIsDone(ss[j]);
        }
      }
    }
  }
}
