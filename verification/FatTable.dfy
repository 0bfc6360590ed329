/** What markgc does to a fat file, told by the bytes of its header and table. */
module FatTable {
  import opened Bytes
  import opened MachO
  import opened MarkGC
  import opened MarkGCSquare
  import opened FatFiles

  /** A table entry; all words are stored most significant byte first. */
  datatype Entry = Entry(cputype: Word32, cpusubtype: Word32, at: Word32, size: Word32, align: Word32)

  function EntryBytes(e: Entry): (b: seq<Byte>)
    ensures |b| == 20
  {
    Put32(Big, e.cputype) + Put32(Big, e.cpusubtype) + Put32(Big, e.at) + Put32(Big, e.size) + Put32(Big, e.align)
  }

  /** The first eight bytes: the magic number in either order, and the number of entries. */
  predicate Header(b: seq<Byte>, declared: Word32) {
    && |b| >= 8
    && (b[..4] == [0xCA, 0xFE, 0xBA, 0xBE] || b[..4] == [0xBE, 0xBA, 0xFE, 0xCA])
    && b[4..8] == Put32(Big, declared)
  }

  /** Behind the declared entries stands one more, for a 64-bit ARM processor. */
  predicate OneMore(b: seq<Byte>, declared: Word32) {
    && declared > 0 && 28 + 20 * declared <= |b|
    && b[8 + 20 * declared..12 + 20 * declared] == Put32(Big, 0x0100_000C)
  }

  /** The header and the table `es`, with the additional entry if there is one. */
  predicate Table(b: seq<Byte>, declared: Word32, es: seq<Entry>) {
    && Header(b, declared) && declared < 0xFFFF_FFFF && 8 + 20 * |es| <= |b|
    && |es| == (if OneMore(b, declared) then declared + 1 else declared)
    && forall i | 0 <= i < |es| :: b[8 + 20 * i..28 + 20 * i] == EntryBytes(es[i])
  }

  /** The images that the entries describe are where they say, behind the table and apart. */
  predicate Holds(b: seq<Byte>, es: seq<Entry>, ss: seq<Slice>) {
    && |ss| == |es|
    && (forall i | 0 <= i < |ss| ::
          && ss[i].Valid() && es[i].at == ss[i].at && es[i].size == |ss[i].Bytes()|
          && 8 + 20 * |es| <= ss[i].at && ss[i].at + |ss[i].Bytes()| <= |b|
          && b[ss[i].at..ss[i].at + |ss[i].Bytes()|] == ss[i].Bytes())
    && (forall i, j | 0 <= i < j < |ss| ::
          ss[i].at + |ss[i].Bytes()| <= ss[j].at || ss[j].at + |ss[j].Bytes()| <= ss[i].at)
  }

  // ---------- what the program reads ----------

  lemma MagicBytes4(b: seq<Byte>, w: Word32, e: Endian)
    requires |b| >= 4
    ensures Read32(e, b, 0) == w <==> b[..4] == Put32(e, w)
  {
    assert b[0..4] == b[..4];
    PutOfGet(e, b[..4]);
    GetOfPut(e, w);
  }

  lemma FatMagics()
    ensures Put32(Big, FAT_MAGIC) == Put32(Little, FAT_CIGAM) == [0xCA, 0xFE, 0xBA, 0xBE]
    ensures Put32(Big, FAT_CIGAM) == Put32(Little, FAT_MAGIC) == [0xBE, 0xBA, 0xFE, 0xCA]
  {
  }

  /** A file is taken for a fat one by its first four bytes, whatever the host. */
  lemma IsFatIff(host: Endian, b: seq<Byte>)
    ensures IsFat(host, b) <==>
            |b| >= 4 && (b[..4] == [0xCA, 0xFE, 0xBA, 0xBE] || b[..4] == [0xBE, 0xBA, 0xFE, 0xCA])
  {
    hide Put32, Read32;
    if |b| >= 4 {
      MagicBytes4(b, FAT_MAGIC, host);
      MagicBytes4(b, FAT_CIGAM, host);
      FatMagics();
    }
  }

  /** A word at a place of the file. */
  lemma WordAt(b: seq<Byte>, at: nat, w: Word32)
    requires at + 4 <= |b|
    ensures Read32(Big, b, at) == w <==> b[at..at + 4] == Put32(Big, w)
  {
    PutOfGet(Big, b[at..at + 4]);
    GetOfPut(Big, w);
  }

  lemma HeaderReads(host: Endian, b: seq<Byte>, declared: Word32)
    requires Header(b, declared)
    ensures IsFat(host, b) && Declared(b) == declared && (Hidden(b) <==> OneMore(b, declared))
  {
    hide Put32, Read32;
    IsFatIff(host, b);
    WordAt(b, 4, declared);
    if 28 + 20 * declared <= |b| {
      WordAt(b, 8 + 20 * declared, CPU_TYPE_ARM64);
    }
  }

  lemma FieldAt(b: seq<Byte>, at: nat, e: Entry, k: nat, w: seq<Byte>)
    requires at + 20 <= |b| && b[at..at + 20] == EntryBytes(e) && k + 4 <= 20 && w == EntryBytes(e)[k..k + 4]
    ensures b[at + k..at + k + 4] == w
  {
    hide EntryBytes;
    SubSlice(b, at, 20, k, k + 4);
  }

  lemma EntryFields(e: Entry)
    ensures EntryBytes(e)[8..12] == Put32(Big, e.at) && EntryBytes(e)[12..16] == Put32(Big, e.size)
  {
    hide Put32;
  }

  lemma EntryReads(b: seq<Byte>, i: nat, e: Entry)
    requires 28 + 20 * i <= |b| && b[8 + 20 * i..28 + 20 * i] == EntryBytes(e)
    ensures SliceAt(b, i) == e.at && SliceSize(b, i) == e.size
  {
    hide Put32, Read32, EntryBytes;
    var at := 8 + 20 * i;
    EntryFields(e);
    FieldAt(b, at, e, 8, Put32(Big, e.at));
    FieldAt(b, at, e, 12, Put32(Big, e.size));
    WordAt(b, at + 8, e.at);
    WordAt(b, at + 12, e.size);
  }

  lemma TableIsRead(host: Endian, b: seq<Byte>, declared: Word32, es: seq<Entry>, ss: seq<Slice>)
    requires Table(b, declared, es) && Holds(b, es, ss)
    ensures FatFile(host, b, ss)
  {
    hide Header, OneMore, EntryBytes, SliceAt, SliceSize, Read32, Slice.Valid, Slice.Bytes, Hidden, Declared, IsFat;
    HeaderReads(host, b, declared);
    forall i | 0 <= i < |ss| ensures SliceAt(b, i) == es[i].at && SliceSize(b, i) == es[i].size {
      EntryReads(b, i, es[i]);
    }
  }

  // ---------- the results ----------

  function AllRewritten(ss: seq<Slice>): (r: seq<Slice>)
    ensures |r| == |ss|
  {
    seq(|ss|, i requires 0 <= i < |ss| => ss[i].Rewritten())
  }

  /** No image covers the byte. */
  ghost predicate Between(ss: seq<Slice>, k: nat) {
    forall i | 0 <= i < |ss| && ss[i].Valid() :: k < ss[i].at || ss[i].at + |ss[i].Bytes()| <= k
  }

  lemma SameTable(b: seq<Byte>, c: seq<Byte>, declared: Word32, es: seq<Entry>)
    requires Table(b, declared, es) && SameUpTo(b, c, 8 + 20 * declared + 28)
    ensures Table(c, declared, es)
  {
    hide Put32, EntryBytes;
    assert c[..4] == b[..4] && c[4..8] == b[4..8];
    if 28 + 20 * declared <= |b| {
      assert c[8 + 20 * declared..12 + 20 * declared] == b[8 + 20 * declared..12 + 20 * declared];
    }
    forall i | 0 <= i < |es| ensures c[8 + 20 * i..28 + 20 * i] == b[8 + 20 * i..28 + 20 * i] {
    }
  }

  lemma StillHolds(b: seq<Byte>, c: seq<Byte>, es: seq<Entry>, ss: seq<Slice>)
    requires Holds(b, es, ss) && Laid(c, AllRewritten(ss)) && |c| == |b|
    ensures Holds(c, es, AllRewritten(ss))
  {
    hide Laid, Slice.Valid, Slice.Bytes, Slice.Rewritten, ImageBytes;
    var rr := AllRewritten(ss);
    forall i | 0 <= i < |ss|
      ensures rr[i].Valid() && rr[i].at == ss[i].at && |rr[i].Bytes()| == |ss[i].Bytes()|
      ensures c[rr[i].at..rr[i].at + |rr[i].Bytes()|] == rr[i].Bytes()
    {
      RewrittenKeeps(ss[i]);
      RewrittenStays(ss[i]);
      LaidMeans(c, rr, i);
    }
  }

  lemma FromIsAll(ss: seq<Slice>)
    ensures RewriteFrom(ss, 0) == AllRewritten(ss)
  {
  }

  lemma TableOf(host: Endian, b: seq<Byte>, declared: Word32, es: seq<Entry>)
    requires Table(b, declared, es)
    ensures IsFat(host, b) && |b| >= 8 && Declared(b) == declared
  {
    HeaderReads(host, b, declared);
  }

  /** Every image that the table describes is rewritten, with a hidden entry or without; table and
      everything between the images stay; and a second run changes nothing. */
  lemma TableSquare(host: Endian, b: seq<Byte>, declared: Word32, es: seq<Entry>, ss: seq<Slice>)
    requires Table(b, declared, es) && Holds(b, es, ss)
    ensures FileOk(host, b) && FileOk(host, DoFile(host, b).1)
    ensures var (ok, c) := DoFile(host, b);
            && ok && Table(c, declared, es) && Holds(c, es, AllRewritten(ss))
            && (forall k | 0 <= k < |b| && Between(ss, k) :: c[k] == b[k])
            && DoFile(host, c) == (true, c)
  {
    hide Table, Holds, FatFile, DoFile, FileOk, Laid, RewriteFrom, AllRewritten, Header, OneMore, IsFat, Declared;
    TableIsRead(host, b, declared, es, ss);
    FatSquare(host, b, ss);
    var c := DoFile(host, b).1;
    FromIsAll(ss);
    FatFileLaid(host, c, AllRewritten(ss));
    StillHolds(b, c, es, ss);
    TableOf(host, b, declared, es);
    FatFrame(host, b);
    SameTable(b, c, declared, es);
    forall k | 0 <= k < |b| && Between(ss, k) ensures c[k] == b[k] {
      assert Outside(ss, k);
    }
  }

  /** The words of an entry that place its slice, which lies behind the declared table and in the
      file. */
  ghost predicate PlacedInFile(b: seq<Byte>, declared: Word32, i: nat) {
    && 28 + 20 * i <= |b|
    && exists at: Word32, size: Word32 ::
         && b[16 + 20 * i..20 + 20 * i] == Put32(Big, at) && b[20 + 20 * i..24 + 20 * i] == Put32(Big, size)
         && 8 + 20 * declared <= at && at + size <= |b|
  }

  lemma HeaderLong(b: seq<Byte>, declared: Word32)
    requires Header(b, declared)
    ensures |b| >= 8
  {
  }

  /** Any fat file: the header, the table and an additional entry stay as they are, and success
      means that every entry places its slice in the file. */
  lemma TableFrame(host: Endian, b: seq<Byte>, declared: Word32, i: nat)
    requires Header(b, declared) && FileOk(host, b)
    ensures var (ok, c) := DoFile(host, b);
            && |c| == |b| && (forall k | 0 <= k < 36 + 20 * declared && k < |b| :: c[k] == b[k])
            && (ok && i < (if OneMore(b, declared) then (declared + 1) % 0x1_0000_0000 else declared) ==>
                  PlacedInFile(b, declared, i))
  {
    hide DoFile, FileOk, IsFat, Declared, Hidden, Put32, Read32, Header, OneMore;
    HeaderReads(host, b, declared);
    HeaderLong(b, declared);
    FatFrame(host, b);
    if DoFile(host, b).0 && i < Count(b) {
      assert SliceFits(b, i, TableSize(declared));
      WordAt(b, 16 + 20 * i, SliceAt(b, i));
      WordAt(b, 20 + 20 * i, SliceSize(b, i));
    }
  }
}
