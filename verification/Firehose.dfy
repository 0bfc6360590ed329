/** Reading the tracepoints of a firehose chunk with a cursor. */
module Firehose {
  import opened Bytes
  import opened Wrappers

  /** Sizes and field positions of the chunk and of a tracepoint. */
  const CHUNK_SIZE: nat := 4096
  const HEADER: nat := 24
  const LENGTH_AT: nat := 22

  function RoundUp8(n: nat): (r: nat)
    ensures n <= r < n + 8 && r % 8 == 0
  {
    (n + 7) / 8 * 8
  }

  /** ft_length of the tracepoint at `p`. */
  function Length(b: seq<Byte>, p: nat): (n: nat)
    requires p + HEADER <= |b|
    ensures n <= 0xFFFF
  {
    var low: int, high: int := b[p + LENGTH_AT], b[p + LENGTH_AT + 1];
    low + 0x100 * high
  }

  /** Whether the identifier has been written, which is the last step of writing a tracepoint. */
  predicate Finished(b: seq<Byte>, p: nat)
    requires p + HEADER <= |b|
  {
    exists i | p <= i < p + 8 :: b[i] != 0
  }

  /** Where iteration ends: no room for a header and data, nothing begun, or a bad length. */
  predicate Stops(b: seq<Byte>, p: nat, end: nat)
    requires end <= |b|
  {
    p + HEADER >= end || Length(b, p) == 0 || Length(b, p) > end - (p + HEADER)
  }

  function NextAt(b: seq<Byte>, p: nat): (q: nat)
    requires p + HEADER <= |b|
    ensures q >= p + HEADER + Length(b, p) && q < p + HEADER + Length(b, p) + 8
  {
    p + RoundUp8(HEADER + Length(b, p))
  }

  /** The tracepoints found from `p` on. */
  function Found(b: seq<Byte>, p: nat, end: nat): seq<nat>
    requires end <= |b|
    decreases if p < end then end - p else 0
  {
    if Stops(b, p, end) then []
    else (if Finished(b, p) then [p] else []) + Found(b, NextAt(b, p), end)
  }

  /** The cursor over one chunk. */
  class Reader {
    const chunk: array<Byte>
    var ptr: nat
    const end: nat

    ghost predicate Valid()
      reads this
    {
      chunk.Length == CHUNK_SIZE && end <= CHUNK_SIZE
    }

    /** _firehose_tracepoint_reader_init */
    constructor (chunk: array<Byte>, dataAt: nat, nextEntryOffs: nat)
      requires chunk.Length == CHUNK_SIZE && dataAt <= CHUNK_SIZE
      ensures Valid() && this.chunk == chunk && ptr == dataAt
      ensures end == if nextEntryOffs > CHUNK_SIZE then dataAt else nextEntryOffs
    {
      this.chunk, ptr := chunk, dataAt;
      end := if nextEntryOffs > CHUNK_SIZE then dataAt else nextEntryOffs;
    }

    /** _firehose_tracepoint_reader_next: the next finished tracepoint, stepping over the
        unfinished ones. */
    method Next() returns (r: Option<nat>)
      requires Valid()
      modifies `ptr
      ensures Valid() && ptr >= old(ptr)
      ensures r.None? ==> old(Found(chunk[..], ptr, end)) == []
      ensures r.Some? ==> old(Found(chunk[..], ptr, end)) == [r.value] + Found(chunk[..], ptr, end)
      ensures r.Some? ==> old(ptr) <= r.value < ptr && r.value < end
    {
      hide RoundUp8;
      ghost var b := chunk[..];
      ghost var all := Found(b, ptr, end);
      while true
        invariant Valid() && ptr >= old(ptr) && chunk[..] == b
        invariant Found(b, ptr, end) == all
        decreases if ptr < end then end - ptr else 0
      {
        var uft := ptr;
        if uft + HEADER >= end {
          return None;
        }
        var low: int, high: int := chunk[uft + LENGTH_AT], chunk[uft + LENGTH_AT + 1];
        var length := low + 0x100 * high;
        if length == 0 {
          return None;
        }
        if length > end - (uft + HEADER) {
          return None;
        }
        ptr := ptr + RoundUp8(HEADER + length);
        if exists i | uft <= i < uft + 8 :: chunk[i] != 0 {
          assert Finished(b, uft);
          return Some(uft);
        }
        assert !Finished(b, uft);
      }
    }
  }

  /** firehose_tracepoint_foreach; the data of a chunk begins at `dataAt`. */
  method ForEach(chunk: array<Byte>, dataAt: nat, nextEntryOffs: nat) returns (fts: seq<nat>)
    requires chunk.Length == CHUNK_SIZE && dataAt <= CHUNK_SIZE
    ensures fts == Found(chunk[..], dataAt, if nextEntryOffs > CHUNK_SIZE then dataAt else nextEntryOffs)
  {
    var reader := new Reader(chunk, dataAt, nextEntryOffs);
    fts := [];
    ghost var all := Found(chunk[..], reader.ptr, reader.end);
    while true
      invariant reader.Valid() && reader.chunk == chunk && fresh(reader)
      invariant fts + Found(chunk[..], reader.ptr, reader.end) == all
      decreases if reader.ptr < reader.end then reader.end - reader.ptr else 0
    {
      var ft := reader.Next();
      if ft.None? {
        return;
      }
      fts := fts + [ft.value];
    }
  }

  // ---------- bounds ----------

  /** A tracepoint that lies whole before `end`, aligned to 8 from `p`, and finished. */
  predicate Within(b: seq<Byte>, p: nat, end: nat, f: nat)
    requires end <= |b|
  {
    p <= f && (f - p) % 8 == 0 && !Stops(b, f, end) && Finished(b, f) && f + HEADER + Length(b, f) <= end
  }

  lemma WithinFromEarlier(b: seq<Byte>, p: nat, q: nat, end: nat, f: nat)
    requires end <= |b| && p <= q && (q - p) % 8 == 0 && Within(b, q, end, f)
    ensures Within(b, p, end, f)
  {
  }

  ghost predicate AllWithin(b: seq<Byte>, p: nat, end: nat, fs: seq<nat>)
    requires end <= |b|
  {
    && (forall k | 0 <= k < |fs| :: Within(b, p, end, fs[k]))
    && (forall j, k | 0 <= j < k < |fs| :: fs[j] + HEADER + Length(b, fs[j]) <= fs[k])
  }

  lemma AllWithinCons(b: seq<Byte>, p: nat, end: nat, fs: seq<nat>)
    requires end <= |b| && !Stops(b, p, end) && AllWithin(b, NextAt(b, p), end, fs)
    ensures AllWithin(b, p, end, fs)
    ensures Finished(b, p) ==> AllWithin(b, p, end, [p] + fs)
  {
    forall k | 0 <= k < |fs| ensures Within(b, p, end, fs[k]) {
      WithinFromEarlier(b, p, NextAt(b, p), end, fs[k]);
    }
  }

  /** What is found lies whole before `end`, in order and disjoint. */
  lemma {:induction false} FoundInBounds(b: seq<Byte>, p: nat, end: nat)
    requires end <= |b|
    ensures AllWithin(b, p, end, Found(b, p, end))
    decreases if p < end then end - p else 0
  {
    if !Stops(b, p, end) {
      var q := NextAt(b, p);
      FoundInBounds(b, q, end);
      AllWithinCons(b, p, end, Found(b, q, end));
      assert [] + Found(b, q, end) == Found(b, q, end);
    }
  }

  // ---------- completeness on a well-formed chunk ----------

  /** A record: identifier, the rest of the header before the length, and the data. */
  datatype Record = Record(id: seq<Byte>, mid: seq<Byte>, data: seq<Byte>) {
    predicate Valid() {
      |id| == 8 && |mid| == LENGTH_AT - 8 && 1 <= |data| <= 0xFFFF
    }
    function Size(): nat { RoundUp8(HEADER + |data|) }
  }

  function Zeros(n: nat): (z: seq<Byte>)
    ensures |z| == n
  {
    seq(n, i => 0)
  }

  function RecordBytes(r: Record): (b: seq<Byte>)
    requires r.Valid()
    ensures |b| == r.Size()
  {
    r.id + r.mid + [|r.data| % 0x100, |r.data| / 0x100] + r.data + Zeros(r.Size() - HEADER - |r.data|)
  }

  /** The records stand back to back from `p` on, up to `end`. */
  predicate Laid(b: seq<Byte>, p: nat, end: nat, rs: seq<Record>)
    decreases rs
  {
    if rs == [] then p == end
    else
      && rs[0].Valid() && p + rs[0].Size() <= end <= |b|
      && b[p..p + rs[0].Size()] == RecordBytes(rs[0])
      && Laid(b, p + rs[0].Size(), end, rs[1..])
  }

  predicate Nonzero(id: seq<Byte>) {
    exists i | 0 <= i < |id| :: id[i] != 0
  }

  /** The positions of the records whose identifier is not zero. */
  function FinishedAt(rs: seq<Record>, p: nat): seq<nat> {
    if rs == [] then []
    else (if Nonzero(rs[0].id) then [p] else [])
         + FinishedAt(rs[1..], p + rs[0].Size())
  }

  lemma RecordFields(b: seq<Byte>, p: nat, r: Record)
    requires r.Valid() && p + r.Size() <= |b| && b[p..p + r.Size()] == RecordBytes(r)
    ensures Length(b, p) == |r.data|
    ensures Finished(b, p) <==> Nonzero(r.id)
  {
    var w := RecordBytes(r);
    var c := b[p..p + r.Size()];
    assert forall i | 0 <= i < |w| :: c[i] == b[p + i];
    assert forall i | 0 <= i < 8 :: c[i] == w[i] == r.id[i];
    assert c[LENGTH_AT] == |r.data| % 0x100 && c[LENGTH_AT + 1] == |r.data| / 0x100;
    if Finished(b, p) {
      var i :| p <= i < p + 8 && b[i] != 0;
      assert b[i] == c[i - p] == r.id[i - p];
    }
    if i :| 0 <= i < |r.id| && r.id[i] != 0 {
      assert b[p + i] == c[i];
    }
  }

  lemma RecordSteps(b: seq<Byte>, p: nat, end: nat, r: Record)
    requires r.Valid() && p + r.Size() <= end <= |b| && Length(b, p) == |r.data|
    ensures !Stops(b, p, end) && NextAt(b, p) == p + r.Size()
  {
  }

  lemma FoundStep(b: seq<Byte>, p: nat, end: nat)
    requires end <= |b| && !Stops(b, p, end)
    ensures Found(b, p, end) == (if Finished(b, p) then [p] else []) + Found(b, NextAt(b, p), end)
  {
  }

  lemma FinishedAtStep(rs: seq<Record>, p: nat)
    requires rs != []
    ensures FinishedAt(rs, p) == (if Nonzero(rs[0].id) then [p] else []) + FinishedAt(rs[1..], p + rs[0].Size())
  {
  }

  /** Behind the records begun so far nothing is found: the length of the next one is still zero,
      or runs past the end, or there is no room for its header. */
  lemma {:induction false} FoundUntil(b: seq<Byte>, p: nat, stop: nat, end: nat, rs: seq<Record>)
    requires Laid(b, p, stop, rs) && stop <= end <= |b|
    requires || stop + HEADER >= end
             || (b[stop + LENGTH_AT] == 0 && b[stop + LENGTH_AT + 1] == 0)
             || b[stop + LENGTH_AT] as int + 0x100 * b[stop + LENGTH_AT + 1] as int > end - stop - HEADER
    ensures Found(b, p, end) == FinishedAt(rs, p)
    decreases |rs|
  {
    hide RecordBytes, Finished, Nonzero, NextAt, RoundUp8;
    if rs != [] {
      RecordFields(b, p, rs[0]);
      RecordSteps(b, p, end, rs[0]);
      FoundUntil(b, p + rs[0].Size(), stop, end, rs[1..]);
      FoundStep(b, p, end);
      FinishedAtStep(rs, p);
    }
  }

  /** On back-to-back records exactly the finished ones are found, in order. */
  lemma {:induction false} FoundAll(b: seq<Byte>, p: nat, end: nat, rs: seq<Record>)
    requires Laid(b, p, end, rs) && end <= |b|
    ensures Found(b, p, end) == FinishedAt(rs, p)
    decreases |rs|
  {
    hide RecordBytes, Length, Finished, Nonzero, NextAt, RoundUp8;
    if rs != [] {
      RecordFields(b, p, rs[0]);
      RecordSteps(b, p, end, rs[0]);
      FoundAll(b, p + rs[0].Size(), end, rs[1..]);
      FoundStep(b, p, end);
      FinishedAtStep(rs, p);
    }
  }
}
