/** The reply that lists all registered names, and the client code that reads it. */
module NamesReply {
  import opened Bytes
  import opened PortMap

  /** What the table guarantees about an entry: a one-byte length and a one-byte type. */
  predicate Encodable(e: MapEnt) {
    |e.name| <= 255 && e.Type() <= 255
  }

  predicate AllEncodable(m: seq<MapEnt>) {
    forall e | e in m :: Encodable(e)
  }

  function EntryBytes(e: MapEnt): (b: seq<Byte>)
    requires Encodable(e)
    ensures |b| == 2 + |e.name|
  {
    [|e.name|, e.Type()] + e.name
  }

  function NamesBytes(m: seq<MapEnt>): seq<Byte>
    requires AllEncodable(m)
  {
    if m == [] then [] else EntryBytes(m[0]) + NamesBytes(m[1..])
  }

  lemma {:induction false} NamesBytesAppend(m: seq<MapEnt>, e: MapEnt)
    requires Encodable(e) && AllEncodable(m)
    ensures NamesBytes(m + [e]) == NamesBytes(m) + EntryBytes(e)
    decreases |m|
  {
    if m == [] {
      assert m + [e] == [e] && [e][1..] == [];
    } else {
      assert (m + [e])[0] == m[0] && (m + [e])[1..] == m[1..] + [e];
      NamesBytesAppend(m[1..], e);
    }
  }

  const MAX_INT := 0x7FFF_FFFF

  function NamesMessage(m: seq<MapEnt>): (b: seq<Byte>)
    requires AllEncodable(m)
    ensures b != []
  {
    Put32(Big, |NamesBytes(m)| % 0x1_0000_0000) + NamesBytes(m)
  }

  /** GDO_NAMES on the server: size the buffer, then fill it. */
  method MakeReply(m: seq<MapEnt>) returns (buf: seq<Byte>)
    requires AllEncodable(m)
    ensures buf == NamesMessage(m)
  {
    var bytes := 0;
    assert m[..|m|] == m;
    for i := 0 to |m|
      invariant bytes == |NamesBytes(m[..i])|
    {
      assert m[..i + 1] == m[..i] + [m[i]];
      NamesBytesAppend(m[..i], m[i]);
      bytes := bytes + 2 + |m[i].name|;
    }
    var count := bytes % 0x1_0000_0000;
    buf := Put32(Big, count);
    for i := 0 to |m|
      invariant buf == Put32(Big, count) + NamesBytes(m[..i])
    {
      assert m[..i + 1] == m[..i] + [m[i]];
      NamesBytesAppend(m[..i], m[i]);
      buf := buf + ([|m[i].name|, m[i].Type()] + m[i].name);
    }
  }

  // ---------- the client ----------

  /** How many steps of 2 + length bytes it takes to reach the end. */
  function CountFrom(b: seq<Byte>, ptr: nat): nat
    decreases |b| - ptr
  {
    if ptr < |b| then 1 + CountFrom(b, ptr + 2 + b[ptr] as int) else 0
  }

  /** Whether `num` whole records can be read from `ptr`. */
  predicate Walkable(b: seq<Byte>, ptr: nat, num: nat)
    decreases num
  {
    num == 0 || (ptr < |b| && ptr + 2 + b[ptr] as int <= |b| && Walkable(b, ptr + 2 + b[ptr] as int, num - 1))
  }

  function NamesFrom(b: seq<Byte>, ptr: nat, num: nat): (r: seq<Name>)
    requires Walkable(b, ptr, num)
    ensures |r| == num
    decreases num
  {
    if num == 0 then []
    else [b[ptr + 2..ptr + 2 + b[ptr] as int]] + NamesFrom(b, ptr + 2 + b[ptr] as int, num - 1)
  }

  /** tryHost for GDO_NAMES, on the bytes that arrive before the time-out.  A list of more than
      65535 names is reported as empty, one of more than ten million bytes as a failure. */
  method FetchNames(reply: seq<Byte>) returns (ok: bool, num: nat, body: seq<Byte>)
    ensures ok <==> |reply| >= 4 && Get32(Big, reply[..4]) <= 10_000_000 && Get32(Big, reply[..4]) <= |reply| - 4
    ensures ok ==> && body == reply[4..4 + Get32(Big, reply[..4])]
                   && num == if CountFrom(body, 0) <= 0xFFFF then CountFrom(body, 0) else 0
  {
    num, body := 0, [];
    if |reply| < 4 {
      return false, num, body;
    }
    var len := Get32(Big, reply[..4]);
    if len > 0xFFFF && len > 10_000_000 {
      return false, num, body;
    }
    if |reply| - 4 < len {
      return false, num, body;
    }
    body := reply[4..4 + len];
    var ptr: nat := 0;
    while ptr < |body|
      invariant num + CountFrom(body, ptr) == CountFrom(body, 0)
      decreases |body| - ptr
    {
      ptr := ptr + 2 + body[ptr] as int;
      num := num + 1;
    }
    if num > 0xFFFF {
      num := 0;
    }
    ok := true;
  }

  /** The loop of donames, which prints the names; `end` is where it stops.  It trusts the reply:
      `inside` says whether all it reads lies in the reply. */
  method ListNames(body: seq<Byte>, num: nat) returns (inside: bool, names: seq<Name>, end: nat)
    ensures inside <==> Walkable(body, 0, num)
    ensures inside ==> names == NamesFrom(body, 0, num)
    ensures inside && num == CountFrom(body, 0) ==> end == |body|
  {
    inside, names, end := true, [], 0;
    var left := num;
    while left > 0
      invariant end <= |body| && (Walkable(body, end, left) <==> Walkable(body, 0, num))
      invariant Walkable(body, end, left) ==> names + NamesFrom(body, end, left) == NamesFrom(body, 0, num)
      invariant num == CountFrom(body, 0) ==> left == CountFrom(body, end)
    {
      left := left - 1;
      if end >= |body| || end + 2 + body[end] as int > |body| {
        return false, names, end;
      }
      var len: int := body[end];
      names := names + [body[end + 2..end + 2 + len]];
      end := end + 2 + len;
    }
  }

  /** The records end exactly where the reply ends. */
  predicate EndsExactly(b: seq<Byte>, ptr: nat)
    decreases |b| - ptr
  {
    ptr == |b| || (ptr < |b| && EndsExactly(b, ptr + 2 + b[ptr] as int))
  }

  /** The walk over as many names as were counted stays inside the reply exactly if the records
      end where it does, which the client does not check. */
  lemma {:induction false} WalkableIff(b: seq<Byte>, ptr: nat)
    requires ptr <= |b|
    ensures Walkable(b, ptr, CountFrom(b, ptr)) <==> EndsExactly(b, ptr)
    decreases |b| - ptr
  {
    if ptr < |b| {
      var q := ptr + 2 + b[ptr] as int;
      if q <= |b| {
        WalkableIff(b, q);
      }
    }
  }

  /** One byte that announces five characters: one name is counted, and read past the end. */
  lemma CutShort()
    ensures CountFrom([5], 0) == 1 && !Walkable([5], 0, 1)
  {
  }

  // ---------- round trip ----------

  function NameList(m: seq<MapEnt>): (r: seq<Name>)
    ensures |r| == |m|
  {
    if m == [] then [] else [m[0].name] + NameList(m[1..])
  }

  lemma {:induction false} NameListAt(m: seq<MapEnt>, i: nat)
    requires i < |m|
    ensures NameList(m)[i] == m[i].name
  {
    if i > 0 {
      NameListAt(m[1..], i - 1);
    }
  }

  lemma WalkStep(b: seq<Byte>, ptr: nat, num: nat)
    requires ptr < |b|
    ensures var q := ptr + 2 + b[ptr] as int;
            && CountFrom(b, ptr) == 1 + CountFrom(b, q)
            && (Walkable(b, ptr, num + 1) <==> q <= |b| && Walkable(b, q, num))
            && (Walkable(b, ptr, num + 1) ==> NamesFrom(b, ptr, num + 1) == [b[ptr + 2..q]] + NamesFrom(b, q, num))
  {
  }

  lemma WalkEnd(b: seq<Byte>)
    ensures CountFrom(b, |b|) == 0 && Walkable(b, |b|, 0) && NamesFrom(b, |b|, 0) == []
  {
  }

  lemma ReadEntry(pre: seq<Byte>, e: MapEnt, rest: seq<Byte>)
    requires Encodable(e)
    ensures var b := pre + EntryBytes(e) + rest;
            b[|pre|] == |e.name| && b[|pre| + 2..|pre| + 2 + |e.name|] == e.name
  {
  }

  lemma {:induction false} WalkOfNames(m: seq<MapEnt>, pre: seq<Byte>)
    requires AllEncodable(m)
    ensures var b := pre + NamesBytes(m);
            && CountFrom(b, |pre|) == |m|
            && Walkable(b, |pre|, |m|)
            && NamesFrom(b, |pre|, |m|) == NameList(m)
    decreases |m|
  {
    hide CountFrom, Walkable, NamesFrom, EntryBytes;
    var b := pre + NamesBytes(m);
    if m == [] {
      WalkEnd(b);
    } else {
      var e := EntryBytes(m[0]);
      ReadEntry(pre, m[0], NamesBytes(m[1..]));
      assert b == (pre + e) + NamesBytes(m[1..]);
      WalkStep(b, |pre|, |m| - 1);
      WalkOfNames(m[1..], pre + e);
    }
  }

  lemma {:induction false} NamesLength(m: seq<MapEnt>)
    requires AllEncodable(m)
    ensures |NamesBytes(m)| >= 2 * |m|
  {
    if m != [] {
      NamesLength(m[1..]);
    }
  }

  /** Server to client: all names, in order, exactly when the list is within both limits. */
  method TransferNames(m: seq<MapEnt>) returns (ok: bool, names: seq<Name>)
    requires AllEncodable(m)
    requires |NamesBytes(m)| <= MAX_INT
    ensures ok <==> |NamesBytes(m)| <= 10_000_000
    ensures ok ==> names == if |m| <= 0xFFFF then NameList(m) else []
  {
    hide NamesBytes, Put32, Get32, CountFrom, NameList;
    var reply := MakeReply(m);
    ghost var b := NamesBytes(m);
    assert reply[..4] == Put32(Big, |b|) && reply[4..] == b;
    GetOfPut(Big, |b|);
    var num, body;
    ok, num, body := FetchNames(reply);
    names := [];
    if ok {
      WalkOfNames(m, []);
      assert [] + b == b && body == b;
      var inside, end;
      inside, names, end := ListNames(body, num);
    }
  }
}
