/** What the server does with each kind of request, told by the bytes of the request and of the
    reply. */
module Handling {
  import opened Bytes
  import opened Interfaces
  import opened PortMap
  import opened NameService
  import opened NamesReply
  import opened PeerList
  import opened UdpQueue
  import opened Channels
  import opened Wrappers
  import opened GdomapServer

  /** A request as a client lays it out: type, length of the name, port type, a spare byte, the
      port, and the name in a field of 256 bytes. */
  function RequestBytes(rtype: Byte, ptype: Byte, port: Word32, n: Name): (b: seq<Byte>)
    requires |n| <= 255
    ensures |b| == 264
  {
    [rtype, |n|, ptype, 0] + Put32(Big, port) + n + seq(256 - |n|, i => 0)
  }

  /** The server reads it as it was meant. */
  lemma DecodeOfRequest(rtype: Byte, ptype: Byte, port: Word32, n: Name)
    requires |n| <= 255
    ensures var q := Decode(RequestBytes(rtype, ptype, port, n));
            && q.rtype == rtype && q.nsize == |n| && q.ptype == ptype && q.port == port
            && q.name[..|n|] == n
  {
    hide Put32, Get32;
    var b, q := RequestBytes(rtype, ptype, port, n), Decode(RequestBytes(rtype, ptype, port, n));
    assert b[4..8] == Put32(Big, port);
    GetOfPut(Big, port);
    assert b[8..264] == n + seq(256 - |n|, i => 0);
  }

  /** The port types: the network TCP or UDP, and the service distributed objects or foreign. */
  lemma PortTypes(ptype: Byte)
    ensures LegalType(ptype) <==> ptype / 0x10 in {1, 2} && ptype % 0x10 in {1, 2}
  {
  }

  /** The request of `b` is handled: what the server holds before and after, and its reply. */
  ghost predicate Handled(id: Identity, b: seq<Byte>, from: SockAddr, overUdp: bool, env: Env,
                          before: Data, after: Data, reply: Option<seq<Byte>>)
    requires |b| == 264 && AllEncodable(before.table)
  {
    Outcome(id, Decode(b), from, overUdp, env, before, after, reply)
  }

  // ---------- names and ports ----------

  /** The reply that stands for failure. */
  lemma NoPort()
    ensures Put32(Big, 0) == [0, 0, 0, 0]
  {
  }

  /** A local process registers a name: bound and confirmed if it is new; left alone and confirmed
      on the same port; rebound and confirmed if its old port is free; otherwise refused. */
  lemma RegisterHandled(id: Identity, from: SockAddr, overUdp: bool, env: Env, before: Data, after: Data,
                        reply: Option<seq<Byte>>, n: Name, port: Word32, ptype: Byte)
    requires |n| <= 255 && LegalType(ptype) && AllEncodable(before.table) && LocalHost(id.ifs, Split(from.addr))
    requires Handled(id, RequestBytes('R' as int, ptype, port, n), from, overUdp, env, before, after, reply)
    ensures after.peers == before.peers
    ensures var v, w := View(before.table), View(after.table);
            && (n !in v && port != 0 ==> w == v[n := Binding(port, ptype)] && reply == Some(Put32(Big, port)))
            && (n !in v && port == 0 ==> w == v && reply == Some([0, 0, 0, 0]))
            && (n in v && v[n].port == port ==> w == v && reply == Some(Put32(Big, port)))
            && (n in v && v[n].port != port && env.bindOk ==>
                  w == v[n := Binding(port, ptype)] && reply == Some(Put32(Big, port)))
            && (n in v && v[n].port != port && !env.bindOk ==> w == v && reply == Some([0, 0, 0, 0]))
  {
    hide View, AllEncodable, LocalHost, Decode, Put32, LegalType;
    DecodeOfRequest('R' as int, ptype, port, n);
    NoPort();
  }

  /** Anyone looks up a name: its port if it is registered under that type and its owner lives;
      otherwise zero, and a name whose owner is gone is removed. */
  lemma LookupHandled(id: Identity, from: SockAddr, overUdp: bool, env: Env, before: Data, after: Data,
                      reply: Option<seq<Byte>>, n: Name, port: Word32, ptype: Byte)
    requires |n| <= 255 && LegalType(ptype) && AllEncodable(before.table)
    requires Handled(id, RequestBytes('L' as int, ptype, port, n), from, overUdp, env, before, after, reply)
    ensures after.peers == before.peers
    ensures var v, w := View(before.table), View(after.table);
            && (n !in v || v[n].ptype != ptype ==> w == v && reply == Some([0, 0, 0, 0]))
            && (n in v && v[n].ptype == ptype && !env.bindOk ==> w == v && reply == Some(Put32(Big, v[n].port)))
            && (n in v && v[n].ptype == ptype && env.bindOk ==> w == v - {n} && reply == Some([0, 0, 0, 0]))
  {
    hide View, AllEncodable, LocalHost, Decode, Put32, LegalType;
    DecodeOfRequest('L' as int, ptype, port, n);
    NoPort();
  }

  /** A local process removes a name, and is told the port it had. */
  lemma UnregisterHandled(id: Identity, from: SockAddr, overUdp: bool, env: Env, before: Data, after: Data,
                          reply: Option<seq<Byte>>, n: Name, port: Word32, ptype: Byte)
    requires |n| <= 255 && LegalType(ptype) && AllEncodable(before.table) && LocalHost(id.ifs, Split(from.addr))
    requires n != [] || port == 0
    requires Handled(id, RequestBytes('U' as int, ptype, port, n), from, overUdp, env, before, after, reply)
    ensures after.peers == before.peers
    ensures var v, w := View(before.table), View(after.table);
            && (n in v && v[n].ptype == ptype ==> w == v - {n} && reply == Some(Put32(Big, v[n].port)))
            && (n !in v || v[n].ptype != ptype ==> w == v && reply == Some([0, 0, 0, 0]))
  {
    hide View, AllEncodable, LocalHost, Decode, Put32, LegalType;
    DecodeOfRequest('U' as int, ptype, port, n);
    NoPort();
  }

  /** With a port and no name, it removes all names bound to that port under that type. */
  lemma UnregisterPortHandled(id: Identity, from: SockAddr, overUdp: bool, env: Env, before: Data, after: Data,
                              reply: Option<seq<Byte>>, port: Word32, ptype: Byte)
    requires LegalType(ptype) && AllEncodable(before.table) && LocalHost(id.ifs, Split(from.addr)) && port != 0
    requires Handled(id, RequestBytes('U' as int, ptype, port, []), from, overUdp, env, before, after, reply)
    ensures after.peers == before.peers
    ensures var v, w := View(before.table), View(after.table);
            && (forall k :: k in w <==> k in v && v[k] != Binding(port, ptype))
            && (forall k | k in w :: w[k] == v[k])
            && reply == Some(if exists k :: k in v && v[k] == Binding(port, ptype) then Put32(Big, port)
                             else [0, 0, 0, 0])
  {
    hide View, AllEncodable, LocalHost, Decode, Put32, LegalType;
    DecodeOfRequest('U' as int, ptype, port, []);
    NoPort();
    var v := View(before.table);
    if k :| k in v && v[k] == Binding(port, ptype) {
      assert k in BoundTo(v, port, ptype);
    } else {
      assert BoundTo(v, port, ptype) == {};
    }
  }

  /** Only local processes may register and unregister; others get no reply. */
  lemma StrangersRefused(id: Identity, from: SockAddr, overUdp: bool, env: Env, before: Data, after: Data,
                         reply: Option<seq<Byte>>, b: seq<Byte>)
    requires |b| == 264 && AllEncodable(before.table) && !LocalHost(id.ifs, Split(from.addr))
    requires b[0] == 'R' as int || b[0] == 'U' as int
    requires Handled(id, b, from, overUdp, env, before, after, reply)
    ensures after == before && reply == None
  {
    hide View, AllEncodable, LocalHost;
  }

  /** A request with another port type, or of an unknown kind, changes nothing and gets no reply;
      probes and lists need no port type. */
  lemma IllegalRefused(id: Identity, from: SockAddr, overUdp: bool, env: Env, before: Data, after: Data,
                       reply: Option<seq<Byte>>, b: seq<Byte>)
    requires |b| == 264 && AllEncodable(before.table)
    requires || (!LegalType(b[2]) && (b[2] != 0 || b[0] == 'R' as int || b[0] == 'L' as int || b[0] == 'U' as int))
             || (forall c | c in "RLUSPpN" :: b[0] != c as int)
    requires Handled(id, b, from, overUdp, env, before, after, reply)
    ensures after == before && reply == None
  {
    hide View, AllEncodable, LocalHost;
    assert 'S' in "RLUSPpN" && 'P' in "RLUSPpN" && 'p' in "RLUSPpN" && 'N' in "RLUSPpN";
    assert 'R' in "RLUSPpN" && 'L' in "RLUSPpN" && 'U' in "RLUSPpN";
  }

  // ---------- lists ----------

  lemma AddressBytes(a: seq<Word32>, k: nat)
    requires k < |a|
    ensures |Addresses(a)| == 4 * |a| && Addresses(a)[4 * k..4 * k + 4] == Put32(Big, a[k])
  {
    hide Put32, Get32, Addresses;
    AddressesAt(a, k);
    PutOfGet(Big, Addresses(a)[4 * k..4 * k + 4]);
  }

  lemma FirstAddress(requester: Word32, s: seq<Peer>)
    ensures var a := Addresses([requester] + Latest(s));
            |a| == 4 + 4 * |s| && a[0..4] == Put32(Big, requester)
  {
    hide Put32, Get32, Addresses, Latest;
    AddressBytes([requester] + Latest(s), 0);
  }

  lemma LaterAddress(requester: Word32, s: seq<Peer>, k: nat)
    requires k < |s|
    ensures var a := Addresses([requester] + Latest(s));
            |a| == 4 + 4 * |s| && a[4 + 4 * k..8 + 4 * k] == Put32(Big, s[|s| - 1 - k].sin)
  {
    hide Put32, Get32, Addresses, Latest;
    var l := [requester] + Latest(s);
    AddressBytes(l, k + 1);
    assert 4 * (k + 1) == 4 + 4 * k;
    LatestAt(s, k);
    assert l[k + 1] == Latest(s)[k];
  }

  /** The list of servers: how many, the address of the client, and the other servers, the latest
      first, four bytes each. */
  lemma ServersHandled(id: Identity, from: SockAddr, overUdp: bool, env: Env, before: Data, after: Data,
                       reply: Option<seq<Byte>>, b: seq<Byte>)
    requires |b| == 264 && AllEncodable(before.table) && b[0] == 'S' as int && b[2] == 0
    requires Handled(id, b, from, overUdp, env, before, after, reply)
    ensures after == before && reply.Some?
    ensures var r, n := reply.value, |before.peers|;
            && |r| == 8 + 4 * n
            && r[..4] == Put32(Big, (n + 1) % 0x1_0000_0000) && r[4..8] == Put32(Big, from.addr)
            && forall k | 0 <= k < n :: r[8 + 4 * k..12 + 4 * k] == Put32(Big, before.peers[n - 1 - k].sin)
  {
    hide View, AllEncodable, LocalHost, Put32, Addresses, Latest;
    var s, n := before.peers, |before.peers|;
    var head, rest := Put32(Big, (n + 1) % 0x1_0000_0000), Addresses([from.addr] + Latest(s));
    FirstAddress(from.addr, s);
    var r := head + rest;
    assert r[4..8] == rest[0..4];
    forall k | 0 <= k < n ensures r[8 + 4 * k..12 + 4 * k] == Put32(Big, s[n - 1 - k].sin) {
      LaterAddress(from.addr, s, k);
      assert r[8 + 4 * k..12 + 4 * k] == rest[4 + 4 * k..8 + 4 * k];
    }
  }

  /** How many bytes the first `k` names take. */
  function Extent(m: seq<MapEnt>, k: nat): nat
    requires k <= |m|
  {
    if k == 0 then 0 else 2 + |m[0].name| + Extent(m[1..], k - 1)
  }

  /** At `at` stand the length, the type and the characters of a name. */
  predicate IsEntry(b: seq<Byte>, at: nat, e: MapEnt) {
    && at + 2 + |e.name| <= |b|
    && b[at] == |e.name| && b[at + 1] == e.Type() && b[at + 2..at + 2 + |e.name|] == e.name
  }

  lemma EntryBehind(head: seq<Byte>, rest: seq<Byte>, at: nat, e: MapEnt)
    requires IsEntry(rest, at, e)
    ensures IsEntry(head + rest, |head| + at, e)
  {
    assert (head + rest)[|head| + at + 2..|head| + at + 2 + |e.name|] == rest[at + 2..at + 2 + |e.name|];
  }

  lemma EntryFirst(e: MapEnt, rest: seq<Byte>)
    requires Encodable(e)
    ensures IsEntry(EntryBytes(e) + rest, 0, e)
  {
    assert (EntryBytes(e) + rest)[2..2 + |e.name|] == e.name;
  }

  lemma {:induction false} EntryAt(m: seq<MapEnt>, k: nat)
    requires AllEncodable(m) && k <= |m|
    ensures if k == |m| then |NamesBytes(m)| == Extent(m, k) else IsEntry(NamesBytes(m), Extent(m, k), m[k])
    decreases |m|
  {
    hide IsEntry, EntryBytes;
    if m != [] {
      assert NamesBytes(m) == EntryBytes(m[0]) + NamesBytes(m[1..]);
      if k == 0 {
        EntryFirst(m[0], NamesBytes(m[1..]));
      } else {
        EntryAt(m[1..], k - 1);
        if k < |m| {
          EntryBehind(EntryBytes(m[0]), NamesBytes(m[1..]), Extent(m[1..], k - 1), m[k]);
        }
      }
    }
  }

  lemma MessageEntry(m: seq<MapEnt>, k: nat)
    requires AllEncodable(m) && k <= |m|
    ensures var r := NamesMessage(m);
            && |r| >= 4 && r[..4] == Put32(Big, (|r| - 4) % 0x1_0000_0000)
            && if k == |m| then |r| == 4 + Extent(m, k) else IsEntry(r, 4 + Extent(m, k), m[k])
  {
    hide IsEntry, NamesBytes, Put32, Extent;
    EntryAt(m, k);
    if k < |m| {
      EntryBehind(Put32(Big, |NamesBytes(m)| % 0x1_0000_0000), NamesBytes(m), Extent(m, k), m[k]);
    }
  }

  /** The list of names: the size of the rest, and name by name its length, its type and itself, in
      the order of the table. */
  lemma NamesHandled(id: Identity, from: SockAddr, overUdp: bool, env: Env, before: Data, after: Data,
                     reply: Option<seq<Byte>>, b: seq<Byte>, k: nat)
    requires |b| == 264 && AllEncodable(before.table) && b[0] == 'N' as int && b[2] == 0
    requires Handled(id, b, from, overUdp, env, before, after, reply) && k <= |before.table|
    ensures after == before && reply.Some? && |reply.value| >= 4
    ensures var r := reply.value;
            && r[..4] == Put32(Big, (|r| - 4) % 0x1_0000_0000)
            && if k == |before.table| then |r| == 4 + Extent(before.table, k)
               else IsEntry(r, 4 + Extent(before.table, k), before.table[k])
  {
    hide View, AllEncodable, LocalHost, Put32, NamesMessage, Extent, IsEntry;
    MessageEntry(before.table, k);
  }

  // ---------- probes ----------

  /** A probe or its reply from another name server makes known the address in the request and
      the one it came from, the latter last; from anyone else it changes nothing. */
  lemma ProbeHandled(id: Identity, from: SockAddr, overUdp: bool, env: Env, before: Data, after: Data,
                     reply: Option<seq<Byte>>, b: seq<Byte>)
    requires |b| == 264 && AllEncodable(before.table) && (b[0] == 'P' as int || b[0] == 'p' as int) && b[2] == 0
    requires Handled(id, b, from, overUdp, env, before, after, reply)
    ensures after.table == before.table
    ensures from.port != id.port ==> after == before
    ensures from.port == id.port ==>
              var first := Contacted(id.ifs, before.peers, Get32(Big, b[8..12]), env.now);
              after.peers == Contacted(id.ifs, first, from.addr, env.now)
    ensures b[0] == 'p' as int ==> reply == None
    ensures b[0] == 'P' as int && !(overUdp && from.port == id.port) ==> reply == Some(Put32(Big, id.port))
    ensures b[0] == 'P' as int && overUdp && from.port == id.port ==> reply == Some(env.probeReply)
  {
    hide View, AllEncodable, LocalHost, Put32, Get32, Contacted;
    assert b[8..264][..4] == b[8..12];
  }
}
