/** The name server: its handlers, and its loop over whatever the descriptors do. */
module GdomapServer {
  import opened Bytes
  import opened Interfaces
  import opened PortMap
  import opened NameService
  import opened NamesReply
  import opened PeerList
  import opened UdpQueue
  import opened Slots
  import opened Channels
  import opened Wrappers

  // ---------- requests ----------

  const GDO_REGISTER: Byte := 0x52
  const GDO_LOOKUP: Byte := 0x4C
  const GDO_UNREG: Byte := 0x55
  const GDO_SERVERS: Byte := 0x53
  const GDO_PROBE: Byte := 0x50
  const GDO_PREPLY: Byte := 0x70
  const GDO_NAMES: Byte := 0x4E

  /** A request as it stands in its 264 bytes. */
  datatype Req = Req(rtype: Byte, nsize: Byte, ptype: Byte, port: Word32, name: seq<Byte>)

  function Decode(b: seq<Byte>): (q: Req)
    requires |b| == GDO_REQ_SIZE
    ensures |q.name| == 256
  {
    Req(b[0], b[1], b[2], Get32(Big, b[4..8]), b[8..264])
  }

  predicate LegalReq(q: Req) {
    LegalType(q.ptype)
    || (q.ptype == 0
        && (q.rtype == GDO_PROBE || q.rtype == GDO_PREPLY || q.rtype == GDO_SERVERS || q.rtype == GDO_NAMES))
  }

  /** What the system contributes to the handling of a request: whether a test bind works,
      the time, and the packets with which a probe by UDP is answered. */
  datatype Env = Env(bindOk: bool, now: int, probeReply: seq<Byte>, extras: seq<seq<Byte>>)

  /** The request that one of the three services of the table stands for. */
  function ServiceOf(q: Req, bindOk: bool): Request
    requires |q.name| == 256
  {
    var n := q.name[..q.nsize];
    if q.rtype == GDO_REGISTER then Register(n, q.port, q.ptype, bindOk)
    else if q.rtype == GDO_LOOKUP then Lookup(n, q.ptype, bindOk)
    else Unregister(n, q.port, q.ptype)
  }

  /** The table and the peers, before or after a request. */
  datatype Data = Data(table: seq<MapEnt>, peers: seq<Peer>)

  /** The identity of this server: its interfaces and its port. */
  datatype Identity = Identity(ifs: seq<Iface>, port: Word32)

  function Greeted(id: Identity, s: seq<Peer>, q: Req, from: SockAddr, now: int): seq<Peer>
    requires |q.name| == 256
  {
    if from.port != id.port then s
    else Contacted(id.ifs, Contacted(id.ifs, s, Get32(Big, q.name[..4]), now), from.addr, now)
  }

  /** What a request must do: the reply, or None if the channel is cleared without one, and
      the data afterwards.  Only local processes may change the table by name. */
  ghost predicate Outcome(id: Identity, q: Req, from: SockAddr, overUdp: bool, env: Env,
                          before: Data, after: Data, reply: Option<seq<Byte>>)
    requires |q.name| == 256 && AllEncodable(before.table)
  {
    if !LegalReq(q) then
      after == before && reply.None?
    else if q.rtype == GDO_REGISTER || q.rtype == GDO_LOOKUP || q.rtype == GDO_UNREG then
      if q.rtype != GDO_LOOKUP && !LocalHost(id.ifs, Split(from.addr)) then after == before && reply.None?
      else
        var (v, w) := Apply(View(before.table), ServiceOf(q, env.bindOk));
        View(after.table) == v && after.peers == before.peers && reply == Some(Put32(Big, w))
    else if q.rtype == GDO_SERVERS then
      after == before && reply == Some(ServersBytes(from.addr, before.peers))
    else if q.rtype == GDO_NAMES then
      after == before && reply == Some(NamesMessage(before.table))
    else if q.rtype == GDO_PROBE then
      && after == before.(peers := Greeted(id, before.peers, q, from, env.now))
      && reply == Some(if overUdp && from.port == id.port then env.probeReply else Put32(Big, id.port))
    else if q.rtype == GDO_PREPLY then
      after == before.(peers := Greeted(id, before.peers, q, from, env.now)) && reply.None?
    else
      after == before && reply.None?
  }

  /** A table stays one that can be listed: names of at most 255 bytes and one-byte types. */
  lemma EncodableView(m: seq<MapEnt>)
    requires Unique(m)
    ensures AllEncodable(m) <==> forall n | n in View(m) :: |n| <= 255 && View(m)[n].ptype <= 255
  {
    ViewOf(m);
    if AllEncodable(m) {
      forall n | n in View(m) ensures |n| <= 255 && View(m)[n].ptype <= 255 {
        var i :| 0 <= i < |m| && m[i].name == n;
        assert Encodable(m[i]);
      }
    }
  }

  lemma StaysEncodable(before: seq<MapEnt>, after: seq<MapEnt>, r: Request, reply: Word32)
    requires Unique(before) && Unique(after) && AllEncodable(before) && Refines(before, after, r, reply)
    requires r.Register? ==> |r.name| <= 255
    ensures AllEncodable(after)
  {
    hide View;
    EncodableView(before);
    EncodableView(after);
  }

  // ---------- what a run is ----------

  datatype World = World(c: State, d: Data, q: seq<Message>, clock: int, lastProbe: int)

  lemma ValidIsUnique(r: Registry)
    requires r.Valid()
    ensures Unique(r.map_)
  {
    SortedIsUnique(r.map_);
  }

  /** Channels and histories, the order of the table, and the order of the peers. */
  ghost predicate WorldOk(id: Identity, w: World) {
    && Safe(w.c)
    && Sorted(w.d.table) && AllEncodable(w.d.table)
    && Distinct(w.d.peers) && InOrder(w.d.peers)
  }

  /** A descriptor that accept returns, taken to be one that is not in use and fits the sets. */
  function UsableDesc(c: State, d: int): int {
    if Free(c, d) then d else -1
  }

  /** A datagram is cut off at the size of a request. */
  function Fitting(d: seq<Byte>): (b: seq<Byte>)
    ensures |b| <= GDO_REQ_SIZE
  {
    if |d| > GDO_REQ_SIZE then d[..GDO_REQ_SIZE] else d
  }

  lemma UdpIsReader(c: State)
    requires Safe(c)
    ensures c.udp in c.readers
  {
  }

  function MessagesTo(to: SockAddr, packets: seq<seq<Byte>>): seq<Message> {
    if packets == [] then [] else [Message(to, packets[0], 0)] + MessagesTo(to, packets[1..])
  }

  /** The datagrams that the handling of a request adds to the queue: further addresses for
      another name server that probed this one, then the reply to a request by UDP. */
  function Queued(id: Identity, q: Req, from: SockAddr, overUdp: bool, env: Env, reply: Option<seq<Byte>>): seq<Message>
    requires |q.name| == 256
  {
    if reply.None? || !overUdp then []
    else
      (if LegalReq(q) && q.rtype == GDO_PROBE && from.port == id.port
       then MessagesTo(SockAddr(Get32(Big, q.name[..4]), id.port), env.extras) else [])
      + [Message(from, reply.value, 0)]
  }

  /** The channel after the handling of a request. */
  function RequestStep(c: State, d: int, reply: Option<seq<Byte>>): State
    requires d in c.readers
  {
    var b := Begun(c, d);
    if reply.None? then Cleared(b, d)
    else if d == c.udp then Cleared(Answered(b, d, reply.value), d)
    else Answered(b, d, reply.value)
  }

  /** What receiving a datagram does. */
  ghost predicate RecvEffect(id: Identity, w: World, v: World, from: SockAddr, data: Option<seq<Byte>>, env: Env,
                             reply: Option<seq<Byte>>)
    requires WorldOk(id, w)
  {
    match data
    case None => v.c == w.c && v.d == w.d && v.q == w.q
    case Some(d) =>
      UdpIsReader(w.c);
      var b := Fitting(d);
      var c := GotDatagram(w.c, from, b);
      if |b| < GDO_REQ_SIZE || LocalHost(id.ifs, Split(from.addr)) then v.c == c && v.d == w.d && v.q == w.q
      else
        && Outcome(id, Decode(b), from, true, env, w.d, v.d, reply)
        && v.q == w.q + Queued(id, Decode(b), from, true, env, reply)
        && w.c.udp in c.readers && v.c == RequestStep(c, w.c.udp, reply)
  }

  /** What the system has in store for one descriptor in one sweep. */
  datatype Act = Act(newDesc: int, from: SockAddr, nonblocking: bool, offered: seq<seq<Byte>>, data: Option<seq<Byte>>,
                     written: int, wouldBlock: bool, env: Env)

  /** What reading on a descriptor does.  However the bytes arrive, the request that is handled
      consists of the first GDO_REQ_SIZE of them. */
  ghost predicate ReadEffect(id: Identity, c: State, d: int, offered: seq<seq<Byte>>, wouldBlock: bool, env: Env,
                             before: Data, after: Data, e: State, reply: Option<seq<Byte>>)
    requires AllEncodable(before.table)
  {
    if d !in c.readers then e == c && after == before
    else
      && d in c.conns && |c.readers[d].buf| < GDO_REQ_SIZE
      && var b := Taken(offered, GDO_REQ_SIZE - |c.readers[d].buf|);
      && var request := c.readers[d].buf + b;
      && d in Got(c, d, b).readers
      && if |request| == GDO_REQ_SIZE then
           && Outcome(id, Decode(request), c.readers[d].addr, false, env, before, after, reply)
           && e == RequestStep(Got(c, d, b), d, reply)
         else
           && after == before
           && e == if wouldBlock && b != [] then Got(c, d, b) else Cleared(Got(c, d, b), d)
  }

  /** What is done for a descriptor that is readable: accept, recv or read. */
  ghost predicate ReadSide(id: Identity, w: World, v: World, i: int, canRead: bool, act: Act)
    requires WorldOk(id, w)
  {
    if !canRead then v == w
    else
      var env := act.env.(now := if act.env.now < w.clock then w.clock else act.env.now);
      if i == w.c.tcp then v == w.(c := Accepted(w.c, UsableDesc(w.c, act.newDesc), act.from, act.nonblocking))
      else
        && w.clock <= v.clock <= env.now && v.lastProbe == w.lastProbe
        && if i == w.c.udp then
             exists reply: Option<seq<Byte>> :: RecvEffect(id, w, v, act.from, act.data, env, reply)
           else
             && v.q == w.q
             && exists reply: Option<seq<Byte>> ::
                  ReadEffect(id, w.c, i, act.offered, act.wouldBlock, env, w.d, v.d, v.c, reply)
  }

  function AtMost(r: int, n: int): int {
    if r > n then n else r
  }

  /** What is done for a descriptor that is writable and has not been closed since: send or write. */
  ghost predicate WriteSide(id: Identity, w: World, v: World, i: int, canWrite: bool, act: Act)
    requires WorldOk(id, w)
  {
    if !canWrite || (i !in w.c.writeFds && i != w.c.udp) then v == w
    else if i == w.c.udp then
      v == w.(q := SendStep(w.q, if w.q == [] then act.written else AtMost(act.written, |w.q[0].dat| - w.q[0].pos),
                            act.wouldBlock))
    else
      v == w.(c := if i !in w.c.writers then w.c
                   else WriteStep(w.c, i, AtMost(act.written, |w.c.writers[i].buf| - w.c.writers[i].pos)))
  }

  ghost predicate Visited(id: Identity, w: World, v: World, i: int, canRead: bool, canWrite: bool, act: Act)
    requires WorldOk(id, w)
  {
    exists m: World :: WorldOk(id, m) && ReadSide(id, w, m, i, canRead, act) && WriteSide(id, m, v, i, canWrite, act)
  }

  lemma VisitedBy(id: Identity, w: World, m: World, v: World, i: int, canRead: bool, canWrite: bool, act: Act)
    requires WorldOk(id, w) && WorldOk(id, m)
    requires ReadSide(id, w, m, i, canRead, act) && WriteSide(id, m, v, i, canWrite, act)
    ensures Visited(id, w, v, i, canRead, canWrite, act)
  {
    hide WorldOk, ReadSide, WriteSide;
  }

  /** A sweep up to `n`: the worlds between the visits, all of them safe. */
  ghost predicate Swept(id: Identity, ws: seq<World>, n: nat, rfds: set<int>, wfds: set<int>, acts: seq<Act>) {
    && |ws| == n + 1 && n <= |acts|
    && (forall k | 0 <= k <= n :: WorldOk(id, ws[k]))
    && (forall k | 0 <= k < n :: Visited(id, ws[k], ws[k + 1], k, k in rfds, k in wfds, acts[k]))
  }

  lemma SweptNone(id: Identity, ws: seq<World>, rfds: set<int>, wfds: set<int>, acts: seq<Act>)
    requires |ws| == 1 && WorldOk(id, ws[0])
    ensures Swept(id, ws, 0, rfds, wfds, acts)
  {
  }

  lemma SweptMore(id: Identity, ws: seq<World>, n: nat, rfds: set<int>, wfds: set<int>, acts: seq<Act>, v: World)
    requires Swept(id, ws, n, rfds, wfds, acts) && n < |acts| && WorldOk(id, ws[n]) && WorldOk(id, v)
    requires Visited(id, ws[n], v, n, n in rfds, n in wfds, acts[n])
    ensures Swept(id, ws + [v], n + 1, rfds, wfds, acts)
  {
    hide WorldOk, Visited;
  }

  /** Clear the watched bad descriptors below `n`, in order, up to a listener. */
  function Purged(c: State, watched: set<int>, bad: set<int>, n: nat): (State, bool) {
    if n == 0 then (c, false)
    else
      var r := Purged(c, watched, bad, n - 1);
      if r.1 || n - 1 !in watched || n - 1 !in bad then r
      else (Cleared(r.0, n - 1), n - 1 == c.tcp || n - 1 == c.udp)
  }

  lemma PurgedNone(c: State, watched: set<int>, bad: set<int>)
    ensures Purged(c, watched, bad, 0) == (c, false)
  {
  }

  lemma PurgedNext(c: State, watched: set<int>, bad: set<int>, n: nat)
    ensures var r := Purged(c, watched, bad, n);
            Purged(c, watched, bad, n + 1) ==
              if r.1 || n !in watched || n !in bad then r else (Cleared(r.0, n), n == c.tcp || n == c.udp)
  {
    hide Cleared;
  }

  lemma {:induction false} PurgedStays(c: State, watched: set<int>, bad: set<int>, n: nat, m: nat)
    requires n <= m && Purged(c, watched, bad, n).1
    ensures Purged(c, watched, bad, m) == Purged(c, watched, bad, n)
    decreases m
  {
    hide Cleared;
    if n < m {
      PurgedStays(c, watched, bad, n, m - 1);
    }
  }

  function ProbeMessages(probes: seq<(SockAddr, seq<Byte>)>): seq<Message> {
    seq(|probes|, i requires 0 <= i < |probes| => Message(probes[i].0, probes[i].1, 0))
  }

  function TimedOut(w: World, now: int, noprobe: int, interval: int, probes: seq<(SockAddr, seq<Byte>)>): World {
    var d := w.d.(peers := Fresh(w.d.peers, noprobe, now, w.lastProbe));
    if w.q == [] && now - w.lastProbe >= interval && noprobe <= 0 then World(w.c, d, ProbeMessages(probes), now, now)
    else World(w.c, d, w.q, now, w.lastProbe)
  }

  /** What a call of select leads to: activity on some descriptors, the discovery of bad ones,
      or a time-out. */
  datatype Wake =
    | Active(rfds: set<int>, wfds: set<int>, act: nat -> Act)
    | Bad(bad: set<int>)
    | Quiet(now: int, probes: seq<(SockAddr, seq<Byte>)>)

  /** What one wake-up does. */
  ghost predicate Woken(id: Identity, noprobe: int, interval: int, w: World, v: World, wake: Wake)
    requires WorldOk(id, w)
  {
    match wake
    case Active(rfds, wfds, act) =>
      exists ws: seq<World> ::
        && Swept(id, ws, FD_SETSIZE, rfds * w.c.readFds, wfds, seq(FD_SETSIZE, act))
        && ws[0] == w && ws[FD_SETSIZE] == v
    case Bad(bad) => v == w.(c := Purged(w.c, w.c.readFds + w.c.writeFds, bad, FD_SETSIZE).0)
    case Quiet(now, probes) => v == TimedOut(w, if now < w.clock then w.clock else now, noprobe, interval, probes)
  }

  predicate Fatal(w: World, wake: Wake) {
    wake.Bad? && Purged(w.c, w.c.readFds + w.c.writeFds, wake.bad, FD_SETSIZE).1
  }

  /** A run: each wake-up leads from one world to the next, and all of them are safe. */
  ghost predicate IsRun(id: Identity, noprobe: int, interval: int, wakes: seq<Wake>, run: seq<World>) {
    && 0 < |run| <= |wakes| + 1
    && (forall k | 0 <= k < |run| :: WorldOk(id, run[k]))
    && (forall k | 0 <= k < |run| - 1 :: Woken(id, noprobe, interval, run[k], run[k + 1], wakes[k]))
  }

  ghost predicate Leads(run: seq<World>, w: World, v: World) {
    run != [] && run[0] == w && run[|run| - 1] == v
  }

  lemma RunStarts(id: Identity, noprobe: int, interval: int, wakes: seq<Wake>, w: World)
    requires WorldOk(id, w)
    ensures IsRun(id, noprobe, interval, wakes, [w]) && Leads([w], w, w)
  {
  }

  /** The last wake-up of a run found that a listener had gone bad. */
  predicate EndsFatally(wakes: seq<Wake>, run: seq<World>) {
    2 <= |run| <= |wakes| + 1 && Fatal(run[|run| - 2], wakes[|run| - 2])
  }

  lemma RunGoesOn(id: Identity, noprobe: int, interval: int, wakes: seq<Wake>, run: seq<World>,
                  first: World, w: World, v: World)
    requires IsRun(id, noprobe, interval, wakes, run) && |run| <= |wakes| && Leads(run, first, w)
    requires WorldOk(id, w) && WorldOk(id, v) && Woken(id, noprobe, interval, w, v, wakes[|run| - 1])
    ensures IsRun(id, noprobe, interval, wakes, run + [v]) && Leads(run + [v], first, v)
    ensures Fatal(w, wakes[|run| - 1]) ==> EndsFatally(wakes, run + [v])
  {
    hide WorldOk, Woken, Fatal;
  }

  /** A step that concerns `i` leaves no other descriptor unwatched for reading. */
  ghost predicate KeepsOthers(c: State, e: State, i: int) {
    forall j | j in c.readFds && j != i :: j in e.readFds
  }

  lemma KeepsBoth(c: State, m: State, e: State, i: int)
    requires KeepsOthers(c, m, i) && KeepsOthers(m, e, i)
    ensures KeepsOthers(c, e, i)
  {
  }

  lemma KeepsAccepted(c: State, d: int, from: SockAddr, nonblocking: bool, i: int)
    requires Safe(c) && (d < 0 || Free(c, d))
    ensures KeepsOthers(c, Accepted(c, d, from, nonblocking), i)
  {
    hide ClientsOk, HistoryOk;
    if d >= 0 {
      assert d !in c.readFds by {
        assert d !in c.conns.Keys + {c.tcp, c.udp};
        assert d !in c.readFds + c.writeFds;
      }
    }
  }

  lemma KeepsRequest(c: State, i: int, reply: Option<seq<Byte>>)
    requires i in c.readers
    ensures KeepsOthers(c, RequestStep(c, i, reply), i)
  {
  }

  lemma KeepsRecv(c: State, from: SockAddr, b: seq<Byte>, reply: Option<seq<Byte>>)
    requires c.udp in c.readers
    ensures c.udp in GotDatagram(c, from, b).readers
    ensures KeepsOthers(c, GotDatagram(c, from, b), c.udp)
    ensures KeepsOthers(c, RequestStep(GotDatagram(c, from, b), c.udp, reply), c.udp)
  {
    KeepsRequest(GotDatagram(c, from, b), c.udp, reply);
  }

  lemma KeepsRead(id: Identity, c: State, d: int, offered: seq<seq<Byte>>, wouldBlock: bool, env: Env,
                  before: Data, after: Data, e: State, reply: Option<seq<Byte>>)
    requires AllEncodable(before.table)
    requires ReadEffect(id, c, d, offered, wouldBlock, env, before, after, e, reply)
    ensures KeepsOthers(c, e, d)
  {
    hide Outcome, RequestStep, Taken, Decode;
    if d in c.readers {
      var b := Taken(offered, GDO_REQ_SIZE - |c.readers[d].buf|);
      KeepsRequest(Got(c, d, b), d, reply);
    }
  }

  lemma ReadKeeps(id: Identity, w: World, v: World, i: int, canRead: bool, act: Act)
    requires WorldOk(id, w) && ReadSide(id, w, v, i, canRead, act)
    ensures KeepsOthers(w.c, v.c, i)
  {
    hide Safe, AllEncodable, Outcome, Decode, RequestStep, GotDatagram, Accepted, Queued, ReadEffect, Free;
    if canRead {
      var env := act.env.(now := if act.env.now < w.clock then w.clock else act.env.now);
      if i == w.c.tcp {
        KeepsAccepted(w.c, UsableDesc(w.c, act.newDesc), act.from, act.nonblocking, i);
      } else if i == w.c.udp {
        var reply :| RecvEffect(id, w, v, act.from, act.data, env, reply);
        if act.data.Some? {
          UdpIsReader(w.c);
          KeepsRecv(w.c, act.from, Fitting(act.data.value), reply);
        }
      } else {
        var reply :| ReadEffect(id, w.c, i, act.offered, act.wouldBlock, env, w.d, v.d, v.c, reply);
        KeepsRead(id, w.c, i, act.offered, act.wouldBlock, env, w.d, v.d, v.c, reply);
      }
    }
  }

  lemma KeepsWrite(c: State, i: int, r: int)
    requires Safe(c) && i != c.udp && i in c.writers && r <= |c.writers[i].buf| - c.writers[i].pos
    ensures KeepsOthers(c, WriteStep(c, i, r), i)
  {
    hide ClientsOk, HistoryOk;
    WriterIsClient(c, i);
  }

  lemma WriteKeeps(id: Identity, w: World, v: World, i: int, canWrite: bool, act: Act)
    requires WorldOk(id, w) && WriteSide(id, w, v, i, canWrite, act)
    ensures KeepsOthers(w.c, v.c, i)
  {
    hide Safe, AllEncodable, WriteStep, SendStep;
    if i in w.c.writers && i != w.c.udp {
      KeepsWrite(w.c, i, AtMost(act.written, |w.c.writers[i].buf| - w.c.writers[i].pos));
    }
  }

  /** A visit to `i` leaves no other descriptor unwatched for reading. */
  lemma VisitKeeps(id: Identity, w: World, v: World, i: int, canRead: bool, canWrite: bool, act: Act)
    requires WorldOk(id, w) && Visited(id, w, v, i, canRead, canWrite, act)
    ensures KeepsOthers(w.c, v.c, i)
  {
    hide WorldOk, ReadSide, WriteSide, KeepsOthers;
    var m: World :| WorldOk(id, m) && ReadSide(id, w, m, i, canRead, act) && WriteSide(id, m, v, i, canWrite, act);
    ReadKeeps(id, w, m, i, canRead, act);
    WriteKeeps(id, m, v, i, canWrite, act);
    KeepsBoth(w.c, m.c, v.c, i);
  }

  lemma KeptByVisit(c: State, e: State, rfds: set<int>, i: int)
    requires KeepsOthers(c, e, i) && forall j | j in rfds && j >= i :: j in c.readFds
    ensures forall j | j in rfds && j >= i + 1 :: j in e.readFds
  {
  }

  lemma NothingToSend(r: int, wouldBlock: bool)
    ensures SendStep([], r, wouldBlock) == []
  {
  }

  lemma ReadNotWritten(c: State, i: int)
    requires Safe(c) && i in c.readFds
    ensures i !in c.writeFds
  {
  }

  lemma ReaderIsClient(c: State, d: int)
    requires Safe(c) && d in c.readers && d != c.tcp && d != c.udp && d !in c.writeFds
    ensures d in c.conns && d in c.readFds && |c.readers[d].buf| < GDO_REQ_SIZE
  {
    assert d in c.readFds + c.writeFds;
    assert ClientOk(c, d);
  }

  lemma GotFacts(c: State, d: int, b: seq<Byte>)
    requires d in c.conns && d in c.readers
    ensures var e := Got(c, d, b);
            d in e.readers && e.readers[d] == RInfo(c.readers[d].addr, c.readers[d].buf + b)
  {
  }

  lemma GotDatagramFacts(c: State, from: SockAddr, b: seq<Byte>)
    requires c.udp in c.readers
    ensures var e := GotDatagram(c, from, b);
            && c.udp in e.readers && e.readers[c.udp].addr == from
            && (|b| == GDO_REQ_SIZE ==> e.readers[c.udp].buf == b)
  {
  }

  lemma NoMessages(to: SockAddr)
    ensures MessagesTo(to, []) == []
  {
  }

  lemma {:induction false} MessagesToAppend(to: SockAddr, packets: seq<seq<Byte>>, p: seq<Byte>)
    ensures MessagesTo(to, packets + [p]) == MessagesTo(to, packets) + [Message(to, p, 0)]
    decreases |packets|
  {
    if packets == [] {
      assert packets + [p] == [p] && [p][1..] == [];
    } else {
      assert (packets + [p])[1..] == packets[1..] + [p] && (packets + [p])[0] == packets[0];
      MessagesToAppend(to, packets[1..], p);
    }
  }

  // ---------- the server ----------

  class Server {
    const id: Identity
    const ch: Watch
    const registry: Registry
    const peers: Peers
    const queue: Queue
    var clock: int
    var lastProbe: int

    /** The table and the peers are in order. */
    ghost predicate DataOk()
      reads this, registry, peers
    {
      && registry.Valid() && Unique(registry.map_) && AllEncodable(registry.map_)
      && peers.Valid(clock)
    }

    ghost function Contents(): Data
      reads registry, peers
    {
      Data(registry.map_, peers.prb)
    }

    /** All that a run changes. */
    ghost function Everything(): World
      reads this, ch, registry, peers, queue, queue.Nodes()
    {
      World(ch.Now(), Contents(), queue.Contents(), clock, lastProbe)
    }

    /** Everything is in order between two handlers. */
    ghost predicate Valid()
      reads this, ch, registry, peers, queue, queue.Nodes()
    {
      DataOk() && ch.Unique() && Safe(ch.Now()) && queue.Valid()
    }

    constructor (id: Identity, tcpDesc: int, udpDesc: int, now: int)
      requires InRange(tcpDesc) && InRange(udpDesc) && tcpDesc != udpDesc
      ensures Valid() && this.id == id && ch.tcpDesc == tcpDesc && ch.udpDesc == udpDesc
      ensures Contents() == Data([], []) && queue.Contents() == [] && ch.conns == map[]
      ensures fresh(ch) && fresh(registry) && fresh(peers) && fresh(queue) && queue.spine == []
    {
      this.id, clock, lastProbe := id, now, 0;
      ch := new Watch(tcpDesc, udpDesc);
      registry := new Registry();
      peers := new Peers();
      queue := new Queue();
    }

    /** prb_add for both addresses of a probe or its reply. */
    method Greet(q: Req, from: SockAddr, now: int)
      requires DataOk() && |q.name| == 256 && clock <= now
      modifies this`clock, peers
      ensures DataOk() && clock == now
      ensures Contents() == old(Contents()).(peers := Greeted(id, old(peers.prb), q, from, now))
    {
      hide Contacted, Unique, AllEncodable, Distinct, InOrder, OnLocalNet;
      if from.port == id.port {
        var sin := Get32(Big, q.name[..4]);
        peers.Add(id.ifs, sin, now, clock);
        peers.Add(id.ifs, from.addr, now, now);
      }
      clock := now;
    }

    /** Registering, looking up, unregistering. */
    method RespondTable(q: Req, from: SockAddr, overUdp: bool, env: Env) returns (reply: Option<seq<Byte>>)
      requires DataOk() && |q.name| == 256 && LegalType(q.ptype)
      requires q.rtype == GDO_REGISTER || q.rtype == GDO_LOOKUP || q.rtype == GDO_UNREG
      modifies registry
      ensures DataOk()
      ensures Outcome(id, q, from, overUdp, env, old(Contents()), Contents(), reply)
      ensures reply.Some? ==> reply.value != []
    {
      hide View, Apply, AllEncodable, Unique, Sorted, Put32;
      ghost var before := registry.map_;
      var w;
      var here := IsLocalHost(id.ifs, Split(from.addr));
      if q.rtype != GDO_LOOKUP && !here {
        return None;
      }
      var n := q.name[..q.nsize];
      if q.rtype == GDO_REGISTER {
        w := DoRegister(registry, n, q.port, q.ptype, env.bindOk);
      } else if q.rtype == GDO_LOOKUP {
        w := DoLookup(registry, n, q.ptype, env.bindOk);
      } else {
        w := DoUnregister(registry, n, q.port, q.ptype);
      }
      ValidIsUnique(registry);
      StaysEncodable(before, registry.map_, ServiceOf(q, env.bindOk), w);
      reply := Some(Put32(Big, w));
    }

    /** The decision that handle_request makes on a request. */
    method Respond(q: Req, from: SockAddr, overUdp: bool, env: Env) returns (reply: Option<seq<Byte>>)
      requires DataOk() && |q.name| == 256 && clock <= env.now
      modifies this`clock, registry, peers
      ensures DataOk() && old(clock) <= clock <= env.now
      ensures Outcome(id, q, from, overUdp, env, old(Contents()), Contents(), reply)
      ensures reply.Some? && !overUdp ==> reply.value != []
    {
      hide View, Apply, AllEncodable, Unique, Sorted, Greeted, ServersBytes, NamesMessage, Put32;
      if !LegalReq(q) {
        return None;
      }
      if q.rtype == GDO_REGISTER || q.rtype == GDO_LOOKUP || q.rtype == GDO_UNREG {
        reply := RespondTable(q, from, overUdp, env);
      } else if q.rtype == GDO_SERVERS {
        var b := peers.ServersReply(from.addr);
        reply := Some(b);
      } else if q.rtype == GDO_NAMES {
        var b := MakeReply(registry.map_);
        reply := Some(b);
      } else if q.rtype == GDO_PROBE {
        Greet(q, from, env.now);
        if overUdp && from.port == id.port {
          reply := Some(env.probeReply);
        } else {
          reply := Some(Put32(Big, id.port));
        }
      } else if q.rtype == GDO_PREPLY {
        Greet(q, from, env.now);
        reply := None;
      } else {
        reply := None;
      }
    }

    // ---------- the handlers ----------

    method QueueAll(to: SockAddr, packets: seq<seq<Byte>>)
      requires queue.Valid()
      modifies queue, queue.Nodes()
      ensures queue.Valid() && fresh(queue.Nodes() - old(queue.Nodes()))
      ensures queue.Contents() == old(queue.Contents()) + MessagesTo(to, packets)
    {
      hide MessagesTo, Queue.Valid, Queue.Contents;
      ghost var before := queue.Contents();
      NoMessages(to);
      assert packets[..0] == [] && before + [] == before;
      for i := 0 to |packets|
        invariant queue.Valid() && fresh(queue.Nodes() - old(queue.Nodes()))
        invariant queue.Contents() == before + MessagesTo(to, packets[..i])
      {
        MessagesToAppend(to, packets[..i], packets[i]);
        assert packets[..i + 1] == packets[..i] + [packets[i]];
        queue.Enqueue(to, packets[i]);
      }
      assert packets[..|packets|] == packets;
    }

    /** The end of handle_request. */
    method Deliver(desc: int, q: Req, from: SockAddr, env: Env, reply: Option<seq<Byte>>, ghost c: State)
      requires |q.name| == 256 && queue.Valid() && ch.Unique()
      requires Ready(c, desc) && ch.Now() == Begun(c, desc) && c.udp == ch.udpDesc
      requires reply.Some? && desc != ch.udpDesc ==> reply.value != []
      modifies ch, queue, queue.Nodes()
      ensures queue.Valid() && ch.Unique() && Safe(ch.Now()) && ch.Now() == RequestStep(c, desc, reply)
      ensures fresh(queue.Nodes() - old(queue.Nodes()))
      ensures queue.Contents() == old(queue.Contents()) + Queued(id, q, from, desc == ch.udpDesc, env, reply)
    {
      hide AsMap, UniqueKeys, Cleared, Answered, Begun, Safe, Tables, Listening, ClientsOk, MessagesTo,
           Queue.Valid, Queue.Contents;
      SafeRefused(c, desc);
      if reply.None? {
        ch.ClearChan(desc);
        return;
      }
      var overUdp := desc == ch.udpDesc;
      if LegalReq(q) && q.rtype == GDO_PROBE && overUdp && from.port == id.port {
        QueueAll(SockAddr(Get32(Big, q.name[..4]), id.port), env.extras);
      }
      ch.Answer(desc, reply.value);
      if overUdp {
        SafeDatagram(c, reply.value);
        queue.Enqueue(from, reply.value);
        ch.ClearChan(desc);
      } else {
        SafeAnswered(c, desc, reply.value);
      }
    }

    /** handle_request on a descriptor whose request has been read. */
    method HandleRequest(desc: int, env: Env) returns (reply: Option<seq<Byte>>)
      requires DataOk() && queue.Valid() && ch.Unique() && Ready(ch.Now(), desc) && clock <= env.now
      modifies this`clock, ch, registry, peers, queue, queue.Nodes()
      ensures Valid() && old(clock) <= clock <= env.now
      ensures fresh(queue.Nodes() - old(queue.Nodes()))
      ensures var ri := old(AsMap(ch.rInfo))[desc];
              && Outcome(id, Decode(ri.buf), ri.addr, desc == ch.udpDesc, env, old(Contents()), Contents(), reply)
              && queue.Contents() == old(queue.Contents())
                                     + Queued(id, Decode(ri.buf), ri.addr, desc == ch.udpDesc, env, reply)
      ensures ch.Now() == RequestStep(old(ch.Now()), desc, reply)
    {
      hide Outcome, Decode, AsMap, UniqueKeys, Begun, Safe, Tables, Listening, ClientsOk, RequestStep, Queued,
           Queue.Valid, Queue.Contents, Peers.Valid, Registry.Valid;
      ghost var c := ch.Now();
      var i := Get(ch.rInfo, desc);
      var ri := ch.rInfo[i.value].info;
      var q := Decode(ri.buf);
      ch.Begin(desc);
      reply := Respond(q, ri.addr, desc == ch.udpDesc, env);
      Deliver(desc, q, ri.addr, env, reply, c);
    }

    /** handle_accept: `desc` is what the system call returned. */
    method HandleAccept(desc: int, from: SockAddr, nonblocking: bool)
      requires Valid() && (desc < 0 || Free(ch.Now(), desc))
      modifies ch
      ensures Valid() && ch.Now() == Accepted(old(ch.Now()), desc, from, nonblocking)
    {
      hide Safe, Accepted, UniqueKeys, AsMap, Queue.Valid, Peers.Valid, Registry.Valid, AllEncodable, Unique;
      SafeAccepted(ch.Now(), desc, from, nonblocking);
      ch.Accept(desc, from, nonblocking);
    }

    /** handle_read: `offered` is what the reads yield, `wouldBlock` whether the last one failed
        because there was no more for now. */
    method HandleRead(desc: int, offered: seq<seq<Byte>>, wouldBlock: bool, env: Env)
      returns (ghost reply: Option<seq<Byte>>)
      requires Valid() && desc != ch.tcpDesc && desc != ch.udpDesc && desc !in ch.writeFds && clock <= env.now
      modifies this`clock, ch, registry, peers, queue, queue.Nodes()
      ensures Valid() && old(clock) <= clock <= env.now && fresh(queue.Nodes() - old(queue.Nodes()))
      ensures queue.Contents() == old(queue.Contents())
      ensures ReadEffect(id, old(ch.Now()), desc, offered, wouldBlock, env, old(Contents()), Contents(),
                         ch.Now(), reply)
    {
      hide AsMap, UniqueKeys, ClientsOk, HistoryOk, ClientOk, Taken, Outcome, RequestStep, Cleared, Queue.Valid,
           Queue.Contents, Peers.Valid, Registry.Valid, AllEncodable, Unique, Got, Ready, Safe;
      reply := None;
      ghost var c := ch.Now();
      var ri := Get(ch.rInfo, desc);
      if ri.None? {
        return;
      }
      ReaderIsClient(c, desc);
      ghost var b := Taken(offered, GDO_REQ_SIZE - |c.readers[desc].buf|);
      SafeGot(c, desc, b);
      GotFacts(c, desc, b);
      var nothingRead := ch.Fill(desc, ri.value, offered);
      if |ch.rInfo[ri.value].info.buf| == GDO_REQ_SIZE {
        reply := HandleRequest(desc, env);
      } else if !wouldBlock || nothingRead {
        SafeClosed(ch.Now(), desc);
        ch.ClearChan(desc);
      }
    }

    /** handle_recv: the datagram `data` from `from`, if the call yields one. */
    method HandleRecv(from: SockAddr, data: Option<seq<Byte>>, env: Env) returns (ghost reply: Option<seq<Byte>>)
      requires Valid() && clock <= env.now
      modifies this`clock, ch, registry, peers, queue, queue.Nodes()
      ensures Valid() && old(clock) <= clock <= env.now && fresh(queue.Nodes() - old(queue.Nodes()))
      ensures WorldOk(id, old(Everything())) && RecvEffect(id, old(Everything()), Everything(), from, data, env, reply)
    {
      hide AsMap, UniqueKeys, ClientsOk, HistoryOk, ClientOk, Outcome, RequestStep, Queue.Valid,
           Queue.Contents, Peers.Valid, Registry.Valid, AllEncodable, Unique, Ready, Safe, Queued, Decode;
      reply := None;
      ValidIsOk();
      ghost var c := ch.Now();
      UdpIsReader(c);
      var ri := Get(ch.rInfo, ch.udpDesc);
      if data.None? {
        return;
      }
      var b := Fitting(data.value);
      ReadyDatagram(c, from, b);
      GotDatagramFacts(c, from, b);
      ch.Receive(ri.value, from, b);
      if |b| == GDO_REQ_SIZE {
        var here := IsLocalHost(id.ifs, Split(from.addr));
        if here {
          return;
        }
        reply := HandleRequest(ch.udpDesc, env);
      }
    }

    /** handle_send: `r` is what the system call returned, no more than it was given. */
    method HandleSend(r: int, wouldBlock: bool)
      requires Valid()
      modifies queue, queue.Nodes()
      ensures Valid() && queue.Nodes() <= old(queue.Nodes())
      ensures var q := old(queue.Contents());
              queue.Contents() == SendStep(q, if q == [] then r else AtMost(r, |q[0].dat| - q[0].pos), wouldBlock)
    {
      hide Safe, UniqueKeys, AsMap, Peers.Valid, Registry.Valid, AllEncodable, Unique, SendStep;
      NothingToSend(r, wouldBlock);
      if queue.head != null {
        var sent := queue.HandleSend(AtMost(r, |queue.head.dat| - queue.head.pos), wouldBlock);
      }
    }

    /** handle_write on a client: `r` is what the system call returned. */
    method HandleWrite(desc: int, r: int)
      requires Valid() && desc != ch.udpDesc
      modifies ch
      ensures Valid()
      ensures var c := old(ch.Now());
              ch.Now() == if desc !in c.writers then c
                          else WriteStep(c, desc, AtMost(r, |c.writers[desc].buf| - c.writers[desc].pos))
    {
      hide Safe, UniqueKeys, AsMap, Queue.Valid, Peers.Valid, Registry.Valid, AllEncodable, Unique, WriteStep;
      var wi := Get(ch.wInfo, desc);
      if wi.Some? {
        var w := ch.wInfo[wi.value].info;
        ch.HandleWrite(desc, AtMost(r, |w.buf| - w.pos));
      }
    }

    // ---------- the loop ----------

    /** One descriptor in the sweep over the descriptors that select has reported: readable
        if `canRead`, writable if `canWrite`. */
    method Visit(i: int, canRead: bool, canWrite: bool, act: Act)
      requires Valid() && (canRead ==> i in ch.readFds)
      modifies this`clock, ch, registry, peers, queue, queue.Nodes()
      ensures Valid() && fresh(queue.Nodes() - old(queue.Nodes()))
      ensures WorldOk(id, old(Everything())) && Visited(id, old(Everything()), Everything(), i, canRead, canWrite, act)
    {
      hide Visited, WorldOk, ReadSide, WriteSide, Queue.Valid, Peers.Valid, Registry.Valid, UniqueKeys, AsMap, Safe,
           AllEncodable, Unique, Queue.Contents;
      ghost var w := Everything();
      ValidIsOk();
      VisitRead(i, canRead, act);
      ghost var m := Everything();
      ValidIsOk();
      VisitWrite(i, canWrite, act);
      VisitedBy(id, w, m, Everything(), i, canRead, canWrite, act);
    }

    lemma ValidIsOk()
      requires Valid()
      ensures WorldOk(id, Everything())
    {
      hide Safe, AllEncodable, Unique, Queue.Valid, Sorted, Distinct, InOrder, AsMap, Queue.Contents;
    }

    method VisitRead(i: int, canRead: bool, act: Act)
      requires Valid() && (canRead ==> i in ch.readFds)
      modifies this`clock, ch, registry, peers, queue, queue.Nodes()
      ensures Valid() && fresh(queue.Nodes() - old(queue.Nodes()))
      ensures WorldOk(id, old(Everything())) && ReadSide(id, old(Everything()), Everything(), i, canRead, act)
    {
      hide Safe, UniqueKeys, AsMap, Queue.Valid, Peers.Valid, Registry.Valid, AllEncodable, Unique, RequestStep,
           Accepted, GotDatagram, RecvEffect, ReadEffect, Outcome, Taken, Got, Decode, Queued, Queue.Contents, Free;
      ghost var w := Everything();
      ValidIsOk();
      if canRead {
        var env := act.env.(now := if act.env.now < clock then clock else act.env.now);
        if i == ch.tcpDesc {
          var d := Usable(act.newDesc);
          HandleAccept(d, act.from, act.nonblocking);
        } else if i == ch.udpDesc {
          ghost var reply := HandleRecv(act.from, act.data, env);
        } else {
          ReadNotWritten(ch.Now(), i);
          ghost var reply := HandleRead(i, act.offered, act.wouldBlock, env);
        }
      }
    }

    method VisitWrite(i: int, canWrite: bool, act: Act)
      requires Valid()
      modifies ch, queue, queue.Nodes()
      ensures Valid() && fresh(queue.Nodes() - old(queue.Nodes()))
      ensures WorldOk(id, old(Everything())) && WriteSide(id, old(Everything()), Everything(), i, canWrite, act)
    {
      hide Safe, UniqueKeys, AsMap, Queue.Valid, Peers.Valid, Registry.Valid, AllEncodable, Unique, WriteStep, SendStep,
           Queue.Contents;
      ValidIsOk();
      if canWrite && (i in ch.writeFds || i == ch.udpDesc) {
        if i == ch.udpDesc {
          HandleSend(act.written, act.wouldBlock);
        } else {
          HandleWrite(i, act.written);
        }
      }
    }

    /** A descriptor that accept can return is one not in use. */
    method Usable(newDesc: int) returns (d: int)
      requires Valid()
      ensures d == UsableDesc(ch.Now(), newDesc)
    {
      hide UniqueKeys, AsMap, Queue.Valid, Peers.Valid, Registry.Valid, AllEncodable, Unique, ClientsOk, HistoryOk;
      var ri := Get(ch.rInfo, newDesc);
      d := if 0 <= newDesc < FD_SETSIZE && ri.None? then newDesc else -1;
    }

    /** The sweep of handle_io over the descriptors in order. */
    method Sweep(rfds: set<int>, wfds: set<int>, acts: seq<Act>) returns (ghost ws: seq<World>)
      requires Valid() && rfds <= ch.readFds && |acts| == FD_SETSIZE
      modifies this`clock, ch, registry, peers, queue, queue.Nodes()
      ensures Valid() && fresh(queue.Nodes() - old(queue.Nodes()))
      ensures Swept(id, ws, FD_SETSIZE, rfds, wfds, acts)
      ensures ws[0] == old(Everything()) && ws[FD_SETSIZE] == Everything()
    {
      hide Swept, Visited, WorldOk, Queue.Valid, Peers.Valid, Registry.Valid, UniqueKeys, AsMap, Safe,
           AllEncodable, Unique, Queue.Contents;
      ws := [Everything()];
      ValidIsOk();
      SweptNone(id, ws, rfds, wfds, acts);
      for i := 0 to FD_SETSIZE
        invariant Valid() && fresh(queue.Nodes() - old(queue.Nodes()))
        invariant forall j | j in rfds && j >= i :: j in ch.readFds
        invariant Swept(id, ws, i, rfds, wfds, acts) && |ws| == i + 1
        invariant ws[0] == old(Everything()) && ws[i] == Everything()
      {
        ghost var w := Everything();
        Visit(i, i in rfds, i in wfds, acts[i]);
        ValidIsOk();
        VisitKeeps(id, w, Everything(), i, i in rfds, i in wfds, acts[i]);
        KeptByVisit(w.c, ch.Now(), rfds, i);
        SweptMore(id, ws, i, rfds, wfds, acts, Everything());
        ws := ws + [Everything()];
      }
    }

    /** select failed because of descriptors that are no longer good: those in `bad` that are
        watched are cleared; a listener among them is fatal. */
    method Purge(bad: set<int>) returns (fatal: bool)
      requires Valid()
      modifies ch
      ensures Valid()
      ensures (ch.Now(), fatal) == Purged(old(ch.Now()), old(ch.readFds + ch.writeFds), bad, FD_SETSIZE)
    {
      hide Safe, UniqueKeys, AsMap, Queue.Valid, Peers.Valid, Registry.Valid, AllEncodable, Unique, Cleared, Purged;
      var watched := ch.readFds + ch.writeFds;
      ghost var c := ch.Now();
      PurgedNone(c, watched, bad);
      for i := 0 to FD_SETSIZE
        invariant Valid() && Purged(c, watched, bad, i) == (ch.Now(), false)
      {
        PurgedNext(c, watched, bad, i);
        if i in watched && i in bad {
          SafeClosed(ch.Now(), i);
          ch.ClearChan(i);
          if i == ch.tcpDesc || i == ch.udpDesc {
            PurgedStays(c, watched, bad, i + 1, FD_SETSIZE);
            return true;
          }
        }
      }
      fatal := false;
    }

    method QueueProbes(probes: seq<(SockAddr, seq<Byte>)>)
      requires queue.Valid()
      modifies queue, queue.Nodes()
      ensures queue.Valid() && fresh(queue.Nodes() - old(queue.Nodes()))
      ensures queue.Contents() == old(queue.Contents()) + ProbeMessages(probes)
    {
      hide Queue.Valid, Queue.Contents;
      ghost var before := queue.Contents();
      assert before + ProbeMessages(probes[..0]) == before;
      for i := 0 to |probes|
        invariant queue.Valid() && fresh(queue.Nodes() - old(queue.Nodes()))
        invariant queue.Contents() == before + ProbeMessages(probes[..i])
      {
        assert ProbeMessages(probes[..i + 1]) == ProbeMessages(probes[..i]) + [Message(probes[i].0, probes[i].1, 0)];
        queue.Enqueue(probes[i].0, probes[i].1);
      }
      assert probes[..|probes|] == probes;
    }

    /** Nothing happened for ten seconds: forget the stale peers, and probe again if it is time and
        probing is not turned off. */
    method Timeout(now: int, noprobe: int, interval: int, probes: seq<(SockAddr, seq<Byte>)>)
      requires Valid() && clock <= now
      modifies this`clock, this`lastProbe, peers, queue, queue.Nodes()
      ensures Valid() && fresh(queue.Nodes() - old(queue.Nodes()))
      ensures Everything() == TimedOut(old(Everything()), now, noprobe, interval, probes)
    {
      hide Safe, UniqueKeys, AsMap, Registry.Valid, AllEncodable, Unique, Fresh, ProbeMessages,
           Queue.Valid, Queue.Contents;
      queue.Idle();
      peers.Expire(now, noprobe, lastProbe, clock);
      clock := now;
      if queue.pending == 0 && now - lastProbe >= interval && noprobe <= 0 {
        QueueProbes(probes);
        lastProbe := now;
      }
    }

    /** handle_io: whatever select reports and the system calls return, wake-up after wake-up.
        `run` records the world before the first and after each wake-up. */
    method HandleIo(noprobe: int, interval: int, wakes: seq<Wake>) returns (ghost run: seq<World>)
      requires Valid()
      modifies this`clock, this`lastProbe, ch, registry, peers, queue, queue.Nodes()
      ensures Valid() && fresh(queue.Nodes() - old(queue.Nodes()))
      ensures IsRun(id, noprobe, interval, wakes, run) && Leads(run, old(Everything()), Everything())
      ensures |run| <= |wakes| ==> EndsFatally(wakes, run)
    {
      hide IsRun, Leads, EndsFatally, Woken, WorldOk, Queue.Valid, Peers.Valid, Registry.Valid, UniqueKeys, AsMap, Safe,
           AllEncodable, Unique, Queue.Contents, Fatal;
      run := [Everything()];
      ValidIsOk();
      RunStarts(id, noprobe, interval, wakes, Everything());
      for k := 0 to |wakes|
        invariant Valid() && fresh(queue.Nodes() - old(queue.Nodes()))
        invariant |run| == k + 1 && IsRun(id, noprobe, interval, wakes, run)
        invariant Leads(run, old(Everything()), Everything())
      {
        ghost var w := Everything();
        var fatal := WakeUp(noprobe, interval, wakes[k]);
        ValidIsOk();
        RunGoesOn(id, noprobe, interval, wakes, run, old(Everything()), w, Everything());
        run := run + [Everything()];
        if fatal {
          return;
        }
      }
    }

    /** One turn of the loop of handle_io. */
    method WakeUp(noprobe: int, interval: int, wake: Wake) returns (fatal: bool)
      requires Valid()
      modifies this`clock, this`lastProbe, ch, registry, peers, queue, queue.Nodes()
      ensures Valid() && fresh(queue.Nodes() - old(queue.Nodes()))
      ensures WorldOk(id, old(Everything())) && Woken(id, noprobe, interval, old(Everything()), Everything(), wake)
      ensures fatal <==> Fatal(old(Everything()), wake)
    {
      hide WorldOk, Queue.Valid, Peers.Valid, Registry.Valid, UniqueKeys, AsMap, Safe,
           AllEncodable, Unique, Queue.Contents, Swept, Purged, TimedOut;
      fatal := false;
      ValidIsOk();
      match wake
      case Active(rfds, wfds, act) =>
        var acts := seq(FD_SETSIZE, act);
        ghost var ws := Sweep(rfds * ch.readFds, wfds, acts);
      case Bad(bad) =>
        fatal := Purge(bad);
      case Quiet(now, probes) =>
        Timeout(if now < clock then clock else now, noprobe, interval, probes);
    }
  }
}
