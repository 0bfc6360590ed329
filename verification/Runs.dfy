/** What one event of a run does to the server, and what it leaves alone. */
module Runs {
  import opened Bytes
  import opened Interfaces
  import opened PortMap
  import opened NamesReply
  import opened PeerList
  import opened UdpQueue
  import opened Channels
  import opened Wrappers
  import opened GdomapServer
  import opened Handling

  // ---------- reading ----------

  lemma RequestIsLocal(c: State, d: int, reply: Option<seq<Byte>>)
    requires d in c.readers
    ensures OnlyAbout(c, RequestStep(c, d, reply), d)
  {
  }

  /** A client whose request has been handled is written the reply, or its connection is ended if
      there is none. */
  lemma RequestOutcome(c: State, d: int, reply: Option<seq<Byte>>)
    requires d in c.readers && InRange(d) && d != c.tcp && d != c.udp
    ensures var e := RequestStep(c, d, reply);
            && d !in e.readFds
            && (reply.Some? ==> d in e.writeFds && d in e.writers && e.writers[d] == WInfo(reply.value, 0))
            && (reply.None? ==> d !in e.writeFds && d !in e.readers && d !in e.writers && d !in e.conns)
  {
  }

  lemma TakenIs(offered: seq<seq<Byte>>, buf: seq<Byte>)
    requires |buf| < 264
    ensures var all, b := buf + Stream(offered), buf + Taken(offered, 264 - |buf|);
            b == if |all| >= 264 then all[..264] else all
  {
    var s, room := Stream(offered), 264 - |buf|;
    if |s| > room {
      assert (buf + s)[..264] == buf + s[..room];
    }
  }

  lemma GotIsLocal(c: State, d: int, b: seq<Byte>)
    requires d in c.readers && d in c.conns
    ensures OnlyAbout(c, Got(c, d, b), d)
  {
  }

  lemma OnlyAboutSelf(c: State, d: int)
    ensures OnlyAbout(c, c, d)
  {
  }

  lemma ReaderInRange(c: State, d: int)
    requires Safe(c) && d in c.readers && d in c.readFds && d != c.tcp && d != c.udp
    ensures InRange(d) && d in c.conns && |c.readers[d].buf| < 264 && d !in c.writeFds
  {
    hide HistoryOk;
    assert d in c.readFds + c.writeFds;
    assert ClientOk(c, d);
  }

  lemma ClearedClient(c: State, d: int)
    requires InRange(d) && d != c.tcp && d != c.udp
    ensures var e := Cleared(c, d); d !in e.readFds && d !in e.writeFds && d !in e.readers && d !in e.conns
  {
  }

  /** A client is read.  As soon as 264 bytes have come, in however many pieces, they are handled as
      its request; until then it waits, if something came and more may come, and otherwise its
      connection is ended and nothing else happens. */
  lemma ReadOutcome(id: Identity, c: State, d: int, offered: seq<seq<Byte>>, wouldBlock: bool, env: Env,
                    before: Data, after: Data, e: State, reply: Option<seq<Byte>>)
    requires AllEncodable(before.table) && Safe(c) && d in c.readers && d in c.readFds && d != c.tcp && d != c.udp
    requires ReadEffect(id, c, d, offered, wouldBlock, env, before, after, e, reply)
    ensures var all := c.readers[d].buf + Stream(offered);
            && (|all| >= 264 ==>
                  && Handled(id, all[..264], c.readers[d].addr, false, env, before, after, reply)
                  && d !in e.readFds
                  && (reply.Some? ==> d in e.writeFds && d in e.writers && e.writers[d] == WInfo(reply.value, 0))
                  && (reply.None? ==> d !in e.writeFds && d !in e.conns))
            && (|all| < 264 ==>
                  && after == before
                  && (wouldBlock && Stream(offered) != [] ==>
                        d in e.readFds && d in e.readers && e.readers[d].buf == all)
                  && (!wouldBlock || Stream(offered) == [] ==>
                        d !in e.readFds && d !in e.writeFds && d !in e.readers && d !in e.conns))
    ensures OnlyAbout(c, e, d)
  {
    hide Outcome, Decode, RequestStep, Taken, Stream, Cleared, AllEncodable, ClientsOk, HistoryOk, Listening;
    var buf := c.readers[d].buf;
    TakenIs(offered, buf);
    ReaderInRange(c, d);
    var b := Taken(offered, 264 - |buf|);
    var g := Got(c, d, b);
    GotIsLocal(c, d, b);
    RequestIsLocal(g, d, reply);
    RequestOutcome(g, d, reply);
    ClearedClient(g, d);
    OnlyAboutBoth(c, g, e, d) by {
      ClearedIsLocal(g, d);
      OnlyAboutSelf(g, d);
    }
    if |buf + Stream(offered)| < 264 {
      assert b == [] <==> Stream(offered) == [];
    }
  }

  lemma DatagramIsLocal(c: State, from: SockAddr, b: seq<Byte>)
    requires c.udp in c.readers
    ensures OnlyAbout(c, GotDatagram(c, from, b), c.udp) && c.udp in GotDatagram(c, from, b).readers
  {
  }

  /** A datagram of 264 bytes from another host is handled as a request, and its reply is queued
      for the sender, behind the further addresses for another name server that probes this one;
      of a longer one the first 264 bytes are; any other is dropped. */
  lemma RecvOutcome(id: Identity, w: World, v: World, from: SockAddr, data: Option<seq<Byte>>, env: Env,
                    reply: Option<seq<Byte>>)
    requires WorldOk(id, w) && RecvEffect(id, w, v, from, data, env, reply)
    ensures data.None? || |data.value| < 264 || LocalHost(id.ifs, Split(from.addr)) ==> v.d == w.d && v.q == w.q
    ensures data.Some? && |data.value| >= 264 && !LocalHost(id.ifs, Split(from.addr)) ==>
              var b := data.value[..264];
              && Handled(id, b, from, true, env, w.d, v.d, reply)
              && (reply.None? ==> v.q == w.q)
              && (reply.Some? && (b[0] != 'P' as int || from.port != id.port) ==>
                    v.q == w.q + [Message(from, reply.value, 0)])
              && (reply.Some? && b[0] == 'P' as int && b[2] == 0 && from.port == id.port ==>
                    v.q == w.q + MessagesTo(SockAddr(Get32(Big, b[8..12]), id.port), env.extras)
                               + [Message(from, reply.value, 0)])
    ensures OnlyAbout(w.c, v.c, w.c.udp)
  {
    hide Outcome, Safe, Sorted, AllEncodable, LocalHost, Get32, MessagesTo, RequestStep, GotDatagram;
    UdpIsReader(w.c);
    OnlyAboutSelf(w.c, w.c.udp);
    if data.Some? {
      var b := Fitting(data.value);
      assert |data.value| >= 264 ==> b == data.value[..264];
      if |b| == 264 {
        assert b[8..264][..4] == b[8..12];
      }
      var c := GotDatagram(w.c, from, b);
      DatagramIsLocal(w.c, from, b);
      RequestIsLocal(c, w.c.udp, reply);
      OnlyAboutBoth(w.c, c, v.c, w.c.udp) by {
        OnlyAboutSelf(c, w.c.udp);
      }
    }
  }

  // ---------- a visit ----------

  lemma NotAccepted(c: State, from: SockAddr, nonblocking: bool)
    ensures Accepted(c, -1, from, nonblocking) == c
  {
  }

  lemma AcceptIsLocal(c: State, act: Act)
    requires Safe(c)
    ensures OnlyAbout(c, Accepted(c, UsableDesc(c, act.newDesc), act.from, act.nonblocking), act.newDesc)
  {
    hide Safe, OnlyAbout, Accepted;
    if Free(c, act.newDesc) {
      AcceptedOutcome(c, act.newDesc, act.from, act.nonblocking);
    } else {
      NotAccepted(c, act.from, act.nonblocking);
      OnlyAboutSelf(c, act.newDesc);
    }
  }

  lemma ReadIsLocal(id: Identity, c: State, d: int, offered: seq<seq<Byte>>, wouldBlock: bool, env: Env,
                    before: Data, after: Data, e: State, reply: Option<seq<Byte>>)
    requires AllEncodable(before.table)
    requires ReadEffect(id, c, d, offered, wouldBlock, env, before, after, e, reply)
    ensures OnlyAbout(c, e, d)
  {
    hide Outcome, Decode, RequestStep, Taken, AllEncodable, Cleared, Got, OnlyAbout;
    OnlyAboutSelf(c, d);
    if d in c.readers {
      var g := Got(c, d, Taken(offered, 264 - |c.readers[d].buf|));
      GotIsLocal(c, d, Taken(offered, 264 - |c.readers[d].buf|));
      RequestIsLocal(g, d, reply);
      ClearedIsLocal(g, d);
      OnlyAboutSelf(g, d);
      OnlyAboutBoth(c, g, e, d);
    }
  }

  lemma ReadSideIsLocal(id: Identity, w: World, v: World, i: int, canRead: bool, act: Act)
    requires WorldOk(id, w) && ReadSide(id, w, v, i, canRead, act)
    ensures OnlyAbout(w.c, v.c, if i == w.c.tcp then act.newDesc else i)
  {
    hide Safe, Sorted, AllEncodable, Outcome, Decode, RequestStep, GotDatagram, Accepted, Queued, ReadEffect,
         RecvEffect, Free, OnlyAbout;
    OnlyAboutSelf(w.c, i);
    OnlyAboutSelf(w.c, act.newDesc);
    if canRead {
      var env := act.env.(now := if act.env.now < w.clock then w.clock else act.env.now);
      if i == w.c.tcp {
        AcceptIsLocal(w.c, act);
      } else if i == w.c.udp {
        var reply :| RecvEffect(id, w, v, act.from, act.data, env, reply);
        RecvOutcome(id, w, v, act.from, act.data, env, reply);
      } else {
        var reply :| ReadEffect(id, w.c, i, act.offered, act.wouldBlock, env, w.d, v.d, v.c, reply);
        ReadIsLocal(id, w.c, i, act.offered, act.wouldBlock, env, w.d, v.d, v.c, reply);
      }
    }
  }

  lemma WriteSideIsLocal(id: Identity, w: World, v: World, i: int, canWrite: bool, act: Act)
    requires WorldOk(id, w) && WriteSide(id, w, v, i, canWrite, act)
    ensures OnlyAbout(w.c, v.c, i)
  {
    hide Safe, Sorted, AllEncodable, WriteStep, SendStep, OnlyAbout;
    OnlyAboutSelf(w.c, i);
    if i in w.c.writers && i != w.c.udp {
      WriteOutcome(w.c, i, AtMost(act.written, |w.c.writers[i].buf| - w.c.writers[i].pos));
    }
  }

  /** Whatever happens on one descriptor, nothing changes about any other, except about the new
      client that a listener accepts. */
  lemma VisitIsLocal(id: Identity, w: World, v: World, i: int, canRead: bool, canWrite: bool, act: Act)
    requires WorldOk(id, w) && Visited(id, w, v, i, canRead, canWrite, act)
    ensures i != w.c.tcp ==> OnlyAbout(w.c, v.c, i)
    ensures i == w.c.tcp ==> exists m :: OnlyAbout(w.c, m, act.newDesc) && OnlyAbout(m, v.c, i)
  {
    hide WorldOk, ReadSide, WriteSide, OnlyAbout;
    var m: World :| WorldOk(id, m) && ReadSide(id, w, m, i, canRead, act) && WriteSide(id, m, v, i, canWrite, act);
    ReadSideIsLocal(id, w, m, i, canRead, act);
    WriteSideIsLocal(id, m, v, i, canWrite, act);
    if i != w.c.tcp {
      OnlyAboutBoth(w.c, m.c, v.c, i);
    }
  }

  // ---------- other wake-ups ----------

  /** After ten quiet seconds: peers are forgotten; the probes are queued, and the time is noted, if
      nothing waits to be sent, the interval has passed and probing is on; connections and names
      stay. */
  lemma QuietOutcome(w: World, now: int, noprobe: int, interval: int, probes: seq<(SockAddr, seq<Byte>)>)
    requires Distinct(w.d.peers) && InOrder(w.d.peers)
    ensures var v, probing := TimedOut(w, now, noprobe, interval, probes),
                              w.q == [] && now >= w.lastProbe + interval && noprobe <= 0;
            && v.c == w.c && v.d.table == w.d.table && v.clock == now
            && (forall p | p in w.d.peers ::
                  p !in v.d.peers <==> noprobe == 0 && now - p.when > 1800 && w.lastProbe > p.when)
            && (forall p | p in v.d.peers :: p in w.d.peers)
            && (!probing ==> v.q == w.q && v.lastProbe == w.lastProbe)
            && (probing ==>
                  && v.lastProbe == now && |v.q| == |probes|
                  && forall i | 0 <= i < |probes| :: v.q[i] == Message(probes[i].0, probes[i].1, 0))
  {
    FreshFacts(w.d.peers, noprobe, now, w.lastProbe);
  }

  /** Bad descriptors: it is fatal exactly if a listener that is watched is among them, and then up
      to it, otherwise all, watched bad ones are cleared, and only those. */
  lemma {:induction false} PurgedOutcome(c: State, watched: set<int>, bad: set<int>, n: nat)
    requires n <= FD_SETSIZE && InRange(c.tcp) && InRange(c.udp)
    ensures var (e, fatal) := Purged(c, watched, bad, n);
            && e.tcp == c.tcp && e.udp == c.udp
            && (fatal <==> exists d :: 0 <= d < n && d in watched && d in bad && (d == c.tcp || d == c.udp))
            && (!fatal ==> forall d | 0 <= d < n && d in watched && d in bad ::
                             d !in e.readFds && d !in e.writeFds && d !in e.readers && d !in e.conns)
            && (forall d | !(0 <= d < n && d in watched && d in bad) ::
                  && (d in e.readFds <==> d in c.readFds) && (d in e.writeFds <==> d in c.writeFds)
                  && (d in e.conns <==> d in c.conns) && (d in c.conns ==> e.conns[d] == c.conns[d]))
    decreases n
  {
    hide Cleared;
    if n > 0 {
      PurgedOutcome(c, watched, bad, n - 1);
      PurgedNext(c, watched, bad, n - 1);
      var (m, over) := Purged(c, watched, bad, n - 1);
      ClearedIsLocal(m, n - 1);
      if n - 1 != c.tcp && n - 1 != c.udp {
        ClearedClient(m, n - 1);
      }
    }
  }
}
