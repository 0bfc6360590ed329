/** The descriptors that the name server watches, the requests being read and the replies
    being written, and the history of every connection. */
module Channels {
  import opened Bytes
  import opened Slots
  import opened UdpQueue
  import opened Wrappers

  const FD_SETSIZE := 1024
  const GDO_REQ_SIZE: nat := 264

  /** The state of reading a request: who sends it, and what has been read. */
  datatype RInfo = RInfo(addr: SockAddr, buf: seq<Byte>)

  /** A reply and how much of it has been written. */
  datatype WInfo = WInfo(buf: seq<Byte>, pos: nat)

  /** What has happened on one connection: the bytes read, the requests handled, their
      replies, the bytes written, and whether it was closed because all were written. */
  datatype Conn = Conn(received: seq<Byte>, requests: seq<seq<Byte>>, replies: seq<seq<Byte>>,
                       sent: seq<Byte>, complete: bool)

  const NEW_CONN := Conn([], [], [], [], false)

  datatype State = State(tcp: int, udp: int, readFds: set<int>, writeFds: set<int>,
                         readers: map<int, RInfo>, writers: map<int, WInfo>,
                         conns: map<int, Conn>, closed: seq<Conn>)

  // ---------- what always holds ----------

  /** At most one request per connection, on its first GDO_REQ_SIZE bytes, and only a prefix
      of the one reply is ever written: all of it if the connection was completed. */
  predicate HistoryOk(h: Conn) {
    && |h.received| <= GDO_REQ_SIZE
    && h.requests == (if |h.received| == GDO_REQ_SIZE then [h.received] else [])
    && |h.replies| <= |h.requests|
    && h.sent <= (if h.replies == [] then [] else h.replies[0])
    && (h.complete ==> h.replies != [] && h.sent == h.replies[0])
  }

  /** A connection is either reading its request or writing its reply. */
  predicate ClientOk(c: State, d: int)
    requires d in c.conns && d in c.readers
  {
    var h, r := c.conns[d], c.readers[d];
    if d in c.readFds then
      |r.buf| < GDO_REQ_SIZE && h == NEW_CONN.(received := r.buf)
    else
      && d in c.writers
      && var w := c.writers[d];
      && w.pos < |w.buf| && |r.buf| == GDO_REQ_SIZE
      && h == Conn(r.buf, [r.buf], [w.buf], w.buf[..w.pos], false)
  }

  predicate InRange(d: int) { 0 <= d < FD_SETSIZE }

  /** How the descriptor sets and the records fit together. */
  predicate Tables(c: State) {
    && InRange(c.tcp) && InRange(c.udp) && c.tcp != c.udp
    && c.tcp !in c.conns && c.udp !in c.conns && c.tcp in c.readFds
    && c.readers.Keys == c.conns.Keys + {c.tcp, c.udp}
    && c.readFds !! c.writeFds
    && c.readFds + c.writeFds == c.conns.Keys + {c.tcp, c.udp}
    && c.writers.Keys - {c.udp} == c.writeFds - {c.udp}
    && (forall d | d in c.conns :: InRange(d))
    && (forall h | h in c.closed :: HistoryOk(h))
  }

  predicate Listening(c: State) {
    && c.udp in c.readFds
    && (c.udp in c.writers ==> c.writers[c.udp] == WInfo([], 0))
  }

  /** The clients other than `but` are in order. */
  ghost predicate ClientsOk(c: State, but: int)
    requires Tables(c)
  {
    forall d | d in c.conns && d != but :: ClientOk(c, d)
  }

  ghost predicate Safe(c: State) {
    Tables(c) && Listening(c) && ClientsOk(c, c.tcp)
  }

  /** A whole request has been read on `d` and awaits its handling. */
  ghost predicate Ready(c: State, d: int) {
    && Tables(c) && Listening(c) && ClientsOk(c, d)
    && d in c.readFds && d != c.tcp && d in c.readers && |c.readers[d].buf| == GDO_REQ_SIZE
    && (d != c.udp ==> d in c.conns && c.conns[d] == NEW_CONN.(received := c.readers[d].buf))
  }

  lemma ClientHistory(c: State, d: int)
    requires d in c.conns && d in c.readers && ClientOk(c, d)
    ensures HistoryOk(c.conns[d])
  {
  }

  /** What it means for a state to be safe. */
  lemma ChannelSafety(c: State, d: int)
    requires Safe(c)
    ensures d == c.tcp || d == c.udp ==> d in c.readFds && d !in c.writeFds
    ensures d != c.tcp && d != c.udp ==>
              (d in c.readers <==> d in c.readFds || d in c.writeFds) && !(d in c.readFds && d in c.writeFds)
    ensures d != c.udp ==> (d in c.writers <==> d in c.writeFds)
    ensures d in c.readFds && d != c.tcp && d != c.udp ==> |c.readers[d].buf| < GDO_REQ_SIZE
    ensures d in c.writeFds ==> c.writers[d].pos < |c.writers[d].buf|
    ensures d in c.conns ==> HistoryOk(c.conns[d])
    ensures forall h | h in c.closed :: HistoryOk(h)
  {
    assert d in c.readers <==> d in c.conns.Keys + {c.tcp, c.udp};
    assert d in c.readFds + c.writeFds <==> d in c.conns.Keys + {c.tcp, c.udp};
    assert d in c.writers.Keys - {c.udp} <==> d in c.writeFds - {c.udp};
    if d in c.conns {
      assert ClientOk(c, d);
      ClientHistory(c, d);
    }
  }

  // ---------- the steps ----------

  function Cleared(c: State, d: int): State {
    if !InRange(d) then c
    else if d == c.tcp || d == c.udp then
      c.(readFds := c.readFds + {d}, writeFds := c.writeFds - {d},
         writers := if d in c.writers then c.writers[d := WInfo([], 0)] else c.writers)
    else
      c.(readFds := c.readFds - {d}, writeFds := c.writeFds - {d},
         writers := c.writers - {d}, readers := c.readers - {d},
         conns := c.conns - {d}, closed := if d in c.conns then c.closed + [c.conns[d]] else c.closed)
  }

  function Accepted(c: State, d: int, addr: SockAddr, nonblocking: bool): State {
    if d < 0 then c
    else
      var o := c.(readFds := c.readFds + {d}, readers := c.readers[d := RInfo(addr, [])],
                  conns := c.conns[d := NEW_CONN]);
      if nonblocking then o else Cleared(o, d)
  }

  function Got(c: State, d: int, b: seq<Byte>): State
    requires d in c.readers && d in c.conns
  {
    c.(readers := c.readers[d := c.readers[d].(buf := c.readers[d].buf + b)],
       conns := c.conns[d := c.conns[d].(received := c.conns[d].received + b)])
  }

  /** What a buffer is known to hold after a datagram has been read into it: all of a whole
      request, and of anything shorter as much as covers what it held before.  Bytes behind that
      are not recorded; nothing reads them. */
  function Overwritten(old_: seq<Byte>, b: seq<Byte>): seq<Byte> {
    if |b| == GDO_REQ_SIZE then b
    else if |b| <= |old_| then b + old_[|b|..]
    else b[..|old_|]
  }

  /** A shorter datagram overwrites the beginning of what is known, and leaves the rest. */
  lemma OverwrittenIs(old_: seq<Byte>, b: seq<Byte>)
    requires |b| <= GDO_REQ_SIZE
    ensures var r := Overwritten(old_, b);
            && (|b| == 264 ==> r == b)
            && (|b| < 264 ==> |r| == |old_| && forall k | 0 <= k < |r| :: r[k] == if k < |b| then b[k] else old_[k])
  {
  }

  /** A datagram overwrites what was read before, and the address. */
  function GotDatagram(c: State, addr: SockAddr, b: seq<Byte>): State
    requires c.udp in c.readers
  {
    c.(readers := c.readers[c.udp := RInfo(addr, Overwritten(c.readers[c.udp].buf, b))])
  }

  function Begun(c: State, d: int): State
    requires d in c.readers
  {
    c.(readFds := c.readFds - {d}, writeFds := c.writeFds + {d},
       writers := c.writers[d := WInfo([], 0)],
       conns := if d !in c.conns then c.conns
                else c.conns[d := c.conns[d].(requests := c.conns[d].requests + [c.readers[d].buf])])
  }

  function Answered(c: State, d: int, reply: seq<Byte>): State {
    c.(writers := c.writers[d := WInfo(reply, 0)],
       conns := if d !in c.conns then c.conns
                else c.conns[d := c.conns[d].(replies := c.conns[d].replies + [reply])])
  }

  function Written(c: State, d: int, n: nat): State
    requires d in c.writers && d in c.conns && c.writers[d].pos + n <= |c.writers[d].buf|
  {
    var w := c.writers[d];
    c.(writers := c.writers[d := w.(pos := w.pos + n)],
       conns := c.conns[d := c.conns[d].(sent := c.conns[d].sent + w.buf[w.pos..w.pos + n])])
  }

  function Completed(c: State, d: int): State
    requires d in c.conns
  {
    Cleared(c.(conns := c.conns[d := c.conns[d].(complete := true)]), d)
  }

  // ---------- the steps keep what holds ----------

  /** A client that a step does not concern stays in order. */
  lemma ClientKept(c: State, e: State, d: int)
    requires d in c.conns && d in c.readers && ClientOk(c, d)
    requires d in e.conns && e.conns[d] == c.conns[d] && d in e.readers && e.readers[d] == c.readers[d]
    requires d in c.writers ==> d in e.writers && e.writers[d] == c.writers[d]
    requires d in c.readFds <==> d in e.readFds
    ensures ClientOk(e, d)
  {
  }

  /** Records and write-watched descriptors still agree if they agree on the one that changes. */
  lemma SameWriters(c: State, e: State, d: int)
    requires c.writers.Keys - {c.udp} == c.writeFds - {c.udp} && e.udp == c.udp
    requires forall x | x != d :: (x in e.writers <==> x in c.writers) && (x in e.writeFds <==> x in c.writeFds)
    requires d != c.udp ==> (d in e.writers <==> d in e.writeFds)
    ensures e.writers.Keys - {e.udp} == e.writeFds - {e.udp}
  {
    forall x | x != e.udp ensures x in e.writers <==> x in e.writeFds {
      assert x in c.writers.Keys - {c.udp} <==> x in c.writeFds - {c.udp};
    }
  }

  /** Clearing a descriptor whose history is in order. */
  lemma SafeCleared(c: State, d: int)
    requires Tables(c) && ClientsOk(c, d)
    requires d in c.conns ==> HistoryOk(c.conns[d])
    requires c.udp in c.readFds || d == c.udp
    requires d == c.udp || (c.udp in c.writers ==> c.writers[c.udp] == WInfo([], 0))
    ensures Safe(Cleared(c, d))
  {
    hide HistoryOk, ClientOk;
    var e := Cleared(c, d);
    forall x | x in e.conns ensures ClientOk(e, x) {
      ClientKept(c, e, x);
    }
    assert d in c.writers.Keys - {c.udp} <==> d in c.writeFds - {c.udp};
    SameWriters(c, e, d);
    assert e.readFds + e.writeFds == e.conns.Keys + {e.tcp, e.udp};
    assert Tables(e);
  }

  /** Closing a connection because all of its reply is written. */
  lemma SafeCompleted(c: State, d: int)
    requires Tables(c) && Listening(c) && ClientsOk(c, d) && d in c.conns
    requires HistoryOk(c.conns[d].(complete := true))
    ensures Safe(Completed(c, d))
  {
    hide HistoryOk, ClientOk;
    var o := c.(conns := c.conns[d := c.conns[d].(complete := true)]);
    assert o.conns.Keys == c.conns.Keys;
    forall x | x in o.conns && x != d ensures ClientOk(o, x) {
      ClientKept(c, o, x);
    }
    SafeCleared(o, d);
  }

  /** A descriptor that is not in use. */
  predicate Free(c: State, d: int) {
    InRange(d) && d != c.tcp && d != c.udp && d !in c.conns
  }

  lemma NewClient(c: State, d: int)
    requires d in c.conns && d in c.readers && d in c.readFds && c.conns[d] == NEW_CONN && c.readers[d].buf == []
    ensures ClientOk(c, d) && HistoryOk(c.conns[d])
  {
  }

  lemma SafeAccepted(c: State, d: int, addr: SockAddr, nonblocking: bool)
    requires Safe(c) && (d < 0 || Free(c, d))
    ensures Safe(Accepted(c, d, addr, nonblocking))
  {
    if d >= 0 {
      hide ClientOk;
      var o := Accepted(c, d, addr, true);
      forall x | x in o.conns && x != d ensures ClientOk(o, x) {
        ClientKept(c, o, x);
      }
      NewClient(o, d);
      assert Tables(o);
      if !nonblocking {
        SafeCleared(o, d);
      }
    }
  }

  lemma ReadingClient(c: State, d: int)
    requires d in c.conns && d in c.readers && d in c.readFds
    requires |c.readers[d].buf| < GDO_REQ_SIZE && c.conns[d] == NEW_CONN.(received := c.readers[d].buf)
    ensures ClientOk(c, d)
  {
  }

  lemma SafeGot(c: State, d: int, b: seq<Byte>)
    requires Safe(c) && d in c.conns && d in c.readFds && |c.readers[d].buf| + |b| <= GDO_REQ_SIZE
    ensures var e := Got(c, d, b);
            if |c.readers[d].buf| + |b| < GDO_REQ_SIZE then Safe(e) else Ready(e, d)
  {
    var e := Got(c, d, b);
    assert ClientOk(c, d);
    assert e.conns[d] == NEW_CONN.(received := e.readers[d].buf);
    hide ClientOk, HistoryOk;
    forall x | x in e.conns && x != d ensures ClientOk(e, x) {
      ClientKept(c, e, x);
    }
    assert Tables(e);
    if |e.readers[d].buf| < GDO_REQ_SIZE {
      ReadingClient(e, d);
    }
  }

  lemma ReadyDatagram(c: State, addr: SockAddr, b: seq<Byte>)
    requires Safe(c)
    ensures var e := GotDatagram(c, addr, b);
            Safe(e) && (|b| == GDO_REQ_SIZE ==> Ready(e, c.udp))
  {
    hide ClientOk, HistoryOk;
    var e := GotDatagram(c, addr, b);
    forall x | x in e.conns ensures ClientOk(e, x) {
      ClientKept(c, e, x);
    }
    assert Tables(e);
  }

  lemma BegunOthers(c: State, d: int)
    requires Ready(c, d)
    ensures var e := Begun(c, d);
            && Tables(e) && ClientsOk(e, d)
            && (d in c.conns ==>
                  && HistoryOk(e.conns[d])
                  && e.conns[d] == Conn(c.readers[d].buf, [c.readers[d].buf], [], [], false))
  {
    var e := Begun(c, d);
    hide ClientOk;
    forall x | x in e.conns && x != d ensures ClientOk(e, x) {
      ClientKept(c, e, x);
    }
    assert e.conns.Keys == c.conns.Keys;
    assert e.readFds + e.writeFds == c.readFds + c.writeFds;
    SameWriters(c, e, d);
    assert e.readers.Keys == e.conns.Keys + {e.tcp, e.udp};
    assert e.tcp in e.readFds;
    assert Tables(e);
  }

  /** A request that is not answered: the connection is closed, the UDP socket read again. */
  lemma SafeRefused(c: State, d: int)
    requires Ready(c, d)
    ensures Safe(Cleared(Begun(c, d), d))
  {
    BegunOthers(c, d);
    SafeCleared(Begun(c, d), d);
  }

  lemma WritingClient(c: State, d: int)
    requires d in c.conns && d in c.readers && d in c.writers && d !in c.readFds
    requires c.writers[d].pos < |c.writers[d].buf| && |c.readers[d].buf| == GDO_REQ_SIZE
    requires c.conns[d] == Conn(c.readers[d].buf, [c.readers[d].buf], [c.writers[d].buf],
                                c.writers[d].buf[..c.writers[d].pos], false)
    ensures ClientOk(c, d)
  {
  }

  /** A reply to a client is now to be written. */
  lemma SafeAnswered(c: State, d: int, reply: seq<Byte>)
    requires Ready(c, d) && d in c.conns && reply != []
    ensures Safe(Answered(Begun(c, d), d, reply))
  {
    BegunOthers(c, d);
    var b := Begun(c, d);
    var e := Answered(b, d, reply);
    WritingClient(e, d);
    hide ClientOk, HistoryOk;
    forall x | x in e.conns && x != d ensures ClientOk(e, x) {
      ClientKept(b, e, x);
    }
    assert e.conns.Keys == b.conns.Keys;
    assert d in b.writers.Keys - {b.udp} <==> d in b.writeFds - {b.udp};
    SameWriters(b, e, d);
    assert Tables(e);
  }

  /** A reply to a datagram is queued elsewhere, and the UDP socket read again. */
  lemma SafeDatagram(c: State, reply: seq<Byte>)
    requires Ready(c, c.udp)
    ensures Safe(Cleared(Answered(Begun(c, c.udp), c.udp, reply), c.udp))
  {
    SafeRefused(c, c.udp);
    assert Cleared(Answered(Begun(c, c.udp), c.udp, reply), c.udp) == Cleared(Begun(c, c.udp), c.udp);
  }

  lemma CompletedHistory(h: Conn, reply: seq<Byte>)
    requires |h.received| == GDO_REQ_SIZE && h == Conn(h.received, [h.received], [reply], reply, true)
    ensures HistoryOk(h)
  {
  }

  /** Part or all of a reply has been written. */
  lemma SafeWritten(c: State, d: int, n: nat)
    requires Safe(c) && d in c.conns && d in c.writers && c.writers[d].pos + n <= |c.writers[d].buf|
    ensures var e, w := Written(c, d, n), c.writers[d];
            if w.pos + n < |w.buf| then Safe(e)
            else d in e.conns && Safe(Completed(e, d))
  {
    assert ClientOk(c, d) && d !in c.readFds by {
      assert d in c.writers.Keys - {c.udp};
    }
    var w, e := c.writers[d], Written(c, d, n);
    assert w.buf[..w.pos] + w.buf[w.pos..w.pos + n] == w.buf[..w.pos + n];
    if w.pos + n < |w.buf| {
      WritingClient(e, d);
    } else {
      assert w.buf[..w.pos + n] == w.buf;
    }
    hide ClientOk, HistoryOk;
    forall x | x in e.conns && x != d ensures ClientOk(e, x) {
      ClientKept(c, e, x);
    }
    assert e.conns.Keys == c.conns.Keys && e.writers.Keys == c.writers.Keys;
    assert Tables(e);
    if w.pos + n == |w.buf| {
      CompletedHistory(e.conns[d].(complete := true), w.buf);
      SafeCompleted(e, d);
    }
  }

  // ---------- reads in pieces ----------

  /** What a descriptor has to offer, read by read, up to the first read that yields nothing. */
  function Stream(offered: seq<seq<Byte>>): seq<Byte> {
    if offered == [] || offered[0] == [] then [] else offered[0] + Stream(offered[1..])
  }

  /** The part of it for which there is room. */
  function Taken(offered: seq<seq<Byte>>, room: nat): (b: seq<Byte>)
    ensures |b| <= room
  {
    var s := Stream(offered);
    if |s| <= room then s else s[..room]
  }

  lemma TakenStep(offered: seq<seq<Byte>>, room: nat)
    requires room > 0 && offered != [] && offered[0] != []
    ensures var n := if |offered[0]| <= room then |offered[0]| else room;
            && n > 0
            && Taken(offered, room) == offered[0][..n] + Taken(if n == room then [] else offered[1..], room - n)
  {
    var first, rest := offered[0], Stream(offered[1..]);
    assert Stream(offered) == first + rest;
    if |first| < room {
      if |first + rest| > room {
        assert (first + rest)[..room] == first + rest[..room - |first|];
      }
    } else {
      assert (first + rest)[..room] == first[..room];
    }
  }

  lemma {:induction false} StreamOfPieces(xs: seq<seq<Byte>>, ys: seq<seq<Byte>>)
    requires [] !in xs
    ensures Stream(xs + ys) == Stream(xs) + Stream(ys)
    decreases |xs|
  {
    if xs == [] {
      assert xs + ys == ys;
    } else {
      assert (xs + ys)[0] == xs[0] && (xs + ys)[1..] == xs[1..] + ys;
      StreamOfPieces(xs[1..], ys);
    }
  }

  /** A read that yields nothing is the last one that counts. */
  lemma {:induction false} StreamStops(xs: seq<seq<Byte>>, b: seq<Byte>, ys: seq<seq<Byte>>)
    requires [] !in xs && b != []
    ensures Stream([b]) == b && Stream(xs + [[]] + ys) == Stream(xs)
    decreases |xs|
  {
    assert [b][1..] == [];
    if xs == [] {
      assert xs + [[]] + ys == [[]] + ys;
    } else {
      assert (xs + [[]] + ys)[0] == xs[0] && (xs + [[]] + ys)[1..] == xs[1..] + [[]] + ys;
      StreamStops(xs[1..], b, ys);
    }
  }

  /** It does not matter how the bytes are split over the reads, nor over several calls. */
  lemma {:induction false} TakenOfPieces(xs: seq<seq<Byte>>, ys: seq<seq<Byte>>, room: nat)
    requires [] !in xs
    ensures Taken(xs + ys, room) == Taken(xs, room) + Taken(ys, room - |Taken(xs, room)|)
    decreases |xs|
  {
    StreamOfPieces(xs, ys);
    var a, b := Stream(xs), Stream(ys);
    if |a| > room {
      assert (a + b)[..room] == a[..room] + b[..0];
    } else if |a + b| > room {
      assert (a + b)[..room] == a + b[..room - |a|];
    }
  }

  // ---------- the tables themselves ----------

  /** Of all that is to be read, `got` has been; `buf` is what the record holds by now. */
  ghost predicate ToCome(offered: seq<seq<Byte>>, buf: seq<Byte>, done: bool, got: seq<Byte>, all: seq<Byte>)
    requires |buf| <= GDO_REQ_SIZE
  {
    got + (if done then [] else Taken(offered, GDO_REQ_SIZE - |buf|)) == all
  }

  lemma NothingTaken(offered: seq<seq<Byte>>, room: nat)
    requires offered == [] || offered[0] == []
    ensures Taken(offered, room) == []
  {
  }

  lemma NoRoom(offered: seq<seq<Byte>>)
    ensures Taken(offered, 0) == []
  {
  }

  lemma TakeNext(offered: seq<seq<Byte>>, k: nat, buf: seq<Byte>, got: seq<Byte>, all: seq<Byte>)
    requires k <= |offered| && |buf + got| < GDO_REQ_SIZE && ToCome(offered[k..], buf + got, false, got, all)
    ensures k == |offered| || offered[k] == [] ==> ToCome(offered[k..], buf + got, true, got, all)
    ensures k < |offered| && offered[k] != [] ==>
              var room := GDO_REQ_SIZE - |buf + got|;
              var r := if |offered[k]| <= room then |offered[k]| else room;
              && 0 < r && |buf + (got + offered[k][..r])| <= GDO_REQ_SIZE
              && ToCome(offered[k + 1..], buf + (got + offered[k][..r]), false, got + offered[k][..r], all)
  {
    hide Taken;
    var room := GDO_REQ_SIZE - |buf + got|;
    if k == |offered| || offered[k] == [] {
      NothingTaken(offered[k..], room);
    } else {
      var r := if |offered[k]| <= room then |offered[k]| else room;
      TakenStep(offered[k..], room);
      assert offered[k..][1..] == offered[k + 1..];
      if r == room {
        NoRoom(offered[k + 1..]);
        NoRoom([]);
      }
    }
  }

  lemma TakenAll(offered: seq<seq<Byte>>, buf: seq<Byte>, done: bool, got: seq<Byte>, all: seq<Byte>)
    requires |buf| <= GDO_REQ_SIZE && (done || |buf| == GDO_REQ_SIZE) && ToCome(offered, buf, done, got, all)
    ensures got == all
  {
    NoRoom(offered);
  }

  lemma WriterIsClient(c: State, d: int)
    requires Safe(c) && d in c.writers && d != c.udp
    ensures d in c.conns && d in c.readers && HistoryOk(c.conns[d]) && ClientOk(c, d)
    ensures c.writers[d].pos < |c.writers[d].buf|
  {
    assert d in c.writers.Keys - {c.udp};
    assert d in c.readFds + c.writeFds;
  }

  lemma SafeClosed(c: State, d: int)
    requires Safe(c)
    ensures Safe(Cleared(c, d))
  {
    hide HistoryOk, ClientOk, Cleared;
    if d in c.conns {
      ClientHistory(c, d);
    }
    SafeCleared(c, d);
  }

  /** What a write achieves. */
  ghost function WriteStep(c: State, d: int, r: int): State
    requires Safe(c) && d != c.udp
    requires d in c.writers ==> r <= |c.writers[d].buf| - c.writers[d].pos
  {
    if d !in c.writers then c
    else if r < 0 then Cleared(c, d)
    else
      WriterIsClient(c, d);
      var e := Written(c, d, r);
      if c.writers[d].pos + r < |c.writers[d].buf| then e else Completed(e, d)
  }

  // ---------- what the steps do, and to whom ----------

  /** Nothing is different about any descriptor but `d`, and no ended connection is forgotten. */
  ghost predicate OnlyAbout(c: State, e: State, d: int) {
    && e.tcp == c.tcp && e.udp == c.udp && c.closed <= e.closed
    && forall x | x != d ::
         && (x in e.readFds <==> x in c.readFds) && (x in e.writeFds <==> x in c.writeFds)
         && (x in e.readers <==> x in c.readers) && (x in c.readers ==> e.readers[x] == c.readers[x])
         && (x in e.writers <==> x in c.writers) && (x in c.writers ==> e.writers[x] == c.writers[x])
         && (x in e.conns <==> x in c.conns) && (x in c.conns ==> e.conns[x] == c.conns[x])
  }

  lemma OnlyAboutBoth(c: State, m: State, e: State, d: int)
    requires OnlyAbout(c, m, d) && OnlyAbout(m, e, d)
    ensures OnlyAbout(c, e, d)
  {
  }

  lemma ClearedIsLocal(c: State, d: int)
    ensures OnlyAbout(c, Cleared(c, d), d)
  {
  }

  /** Clearing a client ends its connection: it is watched no more, its records are gone, and its
      history is kept.  A listener goes on listening, with nothing to write. */
  lemma ClearedOutcome(c: State, d: int)
    requires Safe(c) && InRange(d)
    ensures var e := Cleared(c, d);
            if d == c.tcp || d == c.udp then
              && d in e.readFds && d !in e.writeFds && e.closed == c.closed
              && (d in e.writers ==> e.writers[d] == WInfo([], 0))
            else
              && d !in e.readFds && d !in e.writeFds && d !in e.readers && d !in e.writers && d !in e.conns
              && e.closed == if d in c.conns then c.closed + [c.conns[d]] else c.closed
  {
    hide ClientsOk, HistoryOk;
  }

  /** A new client is watched for reading and has sent nothing yet, if its descriptor could be made
      non-blocking; otherwise its connection is ended at once. */
  lemma AcceptedOutcome(c: State, d: int, addr: SockAddr, nonblocking: bool)
    requires Safe(c) && Free(c, d)
    ensures var e := Accepted(c, d, addr, nonblocking);
            && OnlyAbout(c, e, d)
            && (if nonblocking then
                  && d in e.readFds && d !in e.writeFds && d in e.readers && e.readers[d] == RInfo(addr, [])
                  && d in e.conns && e.conns[d] == NEW_CONN && e.closed == c.closed
                else d !in e.readFds && d !in e.writeFds && d !in e.readers && d !in e.conns)
  {
    hide HistoryOk, ClientOk;
    assert d !in c.readFds + c.writeFds by {
      assert d !in c.conns.Keys + {c.tcp, c.udp};
    }
  }

  lemma WriterIsNotTcp(c: State, d: int)
    requires Safe(c) && d in c.writers && d != c.udp
    ensures d != c.tcp && InRange(d) && d in c.conns && d in c.readers && ClientOk(c, d) && d !in c.readFds
  {
    WriterIsClient(c, d);
    assert d in c.writers.Keys - {c.udp};
  }

  /** Writing on a client: what is taken has been sent; when all is, the connection ends complete;
      and an error ends it as it is. */
  lemma WriteOutcome(c: State, d: int, r: int)
    requires Safe(c) && d != c.udp && d in c.writers && r <= |c.writers[d].buf| - c.writers[d].pos
    ensures d in c.conns
    ensures var w, e, h := c.writers[d], WriteStep(c, d, r), c.conns[d];
            && OnlyAbout(c, e, d)
            && (r < 0 ==> d !in e.conns && e.closed == c.closed + [h])
            && (0 <= r < |w.buf| - w.pos ==>
                  && d in e.conns && e.conns[d] == h.(sent := w.buf[..w.pos + r]) && e.closed == c.closed
                  && d in e.writers && e.writers[d] == WInfo(w.buf, w.pos + r))
            && (r == |w.buf| - w.pos ==>
                  d !in e.conns && e.closed == c.closed + [h.(sent := w.buf, complete := true)])
  {
    WriterIsClient(c, d);
    WriterIsNotTcp(c, d);
    hide HistoryOk, ClientsOk, Listening;
    var w := c.writers[d];
    if r >= 0 {
      assert w.buf[..w.pos] + w.buf[w.pos..w.pos + r] == w.buf[..w.pos + r];
      if w.pos + r == |w.buf| {
        assert w.buf[..w.pos + r] == w.buf;
      }
    }
  }

  class Watch {
    const tcpDesc: int
    const udpDesc: int
    var readFds: set<int>
    var writeFds: set<int>
    var rInfo: seq<Slot<RInfo>>
    var wInfo: seq<Slot<WInfo>>
    ghost var conns: map<int, Conn>
    ghost var closed: seq<Conn>

    ghost predicate Unique()
      reads this
    {
      UniqueKeys(rInfo) && UniqueKeys(wInfo)
    }

    ghost function Now(): State
      reads this
    {
      State(tcpDesc, udpDesc, readFds, writeFds, AsMap(rInfo), AsMap(wInfo), conns, closed)
    }

    /** The end of init_ports: both sockets listen. */
    constructor (tcpDesc: int, udpDesc: int)
      requires InRange(tcpDesc) && InRange(udpDesc) && tcpDesc != udpDesc
      ensures this.tcpDesc == tcpDesc && this.udpDesc == udpDesc
      ensures Unique() && Safe(Now()) && conns == map[] && closed == []
    {
      var noAddr := SockAddr(0, 0);
      this.tcpDesc, this.udpDesc := tcpDesc, udpDesc;
      readFds, writeFds := {tcpDesc, udpDesc}, {};
      rInfo := [Slot(tcpDesc, RInfo(noAddr, [])), Slot(udpDesc, RInfo(noAddr, []))];
      wInfo := [];
      conns, closed := map[], [];
      new;
      AsMapCons(rInfo[0], [rInfo[1]]);
      AsMapCons(rInfo[1], []);
      assert rInfo == [rInfo[0]] + [rInfo[1]] && [rInfo[1]] == [rInfo[1]] + [];
    }

    method ClearChan(desc: int)
      requires Unique()
      modifies this
      ensures Unique() && Now() == Cleared(old(Now()), desc)
    {
      hide AsMap, UniqueKeys;
      if 0 <= desc < FD_SETSIZE {
        writeFds := writeFds - {desc};
        if desc == tcpDesc || desc == udpDesc {
          readFds := readFds + {desc};
        } else {
          readFds := readFds - {desc};
          if desc in conns {
            closed := closed + [conns[desc]];
          }
          conns := conns - {desc};
        }
        var wi := Get(wInfo, desc);
        if wi.Some? {
          AsMapUpdate(wInfo, wi.value, WInfo([], 0));
          wInfo := wInfo[wi.value := Slot(desc, WInfo([], 0))];
        }
        if desc != tcpDesc && desc != udpDesc {
          if wi.Some? {
            wInfo := Del(wInfo, desc);
          }
          rInfo := Del(rInfo, desc);
        }
      }
    }

    /** The rest of handle_accept once a connection has been taken: `nonblocking` says whether
        the descriptor could be made so. */
    method Accept(desc: int, addr: SockAddr, nonblocking: bool)
      requires Unique()
      modifies this
      ensures Unique() && Now() == Accepted(old(Now()), desc, addr, nonblocking)
    {
      hide AsMap, UniqueKeys, Cleared;
      if desc >= 0 {
        readFds := readFds + {desc};
        var ri := Get(rInfo, desc);
        if ri.None? {
          AsMapAppend(rInfo, Slot(desc, RInfo(addr, [])));
          rInfo := rInfo + [Slot(desc, RInfo(addr, []))];
        } else {
          AsMapUpdate(rInfo, ri.value, RInfo(addr, []));
          rInfo := rInfo[ri.value := Slot(desc, RInfo(addr, []))];
        }
        conns := conns[desc := NEW_CONN];
        if !nonblocking {
          ClearChan(desc);
        }
      }
    }

    /** The loop of handle_read, over the record at `i`. */
    method Fill(desc: int, i: nat, offered: seq<seq<Byte>>) returns (nothingRead: bool)
      requires Unique() && i < |rInfo| && rInfo[i].s == desc && desc in conns
      requires desc in AsMap(rInfo) && AsMap(rInfo)[desc] == rInfo[i].info && |rInfo[i].info.buf| <= GDO_REQ_SIZE
      modifies this`rInfo, this`conns
      ensures Unique()
      ensures var b := Taken(offered, GDO_REQ_SIZE - |old(rInfo)[i].info.buf|);
              && Now() == Got(old(Now()), desc, b) && (nothingRead <==> b == [])
              && |rInfo| == |old(rInfo)| && rInfo[i].s == desc
              && rInfo[i].info.buf == old(rInfo)[i].info.buf + b
    {
      hide AsMap, UniqueKeys, Taken;
      ghost var a, ri0 := rInfo, rInfo[i].info;
      ghost var all := Taken(offered, GDO_REQ_SIZE - |ri0.buf|);
      nothingRead := true;
      var done, k := false, 0;
      ghost var got: seq<Byte> := [];
      assert ri0.buf + [] == ri0.buf && offered[0..] == offered && [] + all == all;
      while |rInfo[i].info.buf| < GDO_REQ_SIZE && !done
        invariant k <= |offered| && |rInfo| == |a| && conns == old(conns)
        invariant forall j | 0 <= j < |a| && j != i :: rInfo[j] == a[j]
        invariant rInfo[i] == Slot(desc, RInfo(ri0.addr, ri0.buf + got)) && |ri0.buf + got| <= GDO_REQ_SIZE
        invariant nothingRead <==> got == []
        invariant ToCome(offered[k..], ri0.buf + got, done, got, all)
        decreases |offered| - k, !done
      {
        var room := GDO_REQ_SIZE - |rInfo[i].info.buf|;
        TakeNext(offered, k, ri0.buf, got, all);
        if k == |offered| || offered[k] == [] {
          done := true;
        } else {
          var r := if |offered[k]| <= room then |offered[k]| else room;
          nothingRead := false;
          rInfo := rInfo[i := Slot(desc, RInfo(rInfo[i].info.addr, rInfo[i].info.buf + offered[k][..r]))];
          assert ri0.buf + got + offered[k][..r] == ri0.buf + (got + offered[k][..r]);
          got := got + offered[k][..r];
          k := k + 1;
        }
      }
      TakenAll(offered[k..], ri0.buf + got, done, got, all);
      assert rInfo == a[i := Slot(desc, ri0.(buf := ri0.buf + got))];
      AsMapUpdate(a, i, ri0.(buf := ri0.buf + got));
      conns := conns[desc := conns[desc].(received := conns[desc].received + got)];
    }

    /** A datagram has been received into the record at `i`. */
    method Receive(i: nat, from: SockAddr, b: seq<Byte>)
      requires Unique() && i < |rInfo| && rInfo[i].s == udpDesc
      requires udpDesc in AsMap(rInfo) && AsMap(rInfo)[udpDesc] == rInfo[i].info
      modifies this`rInfo
      ensures Unique() && Now() == GotDatagram(old(Now()), from, b)
    {
      hide AsMap, UniqueKeys;
      var buf := Overwritten(rInfo[i].info.buf, b);
      AsMapUpdate(rInfo, i, RInfo(from, buf));
      rInfo := rInfo[i := Slot(udpDesc, RInfo(from, buf))];
    }

    /** What handle_request does first: stop reading, start writing. */
    method Begin(desc: int)
      requires Unique() && desc in AsMap(rInfo)
      modifies this
      ensures Unique() && rInfo == old(rInfo) && Now() == Begun(old(Now()), desc)
    {
      hide AsMap, UniqueKeys;
      readFds := readFds - {desc};
      writeFds := writeFds + {desc};
      SetReply(desc, []);
      if desc in conns {
        conns := conns[desc := conns[desc].(requests := conns[desc].requests + [AsMap(rInfo)[desc].buf])];
      }
    }

    /** Replace the buffer of the record for writing, which is made if there is none. */
    method SetReply(desc: int, reply: seq<Byte>)
      requires Unique()
      modifies this`wInfo
      ensures Unique() && AsMap(wInfo) == old(AsMap(wInfo))[desc := WInfo(reply, 0)]
    {
      hide AsMap, UniqueKeys;
      var wi := Get(wInfo, desc);
      if wi.None? {
        AsMapAppend(wInfo, Slot(desc, WInfo(reply, 0)));
        wInfo := wInfo + [Slot(desc, WInfo(reply, 0))];
      } else {
        AsMapUpdate(wInfo, wi.value, WInfo(reply, 0));
        wInfo := wInfo[wi.value := Slot(desc, WInfo(reply, 0))];
      }
    }

    /** The reply is ready to be written. */
    method Answer(desc: int, reply: seq<Byte>)
      requires Unique()
      modifies this
      ensures Unique() && rInfo == old(rInfo) && Now() == Answered(old(Now()), desc, reply)
    {
      hide AsMap, UniqueKeys;
      SetReply(desc, reply);
      if desc in conns {
        conns := conns[desc := conns[desc].(replies := conns[desc].replies + [reply])];
      }
    }

    /** handle_write: `r` is what the system call returned, which is no more than it was given. */
    method HandleWrite(desc: int, r: int)
      requires Unique() && Safe(Now()) && desc != udpDesc
      requires desc in AsMap(wInfo) ==> r <= |AsMap(wInfo)[desc].buf| - AsMap(wInfo)[desc].pos
      modifies this
      ensures Unique() && Safe(Now())
      ensures Now() == WriteStep(old(Now()), desc, r)
    {
      hide AsMap, UniqueKeys, Cleared, ClientsOk, HistoryOk, ClientOk, Tables, Listening;
      ghost var c := Now();
      var wi := Get(wInfo, desc);
      if wi.None? {
        return;
      }
      WriterIsClient(c, desc);
      if r < 0 {
        SafeClosed(c, desc);
        ClearChan(desc);
      } else {
        SafeWritten(c, desc, r);
        var w := wInfo[wi.value].info;
        AsMapUpdate(wInfo, wi.value, w.(pos := w.pos + r));
        wInfo := wInfo[wi.value := Slot(desc, w.(pos := w.pos + r))];
        conns := conns[desc := conns[desc].(sent := conns[desc].sent + w.buf[w.pos..w.pos + r])];
        assert Now() == Written(c, desc, r);
        if w.pos + r >= |w.buf| {
          conns := conns[desc := conns[desc].(complete := true)];
          ClearChan(desc);
        }
      }
    }
  }
}
