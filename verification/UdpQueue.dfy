/** The linked list of datagrams waiting to be sent. */
module UdpQueue {
  import opened Bytes

  datatype SockAddr = SockAddr(addr: Word32, port: int)

  /** A message as the queue sees it: destination, data, and how much of it is sent. */
  datatype Message = Message(to: SockAddr, dat: seq<Byte>, pos: nat)

  /** How much of a message is sent after a call that returned `r`. */
  function After(m: Message, r: int): nat {
    if r > 0 then m.pos + r else m.pos
  }

  /** Only the first message is affected: it advances, and leaves when it is complete or when
      the call failed for any reason but that it would block. */
  function SendStep(q: seq<Message>, r: int, wouldBlock: bool): seq<Message> {
    if q == [] then []
    else if After(q[0], r) == |q[0].dat| || !wouldBlock then q[1..]
    else [q[0].(pos := After(q[0], r))] + q[1..]
  }

  /** What becomes of a message that is not yet wholly sent: it leaves if all of the rest was taken,
      or if the call did not block; otherwise it waits with the taken part gone. */
  lemma SendOutcome(q: seq<Message>, r: int, wouldBlock: bool)
    requires q != [] && q[0].pos < |q[0].dat| && r <= |q[0].dat| - q[0].pos
    ensures var rest, e := |q[0].dat| - q[0].pos, SendStep(q, r, wouldBlock);
            && (r == rest ==> e == q[1..])
            && (r < rest && !wouldBlock ==> e == q[1..])
            && (0 < r < rest && wouldBlock ==>
                  |e| == |q| && e[1..] == q[1..] && e[0] == Message(q[0].to, q[0].dat, q[0].pos + r))
            && (r <= 0 && wouldBlock ==> e == q)
  {
  }

  class UData {
    const addr: SockAddr
    const dat: seq<Byte>
    var pos: nat
    var next: UData?

    constructor (addr: SockAddr, dat: seq<Byte>)
      ensures this.addr == addr && this.dat == dat && pos == 0 && next == null
    {
      this.addr, this.dat, pos, next := addr, dat, 0, null;
    }
  }

  class Queue {
    var head: UData?
    var pending: nat
    ghost var spine: seq<UData>

    ghost function Nodes(): set<object>
      reads this
    {
      set e | e in spine
    }

    ghost function NodeAt(i: nat): UData?
      reads this
    {
      if i < |spine| then spine[i] else null
    }

    ghost predicate Valid()
      reads this, spine
    {
      && head == NodeAt(0)
      && (forall i | 0 <= i < |spine| :: spine[i].next == NodeAt(i + 1))
      && (forall i, j | 0 <= i < j < |spine| :: spine[i] != spine[j])
      && (forall i | 0 <= i < |spine| :: spine[i].pos <= |spine[i].dat|)
      && pending == |spine|
    }

    ghost function Contents(): (s: seq<Message>)
      reads this, spine
      ensures |s| == |spine|
    {
      seq(|spine|, i requires 0 <= i < |spine| reads this, spine =>
            Message(spine[i].addr, spine[i].dat, spine[i].pos))
    }

    constructor ()
      ensures Valid() && spine == [] && Contents() == []
    {
      head, pending, spine := null, 0, [];
    }

    lemma Idle()
      requires Valid()
      ensures pending == 0 <==> Contents() == []
    {
    }

    /** Walk the list to its last message. */
    method Last() returns (tmp: UData)
      requires Valid() && head != null
      ensures spine != [] && tmp == spine[|spine| - 1]
    {
      tmp := head;
      ghost var i := 0;
      while tmp.next != null
        invariant 0 <= i < |spine| && tmp == spine[i]
        decreases |spine| - i
        modifies {}
      {
        tmp := tmp.next;
        i := i + 1;
      }
    }

    /** Put a new message behind the last one. */
    method Attach(entry: UData)
      requires Valid() && entry !in spine && entry.next == null && entry.pos <= |entry.dat|
      modifies this, Nodes()
      ensures Valid() && spine == old(spine) + [entry]
      ensures forall i | 0 <= i < |old(spine)| :: old(spine)[i].pos == old(spine[i].pos)
    {
      hide SendStep, Contents;
      if head != null {
        var tmp := Last();
        tmp.next := entry;
      } else {
        head := entry;
      }
      spine := spine + [entry];
      pending := pending + 1;
    }

    /** queue_msg: append at the end, walking the list to find it. */
    method Enqueue(a: SockAddr, d: seq<Byte>)
      requires Valid()
      modifies this, Nodes()
      ensures Valid()
      ensures Contents() == old(Contents()) + [Message(a, d, 0)]
      ensures fresh(Nodes() - old(Nodes()))
    {
      hide SendStep;
      var entry := new UData(a, d);
      Attach(entry);
    }

    method Detach()
      requires Valid() && spine != []
      modifies this
      ensures Valid() && spine == old(spine)[1..]
    {
      hide SendStep, Contents;
      head := head.next;
      spine := spine[1..];
      assert forall i | 0 <= i < |spine| :: spine[i] == old(spine)[i + 1];
      pending := pending - 1;
    }

    /** queue_pop: drop the first message, if any. */
    method Pop()
      requires Valid()
      modifies this
      ensures Valid()
      ensures spine == if old(spine) == [] then [] else old(spine)[1..]
      ensures Nodes() <= old(Nodes())
      ensures Contents() == if old(Contents()) == [] then [] else old(Contents())[1..]
    {
      hide SendStep;
      if head != null {
        Detach();
      }
    }

    method Step(r: int)
      requires Valid() && spine != []
      requires r <= |spine[0].dat| - spine[0].pos
      modifies spine[0]
      ensures Valid() && spine[0].pos == if r > 0 then old(spine[0].pos) + r else old(spine[0].pos)
      ensures forall i | 0 < i < |spine| :: spine[i].pos == old(spine[i].pos)
    {
      hide SendStep, Contents;
      if r > 0 {
        head.pos := head.pos + r;
        assert forall i | 0 < i < |spine| :: spine[i] != spine[0];
      }
    }

    /** Record that `r` bytes of the first message were taken. */
    method Advance(r: int)
      requires Valid() && spine != []
      requires r <= |spine[0].dat| - spine[0].pos
      modifies spine[0]
      ensures Valid()
      ensures Contents() == [old(Contents())[0].(pos := spine[0].pos)] + old(Contents())[1..]
      ensures spine[0].pos == if r > 0 then old(spine[0].pos) + r else old(spine[0].pos)
    {
      hide SendStep, Valid;
      Step(r);
    }

    /** handle_send: offer the rest of the first message to the socket.  `r` is what the
        system call returned, `wouldBlock` whether errno was EWOULDBLOCK. */
    method HandleSend(r: int, wouldBlock: bool) returns (sent: bool)
      requires Valid()
      requires spine != [] ==> r <= |spine[0].dat| - spine[0].pos
      modifies this, Nodes()
      ensures Valid()
      ensures Nodes() <= old(Nodes())
      ensures Contents() == SendStep(old(Contents()), r, wouldBlock)
      ensures sent <==> old(Contents()) != [] && After(old(Contents())[0], r) == |old(Contents())[0].dat|
    {
      sent := false;
      if head != null {
        var entry: UData := head;
        Advance(r);
        if entry.pos != |entry.dat| {
          if !wouldBlock {
            Pop();
          }
        } else {
          sent := true;
          Pop();
        }
      }
    }
  }
}
