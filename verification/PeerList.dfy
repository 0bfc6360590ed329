/** The list of known name servers, in the order in which they were last heard from. */
module PeerList {
  import opened Bytes
  import opened BitOps
  import opened Interfaces
  import opened Shifting

  /** The network test as it is written: with logical rather than bitwise conjunctions. */
  predicate LooksLocal(f: Iface, a: Addr) {
    (f.mask != ANY && f.addr != ANY) == (f.mask != ANY && a != ANY)
  }

  predicate OnLocalNet(ifs: seq<Iface>, a: Addr) {
    exists i | 0 <= i < |ifs| :: LooksLocal(ifs[i], a)
  }

  method IsLocalNet(ifs: seq<Iface>, a: Addr) returns (r: bool)
    ensures r <==> OnLocalNet(ifs, a)
  {
    for i := 0 to |ifs|
      invariant forall j | 0 <= j < i :: !LooksLocal(ifs[j], a)
    {
      if LooksLocal(ifs[i], a) {
        return true;
      }
    }
    return false;
  }

  /** What the test amounts to: any address passes if some interface has a zero mask;
      otherwise only whether it is zero matters, whatever network it is on. */
  lemma OnLocalNetIff(ifs: seq<Iface>, a: Addr)
    ensures OnLocalNet(ifs, a) <==>
            || (exists i | 0 <= i < |ifs| :: ifs[i].mask == ANY)
            || (exists i | 0 <= i < |ifs| :: (ifs[i].addr == ANY) == (a == ANY))
  {
    if i :| 0 <= i < |ifs| && ifs[i].mask == ANY {
      assert LooksLocal(ifs[i], a);
    } else if i :| 0 <= i < |ifs| && (ifs[i].addr == ANY) == (a == ANY) {
      assert LooksLocal(ifs[i], a);
    }
  }

  /** The test that was meant: the same network under some interface's mask. */
  predicate SameNet(ifs: seq<Iface>, a: Addr) {
    exists i | 0 <= i < |ifs| :: ifs[i].Net() == a.And(ifs[i].mask)
  }

  /** When the written test gives the right answer: an address on a local network passes iff
      some interface has a zero mask or agrees with it in being zero, and one on no local
      network is turned away iff no interface does. */
  lemma OnLocalNetRightIff(ifs: seq<Iface>, a: Addr)
    ensures OnLocalNet(ifs, a) == SameNet(ifs, a) <==>
            if SameNet(ifs, a) then
              (exists i | 0 <= i < |ifs| :: ifs[i].mask == ANY || (ifs[i].addr == ANY) == (a == ANY))
            else
              (forall i | 0 <= i < |ifs| :: ifs[i].mask != ANY && (ifs[i].addr == ANY) != (a == ANY))
  {
    OnLocalNetIff(ifs, a);
  }

  /** Every interface has an address and a mask, as init_iface sees to. */
  predicate Configured(ifs: seq<Iface>) {
    ifs != [] && forall i | 0 <= i < |ifs| :: ifs[i].addr != ANY && ifs[i].mask != ANY
  }

  /** Then all that is left of the test is that the address is not zero. */
  lemma OnLocalNetConfigured(ifs: seq<Iface>, a: Addr)
    ensures Configured(ifs) ==> (OnLocalNet(ifs, a) <==> a != ANY)
  {
    OnLocalNetIff(ifs, a);
    if Configured(ifs) {
      assert ifs[0].addr != ANY;
    }
  }

  /** So it is right about an address exactly if that is on a local network, or is the zero
      address and on none. */
  lemma ConfiguredRightIff(ifs: seq<Iface>, a: Addr)
    requires Configured(ifs)
    ensures OnLocalNet(ifs, a) == SameNet(ifs, a) <==> if a != ANY then SameNet(ifs, a) else !SameNet(ifs, a)
  {
    OnLocalNetConfigured(ifs, a);
  }

  /** To an interface 192.168.0.1 with 24 network bits, 8.8.8.8 counts as local. */
  lemma FarAddressPasses(f: Iface, a: Addr)
    requires f.addr == Addr(0xC0_A800, 1) && f.mask == Addr(0xFF_FFFF, 0) && a == Split(0x0808_0808)
    ensures OnLocalNet([f], a) && !SameNet([f], a)
  {
    hide And;
    AllOnes(f.addr.net);
    AllOnes(a.net);
    OnLocalNetIff([f], a);
    assert [f][0] == f;
  }

  // ---------- the list ----------

  datatype Peer = Peer(sin: Word32, when: int)

  ghost predicate Distinct(s: seq<Peer>) {
    forall i, j | 0 <= i < j < |s| :: s[i].sin != s[j].sin
  }

  ghost predicate InOrder(s: seq<Peer>) {
    forall i, j | 0 <= i < j < |s| :: s[i].when <= s[j].when
  }

  /** The list without an address. */
  function Without(s: seq<Peer>, a: Word32): seq<Peer> {
    if s == [] then [] else (if s[0].sin == a then [] else [s[0]]) + Without(s[1..], a)
  }

  predicate Stale(p: Peer, noprobe: int, when: int, lastProbe: int) {
    noprobe == 0 && p.when < when - 1800 && p.when < lastProbe
  }

  /** The list without the entries that are stale. */
  function Fresh(s: seq<Peer>, noprobe: int, when: int, lastProbe: int): seq<Peer> {
    if s == [] then []
    else (if Stale(s[0], noprobe, when, lastProbe) then [] else [s[0]]) + Fresh(s[1..], noprobe, when, lastProbe)
  }

  lemma TailFacts(s: seq<Peer>)
    requires Distinct(s) && InOrder(s) && s != []
    ensures Distinct(s[1..]) && InOrder(s[1..])
  {
    assert forall i | 0 <= i < |s[1..]| :: s[1..][i] == s[i + 1];
  }

  lemma {:induction false} WithoutFacts(s: seq<Peer>, a: Word32)
    requires Distinct(s) && InOrder(s)
    ensures var r := Without(s, a);
            && Distinct(r) && InOrder(r)
            && (forall p :: p in r <==> p in s && p.sin != a)
  {
    if s != [] {
      TailFacts(s);
      WithoutFacts(s[1..], a);
      var q := Without(s[1..], a);
      assert s == [s[0]] + s[1..];
      forall k | 0 <= k < |q| ensures s[0].sin != q[k].sin && s[0].when <= q[k].when {
        assert q[k] in s[1..];
        var l :| 0 <= l < |s[1..]| && s[1..][l] == q[k];
        assert s[l + 1] == q[k];
      }
    }
  }

  lemma {:induction false} FreshFacts(s: seq<Peer>, noprobe: int, when: int, lastProbe: int)
    requires Distinct(s) && InOrder(s)
    ensures var r := Fresh(s, noprobe, when, lastProbe);
            && Distinct(r) && InOrder(r)
            && (forall p :: p in r <==> p in s && !Stale(p, noprobe, when, lastProbe))
  {
    if s != [] {
      TailFacts(s);
      FreshFacts(s[1..], noprobe, when, lastProbe);
      var q := Fresh(s[1..], noprobe, when, lastProbe);
      assert s == [s[0]] + s[1..];
      forall k | 0 <= k < |q| ensures s[0].sin != q[k].sin && s[0].when <= q[k].when {
        assert q[k] in s[1..];
        var l :| 0 <= l < |s[1..]| && s[1..][l] == q[k];
        assert s[l + 1] == q[k];
      }
    }
  }

  lemma {:induction false} WithoutAbsent(s: seq<Peer>, a: Word32)
    requires forall i | 0 <= i < |s| :: s[i].sin != a
    ensures Without(s, a) == s
  {
    if s != [] {
      WithoutAbsent(s[1..], a);
    }
  }

  lemma {:induction false} WithoutAt(s: seq<Peer>, i: nat)
    requires Distinct(s) && i < |s|
    ensures Without(s, s[i].sin) == s[..i] + s[i + 1..]
  {
    if i == 0 {
      WithoutAbsent(s[1..], s[0].sin);
    } else {
      assert forall j | 0 <= j < |s[1..]| :: s[1..][j] == s[j + 1];
      WithoutAt(s[1..], i - 1);
      assert s[..i] + s[i + 1..] == [s[0]] + (s[1..][..i - 1] + s[1..][i..]);
    }
  }

  lemma AppendLatest(s: seq<Peer>, p: Peer)
    requires Distinct(s) && InOrder(s)
    requires forall q | q in s :: q.sin != p.sin && q.when <= p.when
    ensures Distinct(s + [p]) && InOrder(s + [p])
    ensures forall q | q in s + [p] :: q.when <= p.when
  {
    forall j | 0 <= j < |s| ensures s[j].sin != p.sin && s[j].when <= p.when {
      assert s[j] in s;
    }
  }

  /** Going back by one position, keeping or dropping the entry there. */
  lemma ExpireStep(all: seq<Peer>, i: nat, noprobe: int, when: int, lastProbe: int)
    requires i < |all|
    ensures var now, r := all[..i + 1] + Fresh(all[i + 1..], noprobe, when, lastProbe),
                          all[..i] + Fresh(all[i..], noprobe, when, lastProbe);
            && now[i] == all[i]
            && r == if Stale(all[i], noprobe, when, lastProbe) then now[..i] + now[i + 1..] else now
  {
    assert all[i..][0] == all[i] && all[i..][1..] == all[i + 1..];
  }

  /** The list after contact with `a`, which must be another host on a local network. */
  function Contacted(ifs: seq<Iface>, s: seq<Peer>, a: Word32, now: int): seq<Peer> {
    if LocalHost(ifs, Split(a)) || !OnLocalNet(ifs, Split(a)) then s else Without(s, a) + [Peer(a, now)]
  }

  /** Another host on a local network is listed last, with the time, and once; the others keep their
      places; and any other address changes nothing. */
  lemma ContactedIs(ifs: seq<Iface>, s: seq<Peer>, a: Word32, now: int)
    requires Distinct(s) && InOrder(s)
    ensures var r := Contacted(ifs, s, a, now);
            if LocalHost(ifs, Split(a)) || !OnLocalNet(ifs, Split(a)) then r == s
            else
              && r != [] && r[|r| - 1] == Peer(a, now)
              && (forall p :: p in r[..|r| - 1] <==> p in s && p.sin != a)
              && InOrder(r[..|r| - 1]) && Distinct(r[..|r| - 1])
  {
    hide OnLocalNet, LocalHost;
    WithoutFacts(s, a);
    var q := Without(s, a);
    assert (q + [Peer(a, now)])[..|q|] == q;
  }

  /** The server forgets exactly those it has heard nothing from for half an hour although it has
      probed since, unless it does not probe. */
  lemma FreshIff(s: seq<Peer>, noprobe: int, when: int, lastProbe: int, p: Peer)
    requires Distinct(s) && InOrder(s) && p in s
    ensures p !in Fresh(s, noprobe, when, lastProbe) <==>
            noprobe == 0 && when - p.when > 30 * 60 && lastProbe > p.when
  {
    FreshFacts(s, noprobe, when, lastProbe);
  }

  /** Addresses, most recently contacted first. */
  function Latest(s: seq<Peer>): (r: seq<Word32>)
    ensures |r| == |s|
  {
    if s == [] then [] else Latest(s[1..]) + [s[0].sin]
  }

  lemma LatestSplit(s: seq<Peer>)
    requires s != []
    ensures Latest(s) == Latest(s[1..]) + [s[0].sin]
  {
  }

  function Addresses(a: seq<Word32>): seq<Byte> {
    if a == [] then [] else Put32(Big, a[0]) + Addresses(a[1..])
  }

  function ServersBytes(requester: Word32, s: seq<Peer>): (b: seq<Byte>)
    ensures b != []
  {
    Put32(Big, (|s| + 1) % 0x1_0000_0000) + Addresses([requester] + Latest(s))
  }

  lemma {:induction false} AddressesAppend(a: seq<Word32>, x: Word32)
    ensures Addresses(a + [x]) == Addresses(a) + Put32(Big, x)
    decreases |a|
  {
    if a == [] {
      assert a + [x] == [x] && [x][1..] == [];
    } else {
      assert (a + [x])[0] == a[0] && (a + [x])[1..] == a[1..] + [x];
      AddressesAppend(a[1..], x);
    }
  }

  class Peers {
    var prb: seq<Peer>
    var prbSize: nat

    /** `clock` bounds the times recorded so far. */
    ghost predicate Valid(clock: int)
      reads this
    {
      && Distinct(prb) && InOrder(prb) && |prb| <= prbSize
      && forall p | p in prb :: p.when <= clock
    }

    constructor ()
      ensures prb == [] && forall clock :: Valid(clock)
    {
      prb, prbSize := [], 0;
    }

    /** Backward search for an address. */
    method IndexOf(a: Word32) returns (found: bool, i: nat)
      ensures found ==> i < |prb| && prb[i].sin == a
      ensures !found ==> forall j | 0 <= j < |prb| :: prb[j].sin != a
    {
      i := |prb|;
      while i > 0
        invariant i <= |prb|
        invariant forall j | i <= j < |prb| :: prb[j].sin != a
      {
        i := i - 1;
        if prb[i].sin == a {
          return true, i;
        }
      }
      found := false;
    }

    /** Record contact with `a` now: it moves to the end of the list. */
    method Add(ifs: seq<Iface>, a: Word32, now: int, ghost clock: int)
      requires Valid(clock) && clock <= now
      modifies this
      ensures Valid(now)
      ensures prb == Contacted(ifs, old(prb), a, now)
    {
      var here := IsLocalHost(ifs, Split(a));
      if here {
        return;
      }
      var near := IsLocalNet(ifs, Split(a));
      if !near {
        return;
      }
      WithoutFacts(prb, a);
      var found, i := IndexOf(a);
      if found {
        WithoutAt(prb, i);
        prb := CloseGap(prb, i);
      } else {
        WithoutAbsent(prb, a);
      }
      AppendLatest(prb, Peer(a, now));
      if |prb| >= prbSize {
        prbSize := |prb| + 16;
      }
      prb := prb + [Peer(a, now)];
    }

    method Del(a: Word32, ghost clock: int)
      requires Valid(clock)
      modifies this`prb
      ensures Valid(clock) && prb == Without(old(prb), a)
    {
      WithoutFacts(prb, a);
      var found, i := IndexOf(a);
      if found {
        WithoutAt(prb, i);
        prb := CloseGap(prb, i);
      } else {
        WithoutAbsent(prb, a);
      }
    }

    /** Drop the stale entries, scanning backwards while deleting. */
    method Expire(when: int, noprobe: int, lastProbe: int, ghost clock: int)
      requires Valid(clock)
      modifies this`prb
      ensures Valid(clock) && prb == Fresh(old(prb), noprobe, when, lastProbe)
    {
      ghost var all := prb;
      var i := |prb|;
      assert all[..i] == all;
      while i > 0
        invariant Valid(clock)
        invariant 0 <= i <= |prb| && i <= |all| && prb == all[..i] + Fresh(all[i..], noprobe, when, lastProbe)
      {
        i := i - 1;
        ExpireStep(all, i, noprobe, when, lastProbe);
        if Stale(prb[i], noprobe, when, lastProbe) {
          WithoutAt(prb, i);
          Del(prb[i].sin, clock);
        }
      }
      assert all[0..] == all;
    }

    /** The reply to GDO_SERVERS: a count, the requester, then the peers, latest first. */
    method ServersReply(requester: Word32) returns (buf: seq<Byte>)
      ensures buf == ServersBytes(requester, prb)
    {
      var count := (|prb| + 1) % 0x1_0000_0000;
      buf := Put32(Big, count) + Put32(Big, requester);
      assert Addresses([requester]) == Put32(Big, requester) + Addresses([]);
      assert prb[|prb|..] == [];
      var j := |prb|;
      assert [requester] + Latest([]) == [requester];
      while j > 0
        invariant 0 <= j <= |prb|
        invariant buf == Put32(Big, count) + Addresses([requester] + Latest(prb[j..]))
      {
        j := j - 1;
        LatestSplit(prb[j..]);
        assert prb[j..][0] == prb[j] && prb[j..][1..] == prb[j + 1..];
        assert [requester] + (Latest(prb[j + 1..]) + [prb[j].sin]) == [requester] + Latest(prb[j + 1..]) + [prb[j].sin];
        AddressesAppend([requester] + Latest(prb[j + 1..]), prb[j].sin);
        buf := buf + Put32(Big, prb[j].sin);
      }
      assert prb[0..] == prb;
    }
  }

  lemma {:induction false} LatestAt(s: seq<Peer>, k: nat)
    requires k < |s|
    ensures Latest(s)[k] == s[|s| - 1 - k].sin
  {
    if k < |s| - 1 {
      LatestAt(s[1..], k);
    }
  }

  /** Every peer is listed once, in the reverse order of contact. */
  lemma LatestFirst(s: seq<Peer>)
    requires Distinct(s)
    ensures forall k | 0 <= k < |s| :: Latest(s)[k] == s[|s| - 1 - k].sin
    ensures forall j, k | 0 <= j < k < |s| :: Latest(s)[j] != Latest(s)[k]
  {
    forall k | 0 <= k < |s| ensures Latest(s)[k] == s[|s| - 1 - k].sin {
      LatestAt(s, k);
    }
  }

  lemma {:induction false} AddressesLength(a: seq<Word32>)
    ensures |Addresses(a)| == 4 * |a|
  {
    if a != [] {
      AddressesLength(a[1..]);
    }
  }

  /** A client that reads the reply recovers the list. */
  lemma {:induction false} AddressesAt(a: seq<Word32>, k: nat)
    requires k < |a|
    ensures |Addresses(a)| == 4 * |a| && Get32(Big, Addresses(a)[4 * k..4 * k + 4]) == a[k]
  {
    AddressesLength(a);
    AddressesLength(a[1..]);
    if k == 0 {
      assert Addresses(a)[0..4] == Put32(Big, a[0]);
      GetOfPut(Big, a[0]);
    } else {
      AddressesAt(a[1..], k - 1);
      assert Addresses(a)[4 * k..4 * k + 4] == Addresses(a[1..])[4 * (k - 1)..4 * (k - 1) + 4];
    }
  }
}
