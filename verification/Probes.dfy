/** Probing the local networks for other name servers. */
module Probes {
  import opened Bytes
  import opened BitOps
  import opened Interfaces

  const IASIZE: nat := 4
  const GDO_NAME_MAX_LEN: nat := 255
  const MAX_EXTRA: nat := (GDO_NAME_MAX_LEN - 2 * IASIZE) / IASIZE

  /** A queued probe; `nsize` is the one-byte length of the addresses it carries. */
  datatype Probe = Probe(to: Addr, from: Addr, nsize: Byte, extra: seq<Addr>)

  function MakeProbe(to: Addr, from: Addr, extra: seq<Addr>): Probe
    requires |extra| <= MAX_EXTRA
  {
    Probe(to, from, 2 * IASIZE + |extra| * IASIZE, extra)
  }

  // ---------- the other addresses of this host on a network ----------

  predicate OnNet(f: Iface, old_: Addr) {
    f.addr != old_ && f.addr.And(f.mask) == old_.And(f.mask)
  }

  function Others(ifs: seq<Iface>, old_: Addr): seq<Addr> {
    if ifs == [] then []
    else (if OnNet(ifs[0], old_) then [ifs[0].addr] else []) + Others(ifs[1..], old_)
  }

  /** Counting first, then filling an array of that size. */
  method OtherAddressesOnNet(ifs: seq<Iface>, old_: Addr) returns (numExtra: nat, addrs: array<Addr>)
    ensures fresh(addrs) && numExtra == addrs.Length && addrs[..] == Others(ifs, old_)
  {
    numExtra := 0;
    assert ifs[0..] == ifs;
    for i := 0 to |ifs|
      invariant numExtra + |Others(ifs[i..], old_)| == |Others(ifs, old_)|
    {
      assert ifs[i..][0] == ifs[i] && ifs[i..][1..] == ifs[i + 1..];
      if OnNet(ifs[i], old_) {
        numExtra := numExtra + 1;
      }
    }
    addrs := new Addr[numExtra];
    var n := 0;
    for i := 0 to |ifs|
      invariant 0 <= n && n + |Others(ifs[i..], old_)| == numExtra
      invariant addrs[..n] + Others(ifs[i..], old_) == Others(ifs, old_)
    {
      assert ifs[i..][0] == ifs[i] && ifs[i..][1..] == ifs[i + 1..];
      if OnNet(ifs[i], old_) {
        addrs[n] := ifs[i].addr;
        n := n + 1;
        assert addrs[..n] == addrs[..n - 1] + [ifs[i].addr];
        assert addrs[..n - 1] + ([ifs[i].addr] + Others(ifs[i + 1..], old_))
               == addrs[..n] + Others(ifs[i + 1..], old_);
      }
    }
    assert addrs[..n] == addrs[..];
  }

  // ---------- one target: probes in chunks ----------

  /** The extra addresses carried by some probes, those of the last probe first. */
  function Carried(ps: seq<Probe>): seq<Addr> {
    if ps == [] then [] else Carried(ps[1..]) + ps[0].extra
  }

  function Chunks(to: Addr, from: Addr, other: seq<Addr>): seq<Probe> {
    if |other| > MAX_EXTRA then
      [MakeProbe(to, from, other[|other| - MAX_EXTRA..])] + Chunks(to, from, other[..|other| - MAX_EXTRA])
    else [MakeProbe(to, from, other)]
  }

  method ProbeTarget(to: Addr, from: Addr, other: seq<Addr>) returns (ps: seq<Probe>)
    ensures ps == Chunks(to, from, other)
  {
    hide MakeProbe;
    ps := [];
    var len := |other|;
    assert other[..len] == other;
    while len > MAX_EXTRA
      invariant 0 <= len <= |other|
      invariant ps + Chunks(to, from, other[..len]) == Chunks(to, from, other)
    {
      ghost var l := len;
      len := len - MAX_EXTRA;
      assert other[..l][l - MAX_EXTRA..] == other[len..len + MAX_EXTRA];
      assert other[..l][..l - MAX_EXTRA] == other[..len];
      ps := ps + [MakeProbe(to, from, other[len..len + MAX_EXTRA])];
    }
    ps := ps + [MakeProbe(to, from, other[..len])];
  }

  /** The chunks partition the extra addresses; there are as few as possible, and at least one. */
  lemma {:induction false} ChunksPartition(to: Addr, from: Addr, other: seq<Addr>)
    ensures var ps := Chunks(to, from, other);
            && Carried(ps) == other
            && |ps| == (if other == [] then 1 else (|other| + 60) / 61)
            && (forall p | p in ps :: p.to == to && p.from == from && |p.extra| <= MAX_EXTRA
                                      && p.nsize == 8 + 4 * |p.extra| <= 252)
    decreases |other|
  {
    if |other| > MAX_EXTRA {
      var n := |other| - MAX_EXTRA;
      ChunksPartition(to, from, other[..n]);
      assert other[..n] + other[n..] == other;
    }
  }

  // ---------- one network ----------

  const CLASS_C_MASK := Addr(0xFF_FFFF, 0)

  /** The lowest and highest host number of an interface's subnet, in its class C network. */
  function Low(f: Iface): Byte { And(f.addr.host, f.mask.host) }
  function High(f: Iface): Byte { OrFits8(Low(f), 0xFF - f.mask.host); Or(Low(f), 0xFF - f.mask.host) }

  /** Masks are widened to class C so that at most a couple of hundred hosts are probed. */
  method WidenMask(mask: Addr) returns (hm: Addr)
    ensures hm == Addr(0xFF_FFFF, mask.host)
  {
    hm := mask;
    AllOnes(mask.net);
    if mask.Or(CLASS_C_MASK) != mask {
      hm := mask.Or(CLASS_C_MASK);
    }
  }

  function HostAddr(net: Net24, j: nat): Addr
    requires j <= 0xFF
  {
    Addr(net, j)
  }

  /** The probes for one host: none for an address of this host itself. */
  function HostProbe(ifs: seq<Iface>, from: Addr, other: seq<Addr>, a: Addr): seq<Probe> {
    if LocalHost(ifs, a) then [] else Chunks(a, from, other)
  }

  method ProbeHost(ifs: seq<Iface>, from: Addr, other: seq<Addr>, a: Addr) returns (ps: seq<Probe>)
    ensures ps == HostProbe(ifs, from, other, a)
  {
    ps := [];
    var here := IsLocalHost(ifs, a);
    if !here {
      ps := ProbeTarget(a, from, other);
    }
  }

  /** The probes for the host numbers from `j` up to `high`, exclusive. */
  function HostProbes(ifs: seq<Iface>, from: Addr, other: seq<Addr>, net: Net24, j: nat, high: nat): seq<Probe>
    requires high <= 0xFF
    decreases high - j
  {
    if j >= high then []
    else HostProbe(ifs, from, other, HostAddr(net, j)) + HostProbes(ifs, from, other, net, j + 1, high)
  }

  method ProbeHosts(ifs: seq<Iface>, from: Addr, other: seq<Addr>, net: Net24, low: nat, high: nat)
    returns (ps: seq<Probe>)
    requires high <= 0xFF
    ensures ps == HostProbes(ifs, from, other, net, low + 1, high)
  {
    hide HostProbe;
    ps := [];
    var j := low + 1;
    ghost var all := HostProbes(ifs, from, other, net, j, high);
    while j < high
      invariant ps + HostProbes(ifs, from, other, net, j, high) == all
    {
      var chunk := ProbeHost(ifs, from, other, HostAddr(net, j));
      ps := ps + chunk;
      j := j + 1;
    }
  }

  // ---------- which hosts are probed ----------

  /** The low byte of a mask is a run of ones followed by k zeros. */
  ghost predicate Contiguous(b: Byte, k: nat) {
    k <= 8 && b == 0x100 - Pow2(k)
  }

  /** On the subnet of `h` under the mask `m`, but neither its first nor its last address. */
  predicate ByteInside(h: Byte, m: Byte, x: Byte) {
    And(x, m) == And(h, m) && x != And(h, m) && x != Or(h, 0xFF - m)
  }

  lemma Cleared(h: nat, p: nat)
    requires p > 0
    ensures (h - h % p) % p == 0
  {
    assert h - h % p == (h / p) * p;
    ModUnique(h - h % p, p, h / p, 0);
  }

  lemma MaskedByte(h: Byte, m: Byte, k: nat)
    requires Contiguous(m, k)
    ensures And(h, m) == h - h % Pow2(k)
    ensures Or(h, 0xFF - m) == Or(And(h, m), 0xFF - m) == And(h, m) + Pow2(k) - 1
  {
    hide And, Or, Pow2;
    Powers();
    AndMask(h, 8, k);
    OrOnes(h, k);
    OrOnes(And(h, m), k);
    Cleared(h, Pow2(k));
  }

  lemma InsideBlock(h: nat, x: nat, a: nat, p: nat)
    requires x == h <==> h <= a < h + p
    ensures x == h && a != h && a != h + p - 1 <==> h < a < h + p - 1
  {
  }

  lemma SameBlock(h: nat, x: nat, p: nat)
    requires p > 0
    ensures x - x % p == h - h % p <==> h - h % p <= x < h - h % p + p
  {
    var q, r := x / p, h / p;
    assert x == q * p + x % p && h == r * p + h % p;
    assert (q - r) * p == q * p - r * p;
    Scaled(q - r, p);
  }

  lemma ByteInsideIff(h: Byte, m: Byte, x: Byte, k: nat)
    requires Contiguous(m, k)
    ensures ByteInside(h, m, x) <==> And(h, m) < x < Or(And(h, m), 0xFF - m)
  {
    MaskedByte(h, m, k);
    MaskedByte(x, m, k);
    SameBlock(h, x, Pow2(k));
    InsideBlock(And(h, m), And(x, m), x, Pow2(k));
  }

  /** A host of the interface's subnet, within its class C network, other than the network
      and broadcast addresses. */
  predicate Inside(f: Iface, a: Addr) {
    a.net == f.addr.net && ByteInside(f.addr.host, f.mask.host, a.host)
  }

  /** With a contiguous mask those are exactly the hosts between the two bounds of the loop. */
  lemma StrictlyInside(f: Iface, a: Addr, k: nat)
    requires Contiguous(f.mask.host, k)
    ensures Inside(f, a) <==> a.net == f.addr.net && Low(f) < a.host < High(f)
  {
    ByteInsideIff(f.addr.host, f.mask.host, a.host, k);
  }

  // ---------- what each host is sent ----------

  /** The probes addressed to `a`, in order. */
  function Sent(ps: seq<Probe>, a: Addr): seq<Probe> {
    if ps == [] then [] else (if ps[0].to == a then [ps[0]] else []) + Sent(ps[1..], a)
  }

  lemma {:induction false} SentConcat(ps: seq<Probe>, qs: seq<Probe>, a: Addr)
    ensures Sent(ps + qs, a) == Sent(ps, a) + Sent(qs, a)
    decreases |ps|
  {
    if ps == [] {
      assert ps + qs == qs;
    } else {
      assert (ps + qs)[0] == ps[0] && (ps + qs)[1..] == ps[1..] + qs;
      SentConcat(ps[1..], qs, a);
    }
  }

  lemma {:induction false} SentChunks(to: Addr, from: Addr, other: seq<Addr>, a: Addr)
    ensures Sent(Chunks(to, from, other), a) == if to == a then Chunks(to, from, other) else []
    decreases |other|
  {
    if |other| > MAX_EXTRA {
      SentChunks(to, from, other[..|other| - MAX_EXTRA], a);
    }
  }

  /** Each host in the range gets exactly one full set of chunks, unless it is this one. */
  lemma {:induction false} SentToHost(ifs: seq<Iface>, from: Addr, other: seq<Addr>, net: Net24,
                                      j: nat, high: nat, a: Addr)
    requires high <= 0xFF
    ensures Sent(HostProbes(ifs, from, other, net, j, high), a) ==
            if a.net == net && j <= a.host < high then HostProbe(ifs, from, other, a) else []
    decreases high - j
  {
    if j < high {
      var here := HostAddr(net, j);
      SentToHost(ifs, from, other, net, j + 1, high, a);
      SentConcat(HostProbe(ifs, from, other, here), HostProbes(ifs, from, other, net, j + 1, high), a);
      SentChunks(here, from, other, a);
    }
  }

  function SubnetProbes(ifs: seq<Iface>, f: Iface): seq<Probe> {
    HostProbes(ifs, f.addr, Others(ifs, f.addr), f.addr.net, Low(f) + 1, High(f))
  }

  /** For a contiguous mask: exactly the other hosts strictly inside the subnet are probed. */
  lemma SubnetProbesExact(ifs: seq<Iface>, f: Iface, a: Addr, k: nat)
    requires Contiguous(f.mask.host, k)
    ensures Sent(SubnetProbes(ifs, f), a) ==
            if Inside(f, a) && !LocalHost(ifs, a) then Chunks(a, f.addr, Others(ifs, f.addr)) else []
  {
    SentToHost(ifs, f.addr, Others(ifs, f.addr), f.addr.net, Low(f) + 1, High(f), a);
    StrictlyInside(f, a, k);
  }

  method ProbeSubnet(ifs: seq<Iface>, f: Iface) returns (ps: seq<Probe>)
    ensures ps == SubnetProbes(ifs, f)
  {
    var hm := WidenMask(f.mask);
    AllOnes(f.addr.net);
    var net := And(f.addr.net, hm.net);
    var low := And(f.addr.host, hm.host);
    OrFits8(low, 0xFF - hm.host);
    var high := Or(low, 0xFF - hm.host);
    var elen, other := OtherAddressesOnNet(ifs, f.addr);
    ps := ProbeHosts(ifs, f.addr, other[..], net, low, high);
  }

  // ---------- all networks ----------

  /** The distinct networks of the interfaces other than the loopback one. */
  function Nets(ifs: seq<Iface>, loopback: Addr, acc: seq<Addr>): seq<Addr> {
    if ifs == [] then acc
    else
      Nets(ifs[1..], loopback,
           if ifs[0].addr == loopback || ifs[0].Net() in acc then acc else acc + [ifs[0].Net()])
  }

  predicate NoRepeats(s: seq<Addr>) {
    forall i, j | 0 <= i < j < |s| :: s[i] != s[j]
  }

  /** No network is listed twice and none is missed. */
  lemma {:induction false} NetsExact(ifs: seq<Iface>, loopback: Addr, acc: seq<Addr>)
    requires NoRepeats(acc)
    ensures NoRepeats(Nets(ifs, loopback, acc))
    ensures forall n :: n in Nets(ifs, loopback, acc) <==>
                        n in acc || exists i | 0 <= i < |ifs| :: ifs[i].addr != loopback && ifs[i].Net() == n
    decreases |ifs|
  {
    if ifs != [] {
      assert forall i | 0 < i < |ifs| :: ifs[i] == ifs[1..][i - 1];
      assert forall i | 0 <= i < |ifs[1..]| :: ifs[1..][i] == ifs[i + 1];
      NetsExact(ifs[1..], loopback,
                if ifs[0].addr == loopback || ifs[0].Net() in acc then acc else acc + [ifs[0].Net()]);
    }
  }

  predicate Served(ifs: seq<Iface>, net: Addr) {
    exists i | 0 <= i < |ifs| :: ifs[i].Net() == net
  }

  lemma ServedTail(ifs: seq<Iface>, net: Addr)
    requires Served(ifs, net) && ifs[0].Net() != net
    ensures Served(ifs[1..], net)
  {
    var i :| 0 <= i < |ifs| && ifs[i].Net() == net;
    assert ifs[1..][i - 1] == ifs[i];
  }

  /** The first interface on a network. */
  function FirstOn(ifs: seq<Iface>, net: Addr): Iface
    requires Served(ifs, net)
  {
    if ifs[0].Net() == net then ifs[0] else ServedTail(ifs, net); FirstOn(ifs[1..], net)
  }

  /** Interface `i` is on the network, and none before it is. */
  predicate LeastOn(ifs: seq<Iface>, i: nat, net: Addr) {
    i < |ifs| && ifs[i].Net() == net && forall j | 0 <= j < i :: ifs[j].Net() != net
  }

  lemma {:induction false} FirstOnIsLeast(ifs: seq<Iface>, net: Addr)
    requires Served(ifs, net)
    ensures exists i: nat :: LeastOn(ifs, i, net) && FirstOn(ifs, net) == ifs[i]
    ensures exists i :: 0 <= i < |ifs| && FirstOn(ifs, net) == ifs[i] && ifs[i].Net() == net
                        && forall j | 0 <= j < i :: ifs[j].Net() != net
    decreases |ifs|
  {
    if ifs[0].Net() == net {
      assert LeastOn(ifs, 0, net);
    } else {
      ServedTail(ifs, net);
      FirstOnIsLeast(ifs[1..], net);
      var i: nat :| LeastOn(ifs[1..], i, net) && FirstOn(ifs[1..], net) == ifs[1..][i];
      assert forall j | 0 < j <= i :: ifs[j] == ifs[1..][j - 1];
      assert LeastOn(ifs, i + 1, net) && FirstOn(ifs, net) == ifs[i + 1];
    }
  }

  /** The interface that stands for a network is the one with the least index. */
  lemma FirstOnIff(ifs: seq<Iface>, net: Addr, i: nat)
    requires LeastOn(ifs, i, net)
    ensures Served(ifs, net) && FirstOn(ifs, net) == ifs[i]
  {
    hide FirstOn;
    assert ifs[i].Net() == net;
    FirstOnIsLeast(ifs, net);
    var j: nat :| LeastOn(ifs, j, net) && FirstOn(ifs, net) == ifs[j];
    assert i == j;
  }

  /** The addresses sent along are those of the other interfaces on the network of `old_`. */
  lemma {:induction false} OthersExact(ifs: seq<Iface>, old_: Addr, a: Addr)
    ensures a in Others(ifs, old_) <==>
            exists i | 0 <= i < |ifs| :: ifs[i].addr == a && a != old_ && a.And(ifs[i].mask) == old_.And(ifs[i].mask)
    decreases |ifs|
  {
    if ifs != [] {
      OthersExact(ifs[1..], old_, a);
      assert forall i | 0 < i < |ifs| :: ifs[i] == ifs[1..][i - 1];
      assert forall i | 0 <= i < |ifs[1..]| :: ifs[1..][i] == ifs[i + 1];
    }
  }

  function NetProbes(ifs: seq<Iface>, f: Iface): seq<Probe> {
    if f.bcok then [MakeProbe(f.bcst, f.addr, [])] else SubnetProbes(ifs, f)
  }

  predicate Covers(ifs: seq<Iface>, nets: seq<Addr>) {
    forall i | 0 <= i < |nets| :: Served(ifs, nets[i])
  }

  lemma CoversTail(ifs: seq<Iface>, nets: seq<Addr>)
    requires Covers(ifs, nets) && nets != []
    ensures Served(ifs, nets[0]) && Covers(ifs, nets[1..])
  {
    assert forall i | 0 <= i < |nets[1..]| :: nets[1..][i] == nets[i + 1];
  }

  function AllProbes(ifs: seq<Iface>, nets: seq<Addr>): seq<Probe>
    requires Covers(ifs, nets)
  {
    if nets == [] then [] else
      CoversTail(ifs, nets);
      NetProbes(ifs, FirstOn(ifs, nets[0])) + AllProbes(ifs, nets[1..])
  }

  lemma NetsCovered(ifs: seq<Iface>, loopback: Addr)
    ensures Covers(ifs, Nets(ifs, loopback, []))
  {
    NetsExact(ifs, loopback, []);
    var nets := Nets(ifs, loopback, []);
    assert forall i | 0 <= i < |nets| :: nets[i] in nets;
  }

  method FindFirstOn(ifs: seq<Iface>, net: Addr) returns (f: Iface)
    requires Served(ifs, net)
    ensures f == FirstOn(ifs, net)
  {
    var iface := 0;
    assert ifs[0..] == ifs;
    while ifs[iface].Net() != net
      invariant 0 <= iface < |ifs|
      invariant Served(ifs[iface..], net) && FirstOn(ifs[iface..], net) == FirstOn(ifs, net)
      decreases |ifs| - iface
    {
      assert ifs[iface..][0] == ifs[iface] && ifs[iface..][1..] == ifs[iface + 1..];
      ServedTail(ifs[iface..], net);
      iface := iface + 1;
    }
    f := ifs[iface];
  }

  method ProbeNet(ifs: seq<Iface>, net: Addr) returns (ps: seq<Probe>)
    requires Served(ifs, net)
    ensures ps == NetProbes(ifs, FirstOn(ifs, net))
  {
    var f := FindFirstOn(ifs, net);
    if f.bcok {
      ps := [MakeProbe(f.bcst, f.addr, [])];
    } else {
      ps := ProbeSubnet(ifs, f);
    }
  }

  method ProbeNets(ifs: seq<Iface>, nlist: seq<Addr>) returns (ps: seq<Probe>)
    requires Covers(ifs, nlist)
    ensures ps == AllProbes(ifs, nlist)
  {
    ps := [];
    assert nlist[0..] == nlist;
    for i := 0 to |nlist|
      invariant Covers(ifs, nlist[i..]) && ps + AllProbes(ifs, nlist[i..]) == AllProbes(ifs, nlist)
    {
      assert nlist[i..][0] == nlist[i] && nlist[i..][1..] == nlist[i + 1..];
      CoversTail(ifs, nlist[i..]);
      var some := ProbeNet(ifs, nlist[i]);
      ps := ps + some;
    }
  }

  /** The list of the different networks to which to send. */
  method DistinctNets(ifs: seq<Iface>, loopback: Addr) returns (nlist: seq<Addr>)
    ensures nlist == Nets(ifs, loopback, [])
  {
    nlist := [];
    assert ifs[0..] == ifs;
    for i := 0 to |ifs|
      invariant Nets(ifs[i..], loopback, nlist) == Nets(ifs, loopback, [])
    {
      assert ifs[i..][0] == ifs[i] && ifs[i..][1..] == ifs[i + 1..];
      if ifs[i].addr != loopback && ifs[i].Net() !in nlist {
        nlist := nlist + [ifs[i].Net()];
      }
    }
  }

  // ---------- who is probed ----------

  ghost predicate RegularMask(f: Iface) {
    exists k: nat :: Contiguous(f.mask.host, k)
  }

  /** Every mask has a contiguous low byte. */
  ghost predicate Regular(ifs: seq<Iface>) {
    forall i | 0 <= i < |ifs| :: RegularMask(ifs[i])
  }

  /** Probing the network of `f` sends something to `a`. */
  predicate Reaches(ifs: seq<Iface>, f: Iface, a: Addr) {
    if f.bcok then a == f.bcst else Inside(f, a) && !LocalHost(ifs, a)
  }

  /** What it sends: one empty probe to the broadcast address, or the extra addresses in chunks. */
  function NetSent(ifs: seq<Iface>, f: Iface, a: Addr): seq<Probe> {
    if !Reaches(ifs, f, a) then []
    else if f.bcok then [MakeProbe(f.bcst, f.addr, [])]
    else Chunks(a, f.addr, Others(ifs, f.addr))
  }

  lemma SentOne(p: Probe, a: Addr)
    ensures Sent([p], a) == if p.to == a then [p] else []
  {
    assert Sent([], a) == [];
  }

  lemma NetProbesExact(ifs: seq<Iface>, f: Iface, a: Addr)
    requires RegularMask(f)
    ensures Sent(NetProbes(ifs, f), a) == NetSent(ifs, f, a)
    ensures NetSent(ifs, f, a) != [] <==> Reaches(ifs, f, a)
  {
    hide SubnetProbes, Inside, Others, LocalHost, Contiguous;
    if f.bcok {
      assert NetProbes(ifs, f) == [MakeProbe(f.bcst, f.addr, [])];
      SentOne(MakeProbe(f.bcst, f.addr, []), a);
    } else {
      var k: nat :| Contiguous(f.mask.host, k);
      SubnetProbesExact(ifs, f, a, k);
    }
  }

  /** What `a` is sent over a list of networks: the shares of those networks, one after the other. */
  function SentOver(ifs: seq<Iface>, nets: seq<Addr>, a: Addr): seq<Probe>
    requires Covers(ifs, nets)
  {
    if nets == [] then []
    else
      CoversTail(ifs, nets);
      NetSent(ifs, FirstOn(ifs, nets[0]), a) + SentOver(ifs, nets[1..], a)
  }

  lemma {:induction false} FirstOnIsOne(ifs: seq<Iface>, net: Addr)
    requires Served(ifs, net)
    ensures FirstOn(ifs, net) in ifs
  {
    if ifs[0].Net() != net {
      ServedTail(ifs, net);
      FirstOnIsOne(ifs[1..], net);
    }
  }

  lemma SentNone(a: Addr)
    ensures Sent([], a) == []
  {
  }

  lemma {:induction false} AllSent(ifs: seq<Iface>, nets: seq<Addr>, a: Addr)
    requires Covers(ifs, nets) && Regular(ifs)
    ensures Sent(AllProbes(ifs, nets), a) == SentOver(ifs, nets, a)
    ensures SentOver(ifs, nets, a) != [] <==> exists i | 0 <= i < |nets| :: Reaches(ifs, FirstOn(ifs, nets[i]), a)
    decreases |nets|
  {
    hide NetProbes, Sent, Reaches, FirstOn, NetSent, Served, RegularMask;
    if nets != [] {
      CoversTail(ifs, nets);
      var f := FirstOn(ifs, nets[0]);
      FirstOnIsOne(ifs, nets[0]);
      NetProbesExact(ifs, f, a);
      SentConcat(NetProbes(ifs, f), AllProbes(ifs, nets[1..]), a);
      AllSent(ifs, nets[1..], a);
      assert forall i | 0 < i < |nets| :: nets[i] == nets[1..][i - 1];
      assert forall i | 0 <= i < |nets[1..]| :: nets[1..][i] == nets[i + 1];
    } else {
      SentNone(a);
    }
  }

  /** Interface `j` stands for the network of some interface other than loopback. */
  predicate StandsFor(ifs: seq<Iface>, loopback: Addr, j: nat) {
    exists i | 0 <= i < |ifs| :: ifs[i].addr != loopback && LeastOn(ifs, j, ifs[i].Net())
  }

  lemma StandIn(ifs: seq<Iface>, loopback: Addr, net: Addr) returns (j: nat)
    requires exists i | 0 <= i < |ifs| :: ifs[i].addr != loopback && ifs[i].Net() == net
    ensures StandsFor(ifs, loopback, j) && Served(ifs, net) && FirstOn(ifs, net) == ifs[j]
  {
    hide FirstOn;
    var i :| 0 <= i < |ifs| && ifs[i].addr != loopback && ifs[i].Net() == net;
    FirstOnIsLeast(ifs, net);
    j :| LeastOn(ifs, j, net) && FirstOn(ifs, net) == ifs[j];
  }

  /** Who is probed: with regular masks, exactly the addresses that the interface with the least
      index on the network of some interface other than loopback reaches, which is the broadcast
      address of a network that has one and otherwise every other host strictly inside the
      subnet; and each is sent the shares of those networks, each network once. */
  lemma WhoIsProbed(ifs: seq<Iface>, loopback: Addr, a: Addr)
    requires Regular(ifs)
    ensures var nets := Nets(ifs, loopback, []);
            && NoRepeats(nets) && Covers(ifs, nets)
            && Sent(AllProbes(ifs, nets), a) == SentOver(ifs, nets, a)
    ensures Sent(AllProbes(ifs, Nets(ifs, loopback, [])), a) != [] <==>
              exists j: nat | StandsFor(ifs, loopback, j) ::
                if ifs[j].bcok then a == ifs[j].bcst else Inside(ifs[j], a) && !LocalHost(ifs, a)
  {
    hide AllProbes, Sent, SentOver, FirstOn, Nets, Regular, Inside, LocalHost;
    var nets := Nets(ifs, loopback, []);
    NetsExact(ifs, loopback, []);
    NetsCovered(ifs, loopback);
    AllSent(ifs, nets, a);
    forall k | 0 <= k < |nets| && Reaches(ifs, FirstOn(ifs, nets[k]), a)
      ensures exists j: nat | StandsFor(ifs, loopback, j) :: Reaches(ifs, ifs[j], a)
    {
      assert nets[k] in nets;
      var j: nat := StandIn(ifs, loopback, nets[k]);
      assert Reaches(ifs, ifs[j], a);
    }
    forall j: nat | StandsFor(ifs, loopback, j) && Reaches(ifs, ifs[j], a)
      ensures exists k | 0 <= k < |nets| :: Reaches(ifs, FirstOn(ifs, nets[k]), a)
    {
      var i :| 0 <= i < |ifs| && ifs[i].addr != loopback && LeastOn(ifs, j, ifs[i].Net());
      FirstOnIff(ifs, ifs[i].Net(), j);
      assert ifs[i].Net() in nets;
      var k :| 0 <= k < |nets| && nets[k] == ifs[i].Net();
    }
  }
}
