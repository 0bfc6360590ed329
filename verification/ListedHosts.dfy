/** init_probe as a whole: whole networks, or the hosts of a configured list. */
module ListedHosts {
  import opened Bytes
  import opened Interfaces
  import opened Probes

  /** A host to probe; `direct` says that some network of this host reaches it. */
  datatype PlEntry = PlEntry(addr: Addr, direct: bool)

  predicate ReachedBy(f: Iface, a: Addr) {
    a.And(f.mask) == f.Net()
  }

  /** The addresses sent along with a probe: none if the interface can broadcast. */
  function Extra(ifs: seq<Iface>, f: Iface): seq<Addr> {
    if f.bcok then [] else Others(ifs, f.addr)
  }

  /** What a host is sent from the interface `f`. */
  function ListedProbe(ifs: seq<Iface>, f: Iface, a: Addr): seq<Probe> {
    if ReachedBy(f, a) then HostProbe(ifs, f.addr, Extra(ifs, f), a) else []
  }

  /** It is sent along all the other addresses of this host on the network, unless the interface can
      broadcast, when it is sent none. */
  lemma ListedCarries(ifs: seq<Iface>, f: Iface, a: Addr)
    requires a.And(f.mask) == f.Net() && !LocalHost(ifs, a)
    ensures var ps := ListedProbe(ifs, f, a);
            ps != [] && Carried(ps) == if f.bcok then [] else Others(ifs, f.addr)
  {
    hide Others, LocalHost;
    ChunksPartition(a, f.addr, Extra(ifs, f));
  }

  function ListedOn(ifs: seq<Iface>, f: Iface, l: seq<PlEntry>): seq<Probe> {
    if l == [] then [] else ListedProbe(ifs, f, l[0].addr) + ListedOn(ifs, f, l[1..])
  }

  function MarkedOn(f: Iface, l: seq<PlEntry>): seq<PlEntry> {
    if l == [] then []
    else [PlEntry(l[0].addr, l[0].direct || ReachedBy(f, l[0].addr))] + MarkedOn(f, l[1..])
  }

  /** What is sent over the networks, one after the other, and the list with its marks. */
  function ListedNets(ifs: seq<Iface>, nets: seq<Addr>, l: seq<PlEntry>): (seq<Probe>, seq<PlEntry>)
    requires Covers(ifs, nets)
  {
    if nets == [] then ([], l)
    else
      CoversTail(ifs, nets);
      var f := FirstOn(ifs, nets[0]);
      var (ps, m) := ListedNets(ifs, nets[1..], MarkedOn(f, l));
      (ListedOn(ifs, f, l) + ps, m)
  }

  /** The hosts that are not marked are probed from the first interface. */
  function Indirect(ifs: seq<Iface>, l: seq<PlEntry>): seq<Probe>
    requires ifs != []
  {
    if l == [] then []
    else
      (if l[0].direct then [] else HostProbe(ifs, ifs[0].addr, Others(ifs, ifs[0].addr), l[0].addr))
      + Indirect(ifs, l[1..])
  }

  function Listed(ifs: seq<Iface>, nets: seq<Addr>, l: seq<PlEntry>): (seq<Probe>, seq<PlEntry>)
    requires ifs != [] && Covers(ifs, nets)
  {
    var (ps, m) := ListedNets(ifs, nets, l);
    (ps + Indirect(ifs, m), m)
  }

  // ---------- the loops ----------

  lemma OnStep(ifs: seq<Iface>, f: Iface, l: seq<PlEntry>, i: nat)
    requires i < |l|
    ensures ListedOn(ifs, f, l[i..]) == ListedProbe(ifs, f, l[i].addr) + ListedOn(ifs, f, l[i + 1..])
    ensures MarkedOn(f, l[i..]) ==
            [PlEntry(l[i].addr, l[i].direct || ReachedBy(f, l[i].addr))] + MarkedOn(f, l[i + 1..])
  {
    hide ListedProbe, ReachedBy;
    assert l[i..][0] == l[i] && l[i..][1..] == l[i + 1..];
  }

  lemma OnNone(ifs: seq<Iface>, f: Iface, l: seq<PlEntry>)
    requires |l| == 0
    ensures ListedOn(ifs, f, l) == [] && MarkedOn(f, l) == []
  {
  }

  /** One turn of the loop over the list. */
  method ProbeEntry(ifs: seq<Iface>, f: Iface, other: seq<Addr>, p: PlEntry) returns (ps: seq<Probe>, q: PlEntry)
    requires other == Extra(ifs, f)
    ensures ps == ListedProbe(ifs, f, p.addr) && q == PlEntry(p.addr, p.direct || ReachedBy(f, p.addr))
  {
    hide HostProbe, ReachedBy, Extra;
    ps, q := [], p;
    if ReachedBy(f, p.addr) {
      q := p.(direct := true);
      ps := ProbeHost(ifs, f.addr, other, p.addr);
    }
  }

  method ProbeListedOn(ifs: seq<Iface>, f: Iface, l: seq<PlEntry>) returns (ps: seq<Probe>, m: seq<PlEntry>)
    ensures ps == ListedOn(ifs, f, l) && m == MarkedOn(f, l)
  {
    hide ListedOn, MarkedOn, ListedProbe, ReachedBy;
    ps, m := [], [];
    var other := [];
    if !f.bcok {
      var elen, all := OtherAddressesOnNet(ifs, f.addr);
      other := all[..];
    }
    assert l[0..] == l;
    OnNone(ifs, f, l[|l|..]);
    for i := 0 to |l|
      invariant ps + ListedOn(ifs, f, l[i..]) == ListedOn(ifs, f, l)
      invariant m + MarkedOn(f, l[i..]) == MarkedOn(f, l)
    {
      OnStep(ifs, f, l, i);
      var some, q := ProbeEntry(ifs, f, other, l[i]);
      ps, m := ps + some, m + [q];
    }
  }

  lemma NoNets(ifs: seq<Iface>, nets: seq<Addr>, l: seq<PlEntry>)
    requires |nets| == 0
    ensures Covers(ifs, nets) && ListedNets(ifs, nets, l) == ([], l)
  {
  }

  method ProbeListedNets(ifs: seq<Iface>, nlist: seq<Addr>, l: seq<PlEntry>)
    returns (ps: seq<Probe>, m: seq<PlEntry>)
    requires Covers(ifs, nlist)
    ensures (ps, m) == ListedNets(ifs, nlist, l)
  {
    hide ListedOn, MarkedOn, FirstOn;
    ps, m := [], l;
    assert nlist[0..] == nlist;
    for i := 0 to |nlist|
      invariant Covers(ifs, nlist[i..])
      invariant ps + ListedNets(ifs, nlist[i..], m).0 == ListedNets(ifs, nlist, l).0
      invariant ListedNets(ifs, nlist[i..], m).1 == ListedNets(ifs, nlist, l).1
    {
      assert nlist[i..][0] == nlist[i] && nlist[i..][1..] == nlist[i + 1..];
      CoversTail(ifs, nlist[i..]);
      var f := FindFirstOn(ifs, nlist[i]);
      var some;
      some, m := ProbeListedOn(ifs, f, m);
      ps := ps + some;
    }
    NoNets(ifs, nlist[|nlist|..], m);
    assert ps + [] == ps;
  }

  lemma NoIndirect(ifs: seq<Iface>, l: seq<PlEntry>)
    requires ifs != [] && |l| == 0
    ensures Indirect(ifs, l) == []
  {
  }

  lemma IndirectStep(ifs: seq<Iface>, l: seq<PlEntry>, i: nat)
    requires ifs != [] && i < |l|
    ensures Indirect(ifs, l[i..]) ==
            (if l[i].direct then [] else HostProbe(ifs, ifs[0].addr, Others(ifs, ifs[0].addr), l[i].addr))
            + Indirect(ifs, l[i + 1..])
  {
    hide HostProbe;
    assert l[i..][0] == l[i] && l[i..][1..] == l[i + 1..];
  }

  lemma {:induction false} AllDirect(ifs: seq<Iface>, l: seq<PlEntry>)
    requires ifs != [] && forall j | 0 <= j < |l| :: l[j].direct
    ensures Indirect(ifs, l) == []
  {
    if l != [] {
      AllDirect(ifs, l[1..]);
    }
  }

  method ProbeIndirect(ifs: seq<Iface>, l: seq<PlEntry>) returns (ps: seq<Probe>)
    requires ifs != []
    ensures ps == Indirect(ifs, l)
  {
    hide HostProbe, Indirect;
    ps := [];
    var indirect := false;
    for i := 0 to |l|
      invariant !indirect ==> forall j | 0 <= j < i :: l[j].direct
    {
      if !l[i].direct {
        indirect := true;
      }
    }
    if !indirect {
      AllDirect(ifs, l);
      return;
    }
    NoIndirect(ifs, l[|l|..]);
    var elen, all := OtherAddressesOnNet(ifs, ifs[0].addr);
    var other := all[..];
    assert l[0..] == l;
    for i := 0 to |l|
      invariant ps + Indirect(ifs, l[i..]) == Indirect(ifs, l)
    {
      IndirectStep(ifs, l, i);
      ghost var was, rest := ps, Indirect(ifs, l[i + 1..]);
      assert [] + rest == rest;
      if !l[i].direct {
        var some := ProbeHost(ifs, ifs[0].addr, other, l[i].addr);
        ps := ps + some;
        assert ps + rest == was + (some + rest);
      }
    }
  }

  /** init_probe: nothing if probing is turned off; with a configured list, probes to its hosts;
      otherwise one probe to the broadcast address of each network that has one, and probes to
      its hosts one by one on the others. */
  method InitProbe(noprobe: int, ifs: seq<Iface>, loopback: Addr, plist: seq<PlEntry>)
    returns (ps: seq<Probe>, m: seq<PlEntry>)
    requires ifs != []
    ensures Covers(ifs, Nets(ifs, loopback, []))
    ensures noprobe > 0 ==> ps == [] && m == plist
    ensures noprobe <= 0 && plist == [] ==> ps == AllProbes(ifs, Nets(ifs, loopback, [])) && m == []
    ensures noprobe <= 0 && plist != [] ==> (ps, m) == Listed(ifs, Nets(ifs, loopback, []), plist)
  {
    hide ListedNets, Indirect, AllProbes, Nets;
    NetsCovered(ifs, loopback);
    ps, m := [], plist;
    if noprobe > 0 {
      return;
    }
    var nlist := DistinctNets(ifs, loopback);
    if plist == [] {
      ps := ProbeNets(ifs, nlist);
    } else {
      ps, m := ProbeListedNets(ifs, nlist, plist);
      var more := ProbeIndirect(ifs, m);
      ps := ps + more;
    }
  }

  // ---------- who is probed ----------

  /** The entries for one address. */
  function Only(l: seq<PlEntry>, a: Addr): seq<PlEntry> {
    if l == [] then [] else (if l[0].addr == a then [l[0]] else []) + Only(l[1..], a)
  }

  lemma SentHost(ifs: seq<Iface>, from: Addr, other: seq<Addr>, to: Addr, a: Addr)
    ensures Sent(HostProbe(ifs, from, other, to), a) == if to == a then HostProbe(ifs, from, other, to) else []
    ensures HostProbe(ifs, from, other, to) == [] <==> LocalHost(ifs, to)
  {
    SentChunks(to, from, other, a);
  }

  lemma OnlyStep(l: seq<PlEntry>, a: Addr)
    requires l != []
    ensures l[0].addr == a ==> Only(l, a) != [] && Only(l, a)[0] == l[0] && Only(l, a)[1..] == Only(l[1..], a)
    ensures l[0].addr != a ==> Only(l, a) == Only(l[1..], a)
  {
  }

  lemma {:induction false} SentOn(ifs: seq<Iface>, f: Iface, l: seq<PlEntry>, a: Addr)
    ensures Sent(ListedOn(ifs, f, l), a) == ListedOn(ifs, f, Only(l, a))
    decreases |l|
  {
    hide HostProbe, Extra, ReachedBy;
    if l != [] {
      SentOn(ifs, f, l[1..], a);
      SentConcat(ListedProbe(ifs, f, l[0].addr), ListedOn(ifs, f, l[1..]), a);
      SentHost(ifs, f.addr, Extra(ifs, f), l[0].addr, a);
      OnlyStep(l, a);
    }
  }

  lemma {:induction false} OnlyMarked(f: Iface, l: seq<PlEntry>, a: Addr)
    ensures Only(MarkedOn(f, l), a) == MarkedOn(f, Only(l, a))
    decreases |l|
  {
    hide ReachedBy;
    if l != [] {
      OnlyMarked(f, l[1..], a);
      OnlyStep(l, a);
      assert MarkedOn(f, l)[1..] == MarkedOn(f, l[1..]);
      OnlyStep(MarkedOn(f, l), a);
    }
  }

  lemma {:induction false} OnlyNets(ifs: seq<Iface>, nets: seq<Addr>, l: seq<PlEntry>, a: Addr)
    requires Covers(ifs, nets)
    ensures Sent(ListedNets(ifs, nets, l).0, a) == ListedNets(ifs, nets, Only(l, a)).0
    ensures Only(ListedNets(ifs, nets, l).1, a) == ListedNets(ifs, nets, Only(l, a)).1
    decreases |nets|
  {
    hide ListedOn, MarkedOn, FirstOn, Sent, Only;
    if nets == [] {
      SentNone(a);
    } else {
      CoversTail(ifs, nets);
      var f := FirstOn(ifs, nets[0]);
      OnlyNets(ifs, nets[1..], MarkedOn(f, l), a);
      OnlyMarked(f, l, a);
      SentOn(ifs, f, l, a);
      SentConcat(ListedOn(ifs, f, l), ListedNets(ifs, nets[1..], MarkedOn(f, l)).0, a);
    }
  }

  lemma {:induction false} SentIndirect(ifs: seq<Iface>, l: seq<PlEntry>, a: Addr)
    requires ifs != []
    ensures Sent(Indirect(ifs, l), a) == Indirect(ifs, Only(l, a))
    decreases |l|
  {
    hide HostProbe, Others, Sent, LocalHost;
    SentNone(a);
    if l != [] {
      var from, other := ifs[0].addr, Others(ifs, ifs[0].addr);
      var here := if l[0].direct then [] else HostProbe(ifs, from, other, l[0].addr);
      SentIndirect(ifs, l[1..], a);
      SentConcat(here, Indirect(ifs, l[1..]), a);
      SentHost(ifs, from, other, l[0].addr, a);
      OnlyStep(l, a);
    }
  }

  /** Each address is sent what it would be sent if nothing else were listed. */
  lemma ListedApart(ifs: seq<Iface>, nets: seq<Addr>, l: seq<PlEntry>, a: Addr)
    requires ifs != [] && Covers(ifs, nets)
    ensures Sent(Listed(ifs, nets, l).0, a) == Listed(ifs, nets, Only(l, a)).0
    ensures Only(Listed(ifs, nets, l).1, a) == Listed(ifs, nets, Only(l, a)).1
  {
    hide ListedNets, Indirect, Sent, Only;
    var (ps, m) := ListedNets(ifs, nets, l);
    OnlyNets(ifs, nets, l, a);
    SentIndirect(ifs, m, a);
    SentConcat(ps, Indirect(ifs, m), a);
  }

  /** The address is on one of the networks, as the interface that stands for it tells. */
  predicate Near(ifs: seq<Iface>, nets: seq<Addr>, a: Addr)
    requires Covers(ifs, nets)
  {
    exists i | 0 <= i < |nets| :: ReachedBy(FirstOn(ifs, nets[i]), a)
  }

  /** That is the interface with the least index on it. */
  lemma NearIff(ifs: seq<Iface>, nets: seq<Addr>, a: Addr)
    requires Covers(ifs, nets)
    ensures Near(ifs, nets, a) <==>
            exists j: nat, i | 0 <= i < |nets| && LeastOn(ifs, j, nets[i]) ::
              a.And(ifs[j].mask) == ifs[j].addr.And(ifs[j].mask)
  {
    hide FirstOn;
    forall i | 0 <= i < |nets| && ReachedBy(FirstOn(ifs, nets[i]), a)
      ensures exists j: nat | LeastOn(ifs, j, nets[i]) :: a.And(ifs[j].mask) == ifs[j].addr.And(ifs[j].mask)
    {
      FirstOnIsLeast(ifs, nets[i]);
      var j: nat :| LeastOn(ifs, j, nets[i]) && FirstOn(ifs, nets[i]) == ifs[j];
    }
    forall j: nat, i | 0 <= i < |nets| && LeastOn(ifs, j, nets[i])
      ensures FirstOn(ifs, nets[i]) == ifs[j]
    {
      FirstOnIff(ifs, nets[i], j);
    }
  }

  lemma NearStep(ifs: seq<Iface>, nets: seq<Addr>, a: Addr)
    requires Covers(ifs, nets)
    ensures nets == [] ==> !Near(ifs, nets, a)
    ensures nets != [] ==>
              && Served(ifs, nets[0]) && Covers(ifs, nets[1..])
              && (Near(ifs, nets, a) <==> ReachedBy(FirstOn(ifs, nets[0]), a) || Near(ifs, nets[1..], a))
  {
    hide ReachedBy, FirstOn;
    if nets != [] {
      CoversTail(ifs, nets);
      assert forall i | 0 < i < |nets| :: nets[i] == nets[1..][i - 1];
      assert forall i | 0 <= i < |nets[1..]| :: nets[1..][i] == nets[i + 1];
    }
  }

  /** Marked is only what is on some network. */
  predicate MarksOk(ifs: seq<Iface>, nets: seq<Addr>, l: seq<PlEntry>)
    requires Covers(ifs, nets)
  {
    forall e | e in l :: e.direct ==> Near(ifs, nets, e.addr)
  }

  /** All entries are for one address. */
  predicate AllFor(l: seq<PlEntry>, a: Addr) {
    forall i | 0 <= i < |l| :: l[i].addr == a
  }

  lemma {:induction false} OnlyIsFor(l: seq<PlEntry>, a: Addr)
    ensures AllFor(Only(l, a), a)
    ensures forall e :: e in Only(l, a) <==> e in l && e.addr == a
  {
    if l != [] {
      OnlyIsFor(l[1..], a);
    }
  }

  lemma {:induction false} MarkedFor(f: Iface, l: seq<PlEntry>, a: Addr)
    requires AllFor(l, a)
    ensures AllFor(MarkedOn(f, l), a) && |MarkedOn(f, l)| == |l|
    ensures forall i | 0 <= i < |l| :: MarkedOn(f, l)[i].direct == (l[i].direct || ReachedBy(f, a))
  {
    hide ReachedBy;
    if l != [] {
      assert forall i | 0 <= i < |l| - 1 :: l[1..][i] == l[i + 1];
      MarkedFor(f, l[1..], a);
    }
  }

  lemma OnFor(ifs: seq<Iface>, f: Iface, l: seq<PlEntry>, a: Addr)
    requires AllFor(l, a)
    ensures ListedOn(ifs, f, l) != [] <==> l != [] && ReachedBy(f, a) && !LocalHost(ifs, a)
  {
    hide ReachedBy, LocalHost, HostProbe, Extra;
    if l != [] {
      SentHost(ifs, f.addr, Extra(ifs, f), a, a);
      OnFor(ifs, f, l[1..], a);
    }
  }

  /** One address over all networks: sent something exactly if it is on one and not this host,
      and marked if it is on one. */
  lemma {:induction false} NetsFor(ifs: seq<Iface>, nets: seq<Addr>, l: seq<PlEntry>, a: Addr)
    requires Covers(ifs, nets) && AllFor(l, a)
    ensures var (ps, m) := ListedNets(ifs, nets, l);
            && (ps != [] <==> l != [] && Near(ifs, nets, a) && !LocalHost(ifs, a))
            && |m| == |l| && AllFor(m, a)
            && forall i | 0 <= i < |l| :: m[i].direct == (l[i].direct || Near(ifs, nets, a))
    decreases |nets|
  {
    hide ListedOn, MarkedOn, FirstOn, Near, LocalHost, ReachedBy;
    NearStep(ifs, nets, a);
    if nets != [] {
      var f := FirstOn(ifs, nets[0]);
      OnFor(ifs, f, l, a);
      MarkedFor(f, l, a);
      NetsFor(ifs, nets[1..], MarkedOn(f, l), a);
    }
  }

  lemma {:induction false} IndirectFor(ifs: seq<Iface>, l: seq<PlEntry>, a: Addr)
    requires ifs != [] && AllFor(l, a)
    ensures Indirect(ifs, l) != [] <==> !LocalHost(ifs, a) && exists i | 0 <= i < |l| :: !l[i].direct
  {
    hide HostProbe, LocalHost;
    if l != [] {
      assert forall i | 0 < i < |l| :: l[i] == l[1..][i - 1];
      assert forall i | 0 <= i < |l| - 1 :: l[1..][i] == l[i + 1];
      SentHost(ifs, ifs[0].addr, Others(ifs, ifs[0].addr), a, a);
      IndirectFor(ifs, l[1..], a);
    }
  }

  lemma ListedOutcome(ifs: seq<Iface>, nets: seq<Addr>, l: seq<PlEntry>, a: Addr)
    requires ifs != [] && Covers(ifs, nets) && MarksOk(ifs, nets, l)
    ensures var (ps, m) := Listed(ifs, nets, l);
            && (Sent(ps, a) != [] <==> !LocalHost(ifs, a) && exists e :: e in l && e.addr == a)
            && (forall e | e in m && e.addr == a :: e.direct == Near(ifs, nets, a))
  {
    hide ListedNets, Indirect, Sent, Only, Near, LocalHost;
    var one := Only(l, a);
    ListedApart(ifs, nets, l, a);
    OnlyIsFor(l, a);
    NetsFor(ifs, nets, one, a);
    var m := ListedNets(ifs, nets, one).1;
    IndirectFor(ifs, m, a);
    OnlyIsFor(Listed(ifs, nets, l).1, a);
    assert forall i | 0 <= i < |one| :: one[i] in one;
    if one != [] {
      assert one[0] in l && one[0].addr == a;
    }
  }

  /** With a configured list exactly its hosts are probed, whatever network they are on, except
      this host itself; and its marks stay right for the next time. */
  lemma WhoIsListed(ifs: seq<Iface>, nets: seq<Addr>, l: seq<PlEntry>, a: Addr)
    requires ifs != [] && Covers(ifs, nets) && MarksOk(ifs, nets, l)
    ensures var (ps, m) := Listed(ifs, nets, l);
            && (Sent(ps, a) != [] <==> !LocalHost(ifs, a) && exists e :: e in l && e.addr == a)
            && (forall e | e in m && e.addr == a ::
                  e.direct == exists j: nat, i | 0 <= i < |nets| && LeastOn(ifs, j, nets[i]) ::
                                a.And(ifs[j].mask) == ifs[j].addr.And(ifs[j].mask))
  {
    hide Listed, Sent, Near, LocalHost, MarksOk, Covers;
    ListedOutcome(ifs, nets, l, a);
    NearIff(ifs, nets, a);
  }

  // ---------- from where ----------

  lemma HostFrom(ifs: seq<Iface>, from: Addr, other: seq<Addr>, to: Addr, p: Probe)
    requires p in HostProbe(ifs, from, other, to)
    ensures p.to == to && p.from == from
  {
    ChunksPartition(to, from, other);
  }

  lemma {:induction false} OnFrom(ifs: seq<Iface>, f: Iface, l: seq<PlEntry>, p: Probe)
    requires p in ListedOn(ifs, f, l)
    ensures p.from == f.addr && ReachedBy(f, p.to)
  {
    hide HostProbe, ReachedBy, Extra;
    if p in ListedProbe(ifs, f, l[0].addr) {
      HostFrom(ifs, f.addr, Extra(ifs, f), l[0].addr, p);
    } else {
      OnFrom(ifs, f, l[1..], p);
    }
  }

  lemma {:induction false} NetsFrom(ifs: seq<Iface>, nets: seq<Addr>, l: seq<PlEntry>, p: Probe)
    requires Covers(ifs, nets) && p in ListedNets(ifs, nets, l).0
    ensures exists k | 0 <= k < |nets| :: var f := FirstOn(ifs, nets[k]); p.from == f.addr && ReachedBy(f, p.to)
    decreases |nets|
  {
    hide ListedOn, MarkedOn, FirstOn, ReachedBy;
    CoversTail(ifs, nets);
    var f := FirstOn(ifs, nets[0]);
    if p in ListedOn(ifs, f, l) {
      OnFrom(ifs, f, l, p);
    } else {
      NetsFrom(ifs, nets[1..], MarkedOn(f, l), p);
      assert forall i | 0 <= i < |nets[1..]| :: nets[1..][i] == nets[i + 1];
    }
  }

  lemma {:induction false} IndirectFrom(ifs: seq<Iface>, l: seq<PlEntry>, p: Probe)
    requires ifs != [] && p in Indirect(ifs, l)
    ensures p.from == ifs[0].addr && exists e | e in l :: e.addr == p.to && !e.direct
  {
    hide HostProbe;
    var other := Others(ifs, ifs[0].addr);
    if !l[0].direct && p in HostProbe(ifs, ifs[0].addr, other, l[0].addr) {
      HostFrom(ifs, ifs[0].addr, other, l[0].addr, p);
    } else {
      IndirectFrom(ifs, l[1..], p);
    }
  }

  /** A host on one of the networks is probed from an interface that stands for such a network,
      any other from the first interface. */
  lemma ListedFrom(ifs: seq<Iface>, nets: seq<Addr>, l: seq<PlEntry>, p: Probe)
    requires ifs != [] && Covers(ifs, nets) && MarksOk(ifs, nets, l) && p in Listed(ifs, nets, l).0
    ensures if Near(ifs, nets, p.to) then
              exists j: nat, i | 0 <= i < |nets| && LeastOn(ifs, j, nets[i]) ::
                p.from == ifs[j].addr && p.to.And(ifs[j].mask) == ifs[j].addr.And(ifs[j].mask)
            else p.from == ifs[0].addr
  {
    hide ListedNets, Indirect, FirstOn, MarksOk;
    var (ps, m) := ListedNets(ifs, nets, l);
    if p in ps {
      NetsFrom(ifs, nets, l, p);
      var k :| 0 <= k < |nets| && var f := FirstOn(ifs, nets[k]); p.from == f.addr && ReachedBy(f, p.to);
      FirstOnIsLeast(ifs, nets[k]);
      var j: nat :| LeastOn(ifs, j, nets[k]) && FirstOn(ifs, nets[k]) == ifs[j];
    } else {
      IndirectFrom(ifs, m, p);
      ListedOutcome(ifs, nets, l, p.to);
    }
  }
}
