/** The table of network interfaces. */
module Interfaces {
  import opened Bytes
  import opened BitOps

  type Net24 = n: int | 0 <= n < 0x100_0000

  lemma OrFits(x: Net24, y: Net24)
    ensures BitOps.Or(x, y) < 0x100_0000
  {
    Powers();
    OrBound(x, y, 24);
  }

  lemma OrFits8(x: Byte, y: Byte)
    ensures BitOps.Or(x, y) < 0x100
  {
    Powers();
    OrBound(x, y, 8);
  }

  /** An IPv4 address or mask, split where a class C network splits it. */
  datatype Addr = Addr(net: Net24, host: Byte) {
    function And(m: Addr): Addr {
      Addr(BitOps.And(net, m.net), BitOps.And(host, m.host))
    }

    function Or(m: Addr): Addr {
      OrFits(net, m.net);
      OrFits8(host, m.host);
      Addr(BitOps.Or(net, m.net), BitOps.Or(host, m.host))
    }
  }

  /** An address as it stands in a message. */
  function Split(w: Word32): Addr {
    Addr(w / 0x100, w % 0x100)
  }

  /** The host part is the last byte. */
  lemma SplitIs(w: Word32)
    ensures Split(w).net as int * 0x100 + Split(w).host as int == w
  {
  }

  const ANY := Addr(0, 0)

  lemma AllOnes(n: Net24)
    ensures And(n, 0xFF_FFFF) == n && Or(n, 0xFF_FFFF) == 0xFF_FFFF
  {
    Powers();
    AndMask(n, 24, 0);
    OrOnes(n, 24);
  }

  datatype Iface = Iface(addr: Addr, mask: Addr, bcok: bool, bcst: Addr) {
    function Net(): Addr { addr.And(mask) }
  }

  predicate LocalHost(ifs: seq<Iface>, a: Addr) {
    exists i | 0 <= i < |ifs| :: ifs[i].addr == a
  }

  /** is_local_host. */
  method IsLocalHost(ifs: seq<Iface>, a: Addr) returns (r: bool)
    ensures r <==> LocalHost(ifs, a)
  {
    for i := 0 to |ifs|
      invariant forall j | 0 <= j < i :: ifs[j].addr != a
    {
      if a == ifs[i].addr {
        return true;
      }
    }
    return false;
  }
}
