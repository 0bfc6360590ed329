/** The table of registered names: a list kept in order and searched by bisection, which
    must behave like a plain map from names to ports. */
module PortMap {
  import opened Bytes
  import opened Shifting
  import opened Wrappers

  type Name = seq<Byte>

  /** The port type byte is split into a network part and a service part. */
  function NetPart(ptype: Byte): Byte { ptype / 0x10 % 8 * 0x10 }
  function SvcPart(ptype: Byte): Byte { ptype % 0x10 }

  predicate LegalType(ptype: Byte) {
    ptype == 0x11 || ptype == 0x12 || ptype == 0x21 || ptype == 0x22
  }

  datatype MapEnt = MapEnt(name: Name, port: Word32, net: Byte, svc: Byte) {
    function Type(): int { net + svc }
  }

  function Entry(n: Name, p: Word32, t: Byte): MapEnt {
    MapEnt(n, p, NetPart(t), SvcPart(t))
  }

  // ---------- the order of names ----------

  function MemCmp(a: Name, b: Name): int
    requires |a| == |b|
  {
    if a == [] then 0 else if a[0] != b[0] then a[0] - b[0] else MemCmp(a[1..], b[1..])
  }

  /** Shorter names first, then by bytes. */
  function CompareNames(a: Name, b: Name): int {
    if |a| == |b| then MemCmp(a, b) else if |a| < |b| then -1 else 1
  }

  lemma {:induction false} MemCmpOrder(a: Name, b: Name)
    requires |a| == |b|
    ensures MemCmp(a, b) == 0 <==> a == b
    ensures MemCmp(a, b) < 0 <==> MemCmp(b, a) > 0
  {
    if a != [] {
      MemCmpOrder(a[1..], b[1..]);
      assert a == [a[0]] + a[1..] && b == [b[0]] + b[1..];
    }
  }

  lemma {:induction false} MemCmpTransitive(a: Name, b: Name, c: Name)
    requires |a| == |b| == |c| && MemCmp(a, b) < 0 && MemCmp(b, c) < 0
    ensures MemCmp(a, c) < 0
  {
    if a[0] == b[0] == c[0] {
      MemCmpTransitive(a[1..], b[1..], c[1..]);
    }
  }

  lemma CompareOrder(a: Name, b: Name)
    ensures CompareNames(a, b) == 0 <==> a == b
    ensures CompareNames(a, b) < 0 <==> CompareNames(b, a) > 0
  {
    if |a| == |b| {
      MemCmpOrder(a, b);
    }
  }

  lemma {:induction false} MemCmpIff(a: Name, b: Name)
    requires |a| == |b|
    ensures MemCmp(a, b) < 0 <==> exists i | 0 <= i < |a| :: a[..i] == b[..i] && a[i] < b[i]
  {
    if a != [] {
      var x, y := a[1..], b[1..];
      MemCmpIff(x, y);
      if i :| 0 <= i < |a| && a[..i] == b[..i] && a[i] < b[i] {
        if i > 0 {
          assert a[0] == a[..i][0] == b[..i][0] == b[0];
          assert x[..i - 1] == a[..i][1..] && y[..i - 1] == b[..i][1..] && x[i - 1] < y[i - 1];
        }
      }
      if i :| a[0] == b[0] && 0 <= i < |x| && x[..i] == y[..i] && x[i] < y[i] {
        assert a[..i + 1] == [a[0]] + x[..i] && b[..i + 1] == [b[0]] + y[..i] && a[i + 1] < b[i + 1];
      }
      if a[0] < b[0] {
        assert a[..0] == b[..0];
      }
    }
  }

  /** Shorter names come first, and of names of one length the one with the smaller byte where they
      first differ. */
  lemma CompareNamesIff(a: Name, b: Name)
    ensures CompareNames(a, b) < 0 <==>
            || |a| < |b|
            || (|a| == |b| && exists i | 0 <= i < |a| :: a[..i] == b[..i] && a[i] < b[i])
  {
    if |a| == |b| {
      MemCmpIff(a, b);
    }
  }

  lemma CompareTransitive(a: Name, b: Name, c: Name)
    requires CompareNames(a, b) < 0 && CompareNames(b, c) < 0
    ensures CompareNames(a, c) < 0
  {
    if |a| == |b| == |c| {
      MemCmpTransitive(a, b, c);
    }
  }

  // ---------- the table as a map ----------

  datatype Binding = Binding(port: Word32, ptype: int)

  ghost predicate Sorted(m: seq<MapEnt>) {
    forall i, j | 0 <= i < j < |m| :: CompareNames(m[i].name, m[j].name) < 0
  }

  ghost predicate Unique(m: seq<MapEnt>) {
    forall i, j | 0 <= i < j < |m| :: m[i].name != m[j].name
  }

  /** The table is in ascending order of length, and of bytes among names of one length. */
  lemma SortedIs(m: seq<MapEnt>)
    ensures Sorted(m) <==>
            forall i, j | 0 <= i < j < |m| ::
              var a, b := m[i].name, m[j].name;
              || |a| < |b|
              || (|a| == |b| && exists k | 0 <= k < |a| :: a[..k] == b[..k] && a[k] < b[k])
  {
    hide CompareNames;
    forall i, j | 0 <= i < j < |m|
      ensures CompareNames(m[i].name, m[j].name) < 0 <==>
              var a, b := m[i].name, m[j].name;
              || |a| < |b|
              || (|a| == |b| && exists k | 0 <= k < |a| :: a[..k] == b[..k] && a[k] < b[k])
    {
      CompareNamesIff(m[i].name, m[j].name);
    }
  }

  lemma SortedIsUnique(m: seq<MapEnt>)
    requires Sorted(m)
    ensures Unique(m)
  {
    forall i, j | 0 <= i < j < |m| ensures m[i].name != m[j].name {
      CompareOrder(m[i].name, m[j].name);
    }
  }

  ghost predicate HasName(m: seq<MapEnt>, n: Name) {
    exists i :: 0 <= i < |m| && m[i].name == n
  }

  /** The first entry with a name: what a linear search would return. */
  function Find(m: seq<MapEnt>, n: Name): (r: Option<MapEnt>) {
    if m == [] then None else if m[0].name == n then Some(m[0]) else Find(m[1..], n)
  }

  lemma {:induction false} FindFacts(m: seq<MapEnt>, n: Name)
    ensures Find(m, n).None? <==> forall i | 0 <= i < |m| :: m[i].name != n
    ensures Find(m, n).Some? ==> Find(m, n).value in m && Find(m, n).value.name == n
  {
    if m != [] {
      FindFacts(m[1..], n);
      assert forall i | 0 < i < |m| :: m[i] == m[1..][i - 1];
      assert forall i | 0 <= i < |m[1..]| :: m[1..][i] == m[i + 1];
    }
  }

  ghost function Names(m: seq<MapEnt>): set<Name> {
    set i | 0 <= i < |m| :: m[i].name
  }

  ghost function View(m: seq<MapEnt>): map<Name, Binding> {
    map n | n in Names(m) && Find(m, n).Some? :: Binding(Find(m, n).value.port, Find(m, n).value.Type())
  }

  lemma ViewAt(m: seq<MapEnt>, i: nat)
    requires Unique(m) && i < |m|
    ensures m[i].name in View(m) && View(m)[m[i].name] == Binding(m[i].port, m[i].Type())
  {
    FindFacts(m, m[i].name);
    var e := Find(m, m[i].name).value;
    var j :| 0 <= j < |m| && m[j] == e;
  }

  lemma ViewKeys(m: seq<MapEnt>, n: Name)
    ensures n in View(m) <==> HasName(m, n)
  {
    FindFacts(m, n);
  }

  // ---------- the table operations ----------

  predicate HasBinding(e: MapEnt, p: Word32, t: Byte) {
    e.port == p && e.Type() == t
  }

  /** The entries without those for a given port and type, in their order. */
  function WithoutPort(m: seq<MapEnt>, p: Word32, t: Byte): seq<MapEnt> {
    if m == [] then []
    else (if HasBinding(m[0], p, t) then [] else [m[0]]) + WithoutPort(m[1..], p, t)
  }

  /** Where an entry for `n` belongs. */
  ghost predicate InsertionPoint(m: seq<MapEnt>, n: Name, i: nat) {
    && i <= |m|
    && (forall j | 0 <= j < i :: CompareNames(m[j].name, n) < 0)
    && (forall j | i <= j < |m| :: CompareNames(m[j].name, n) > 0)
  }

  lemma SortedInsert(m: seq<MapEnt>, e: MapEnt, i: nat)
    requires Sorted(m) && InsertionPoint(m, e.name, i)
    ensures Sorted(m[..i] + [e] + m[i..])
  {
    var r := m[..i] + [e] + m[i..];
    forall j, k | 0 <= j < k < |r| ensures CompareNames(r[j].name, r[k].name) < 0 {
      if k > i {
        assert r[k] == m[k - 1];
        CompareOrder(e.name, m[k - 1].name);
      }
      if j > i {
        assert r[j] == m[j - 1];
      }
    }
  }

  lemma SortedRemove(m: seq<MapEnt>, i: nat)
    requires Sorted(m) && i < |m|
    ensures Sorted(m[..i] + m[i + 1..])
  {
    var r := m[..i] + m[i + 1..];
    forall j, k | 0 <= j < k < |r| ensures CompareNames(r[j].name, r[k].name) < 0 {
      assert r[j] == m[if j < i then j else j + 1] && r[k] == m[if k < i then k else k + 1];
    }
  }

  lemma BisectStep(m: seq<MapEnt>, n: Name, i: nat)
    requires Sorted(m) && i < |m|
    ensures CompareNames(m[i].name, n) < 0 ==> forall j | 0 <= j <= i :: CompareNames(m[j].name, n) < 0
    ensures CompareNames(m[i].name, n) > 0 ==> forall j | i <= j < |m| :: CompareNames(m[j].name, n) > 0
  {
    if CompareNames(m[i].name, n) < 0 {
      forall j | 0 <= j < i ensures CompareNames(m[j].name, n) < 0 {
        CompareTransitive(m[j].name, m[i].name, n);
      }
    }
    if CompareNames(m[i].name, n) > 0 {
      forall j | i < j < |m| ensures CompareNames(m[j].name, n) > 0 {
        CompareOrder(n, m[i].name);
        CompareTransitive(n, m[i].name, m[j].name);
        CompareOrder(n, m[j].name);
      }
    }
  }

  lemma AllAbove(m: seq<MapEnt>, n: Name, i: nat)
    requires Sorted(m) && i <= |m| && (i < |m| ==> CompareNames(m[i].name, n) > 0)
    ensures forall j | i <= j < |m| :: CompareNames(m[j].name, n) > 0
  {
    if i < |m| {
      BisectStep(m, n, i);
    }
  }

  lemma {:induction false} WithoutNone(m: seq<MapEnt>, p: Word32, t: Byte)
    requires forall j | 0 <= j < |m| :: !HasBinding(m[j], p, t)
    ensures WithoutPort(m, p, t) == m
  {
    if m != [] {
      WithoutNone(m[1..], p, t);
    }
  }

  lemma {:induction false} WithoutOne(m: seq<MapEnt>, p: Word32, t: Byte, i: nat)
    requires i < |m| && HasBinding(m[i], p, t)
    ensures WithoutPort(m[..i] + m[i + 1..], p, t) == WithoutPort(m, p, t)
  {
    var r := m[..i] + m[i + 1..];
    if i == 0 {
      assert r == m[1..];
    } else {
      assert r[0] == m[0] && r[1..] == m[1..][..i - 1] + m[1..][i..];
      WithoutOne(m[1..], p, t, i - 1);
    }
  }

  class Registry {
    var map_: seq<MapEnt>
    var mapSize: nat

    ghost predicate Valid()
      reads this
    {
      Sorted(map_) && |map_| <= mapSize
    }

    constructor ()
      ensures Valid() && map_ == []
    {
      map_ := [];
      mapSize := 0;
    }

    /** Bisection; it finds an entry exactly when there is one. */
    method MapByName(n: Name) returns (r: Option<nat>)
      requires Valid()
      ensures r.None? ==> !HasName(map_, n)
      ensures r.Some? ==> r.value < |map_| && map_[r.value].name == n
    {
      var lower, upper := 0, |map_|;
      var index := upper / 2;
      while upper != lower
        invariant 0 <= lower <= upper <= |map_| && index == lower + (upper - lower) / 2
        invariant forall j | 0 <= j < lower :: CompareNames(map_[j].name, n) < 0
        invariant forall j | upper <= j < |map_| :: CompareNames(map_[j].name, n) > 0
        decreases upper - lower
      {
        var i := CompareNames(map_[index].name, n);
        BisectStep(map_, n, index);
        if i < 0 {
          lower := index + 1;
        } else if i > 0 {
          upper := index;
        } else {
          break;
        }
        index := lower + (upper - lower) / 2;
      }
      if index < |map_| && CompareNames(map_[index].name, n) == 0 {
        CompareOrder(map_[index].name, n);
        return Some(index);
      }
      forall j | 0 <= j < |map_| ensures map_[j].name != n {
        CompareOrder(map_[j].name, n);
      }
      return None;
    }

    method MapAdd(n: Name, p: Word32, t: Byte)
      requires Valid() && !HasName(map_, n)
      modifies this
      ensures Valid()
      ensures exists i: nat :: InsertionPoint(old(map_), n, i)
                               && map_ == old(map_)[..i] + [Entry(n, p, t)] + old(map_)[i..]
    {
      var m := Entry(n, p, t);
      if |map_| == mapSize {
        mapSize := mapSize + 16;
      }
      var i: nat := 0;
      while i < |map_| && CompareNames(map_[i].name, n) <= 0
        invariant 0 <= i <= |map_| < mapSize && map_ == old(map_)
        invariant forall j | 0 <= j < i :: CompareNames(map_[j].name, n) < 0
      {
        CompareOrder(map_[i].name, n);
        i := i + 1;
      }
      AllAbove(map_, n, i);
      SortedInsert(map_, m, i);
      assert InsertionPoint(map_, n, i);
      map_ := OpenGap(map_, i, m, m);
    }

    /** The first entry with a port and type, by linear search. */
    method MapByPort(p: Word32, t: Byte) returns (r: Option<nat>)
      ensures r.None? ==> forall j | 0 <= j < |map_| :: !HasBinding(map_[j], p, t)
      ensures r.Some? ==> && r.value < |map_| && HasBinding(map_[r.value], p, t)
                          && forall j | 0 <= j < r.value :: !HasBinding(map_[j], p, t)
    {
      var index := 0;
      while index < |map_| && !HasBinding(map_[index], p, t)
        invariant index <= |map_|
        invariant forall j | 0 <= j < index :: !HasBinding(map_[j], p, t)
      {
        index := index + 1;
      }
      return if index < |map_| then Some(index) else None;
    }

    method MapDel(i: nat)
      requires Valid() && i < |map_|
      modifies this`map_
      ensures Valid() && map_ == old(map_)[..i] + old(map_)[i + 1..]
    {
      SortedRemove(map_, i);
      map_ := CloseGap(map_, i);
    }

    /** Give an existing name a new port and type. */
    method Rebind(i: nat, p: Word32, t: Byte)
      requires Valid() && i < |map_|
      modifies this`map_
      ensures Valid() && map_ == old(map_)[i := Entry(old(map_)[i].name, p, t)]
    {
      map_ := map_[i := map_[i].(port := p, net := NetPart(t), svc := SvcPart(t))];
      assert forall j | 0 <= j < |map_| :: map_[j].name == old(map_)[j].name;
    }

    /** Unregister everything bound to a port. */
    method DeletePort(p: Word32, t: Byte) returns (any: bool)
      requires Valid()
      modifies this`map_
      ensures Valid()
      ensures map_ == old(WithoutPort(map_, p, t))
      ensures any <==> exists e :: e in old(map_) && HasBinding(e, p, t)
    {
      any := false;
      ghost var all := map_;
      while true
        invariant Valid()
        invariant WithoutPort(map_, p, t) == WithoutPort(all, p, t)
        invariant forall e | e in map_ :: e in all
        invariant any ==> exists e :: e in all && HasBinding(e, p, t)
        invariant !any ==> map_ == all
        decreases |map_|
      {
        var m := MapByPort(p, t);
        if m.None? {
          WithoutNone(map_, p, t);
          break;
        }
        WithoutOne(map_, p, t, m.value);
        assert map_[m.value] in all;
        any := true;
        MapDel(m.value);
      }
    }
  }
}
