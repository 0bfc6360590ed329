/** The register, lookup and unregister requests: what they do to the table is what they
    would do to a plain map, for every outcome of the test binds. */
module NameService {
  import opened Bytes
  import opened PortMap
  import opened Wrappers

  // ---------- the requests on a plain map ----------

  type Bindings = map<Name, Binding>

  /** `bindOk` says that a socket could be bound to the recorded port, so its owner is gone. */
  datatype Request =
    | Register(name: Name, port: Word32, ptype: Byte, bindOk: bool)
    | Lookup(name: Name, ptype: Byte, bindOk: bool)
    | Unregister(name: Name, port: Word32, ptype: Byte)

  function BoundTo(v: Bindings, p: Word32, t: Byte): set<Name> {
    set k | k in v && v[k] == Binding(p, t)
  }

  function Apply(v: Bindings, r: Request): (Bindings, Word32) {
    match r
    case Register(n, port, ptype, bindOk) =>
      if n in v && v[n].port == port then (v, port)
      else if n in v then if bindOk then (v[n := Binding(port, ptype)], port) else (v, 0)
      else if port == 0 then (v, 0)
      else (v[n := Binding(port, ptype)], port)
    case Lookup(n, ptype, bindOk) =>
      if n !in v || v[n].ptype != ptype then (v, 0)
      else if bindOk then (v - {n}, 0)
      else (v, v[n].port)
    case Unregister(n, port, ptype) =>
      if port == 0 || n != [] then
        if n !in v || v[n].ptype != ptype then (v, 0) else (v - {n}, v[n].port)
      else
        var gone := BoundTo(v, port, ptype);
        (v - gone, if gone == {} then 0 else port)
  }

  function Run(v: Bindings, rs: seq<Request>): (Bindings, seq<Word32>)
    decreases |rs|
  {
    if rs == [] then (v, [])
    else
      var (v1, reply) := Apply(v, rs[0]);
      var (v2, replies) := Run(v1, rs[1..]);
      (v2, [reply] + replies)
  }

  // ---------- what a reply tells the caller ----------

  /** The documented reply is zero if the name was already registered.  It is not, exactly when
      the port is the one registered or the registered port can be bound. */
  lemma RegisterPromiseIff(v: Bindings, n: Name, port: Word32, ptype: Byte, bindOk: bool)
    ensures var (after, reply) := Apply(v, Register(n, port, ptype, bindOk));
            (n in v ==> reply == 0) <==> n !in v || port == 0 || (v[n].port != port && !bindOk)
  {
  }

  /** When a registration reports success. */
  lemma RegisterRepliesIff(v: Bindings, n: Name, port: Word32, ptype: Byte, bindOk: bool)
    ensures var (after, reply) := Apply(v, Register(n, port, ptype, bindOk));
            && (reply != 0 <==> port != 0 && (n !in v || v[n].port == port || bindOk))
            && (reply != 0 ==> reply == port && n in after && after[n].port == port)
  {
  }

  /** A refused registration changes nothing, except that a name is rebound to port 0 if that
      is asked for and its port can be bound. */
  lemma RefusedRegistrationIff(v: Bindings, n: Name, port: Word32, ptype: Byte, bindOk: bool)
    ensures var (after, reply) := Apply(v, Register(n, port, ptype, bindOk));
            reply == 0 ==>
              (after == v <==> !(n in v && port == 0 && v[n].port != 0 && bindOk))
  {
    var (after, reply) := Apply(v, Register(n, port, ptype, bindOk));
    if n in v && port == 0 && v[n].port != 0 && bindOk {
      assert after[n].port != v[n].port;
    }
  }

  /** What is registered is found again under its type, while its owner lives, unless the name
      was registered on the same port under another type, which it keeps. */
  lemma RegisteredIsFoundIff(v: Bindings, n: Name, port: Word32, ptype: Byte, bindOk: bool)
    ensures var (after, reply) := Apply(v, Register(n, port, ptype, bindOk));
            reply != 0 ==>
              (Apply(after, Lookup(n, ptype, false)).1 == port <==>
                 !(n in v && v[n].port == port && v[n].ptype != ptype))
  {
  }

  /** The name is registered under that type. */
  predicate Registered(v: Bindings, n: Name, ptype: Byte) {
    n in v && v[n].ptype == ptype
  }

  /** The documented reply to a lookup is zero if the name is not registered.  With a dead owner
      counted as not registered, zero means just that, except for a name bound to port 0. */
  lemma LookupPromiseIff(v: Bindings, n: Name, ptype: Byte, bindOk: bool)
    ensures (Apply(v, Lookup(n, ptype, bindOk)).1 == 0 <==> !Registered(v, n, ptype) || bindOk) <==>
            !(Registered(v, n, ptype) && !bindOk && v[n].port == 0)
  {
  }

  /** The documented reply to an unregister request is zero if nothing could be unregistered.
      Zero means just that, except when a name bound to port 0 is removed by name. */
  lemma UnregisterPromiseIff(v: Bindings, n: Name, port: Word32, ptype: Byte)
    ensures var (after, reply) := Apply(v, Unregister(n, port, ptype));
            (reply == 0 <==> after == v) <==>
              !((port == 0 || n != []) && Registered(v, n, ptype) && v[n].port == 0)
  {
    if port != 0 && n == [] {
      var gone := BoundTo(v, port, ptype);
      if k :| k in gone {
        assert k !in v - gone;
      } else {
        assert v - gone == v;
      }
    } else if Registered(v, n, ptype) {
      assert n !in v - {n};
    }
  }

  /** A name registered on port 7 as TCP. */
  function SevenTcp(): Bindings {
    map[[0x61] := Binding(7, 0x11)]
  }

  /** Registering again on the same port, or on another one when the old one is free, succeeds. */
  lemma RegisteredTwice()
    ensures Apply(SevenTcp(), Register([0x61], 7, 0x11, false)).1 == 7
    ensures Apply(SevenTcp(), Register([0x61], 8, 0x11, true)).1 == 8
  {
  }

  /** Registering without a port reports failure and yet takes the name off its port. */
  lemma ReboundToZero()
    ensures var (after, reply) := Apply(SevenTcp(), Register([0x61], 0, 0x11, true));
            reply == 0 && after[[0x61]].port == 0
  {
  }

  /** That name is then not found, and removing it reports failure. */
  lemma BoundToNothing()
    ensures var v := Apply(SevenTcp(), Register([0x61], 0, 0x11, true)).0;
            && Registered(v, [0x61], 0x11) && Apply(v, Lookup([0x61], 0x11, false)).1 == 0
            && Apply(v, Unregister([0x61], 0, 0x11)) == (map[], 0)
  {
  }

  /** Registering on the same port under another type reports success, but the name is not
      found under that type. */
  lemma KeepsItsOldType()
    ensures var (after, reply) := Apply(SevenTcp(), Register([0x61], 7, 0x21, false));
            reply == 7 && Apply(after, Lookup([0x61], 0x21, false)).1 == 0
  {
  }

  // ---------- the table under its operations ----------

  lemma ViewIs(m: seq<MapEnt>, v: Bindings)
    requires Unique(m)
    requires forall i | 0 <= i < |m| :: m[i].name in v && v[m[i].name] == Binding(m[i].port, m[i].Type())
    requires forall n | n in v :: HasName(m, n)
    ensures View(m) == v
  {
    forall n ensures n in View(m) <==> n in v {
      ViewKeys(m, n);
    }
    forall n | n in v ensures n in View(m) && View(m)[n] == v[n] {
      var i :| 0 <= i < |m| && m[i].name == n;
      ViewAt(m, i);
    }
  }

  /** The view, entry by entry. */
  lemma ViewOf(m: seq<MapEnt>)
    requires Unique(m)
    ensures forall i | 0 <= i < |m| :: m[i].name in View(m) && View(m)[m[i].name] == Binding(m[i].port, m[i].Type())
    ensures forall n :: n in View(m) <==> HasName(m, n)
  {
    forall i | 0 <= i < |m| ensures m[i].name in View(m) && View(m)[m[i].name] == Binding(m[i].port, m[i].Type()) {
      ViewAt(m, i);
    }
    forall n ensures n in View(m) <==> HasName(m, n) {
      ViewKeys(m, n);
    }
  }

  lemma LegalParts(t: Byte)
    requires LegalType(t)
    ensures NetPart(t) + SvcPart(t) == t
  {
  }

  lemma UniqueInsert(m: seq<MapEnt>, e: MapEnt, i: nat)
    requires Unique(m) && i <= |m| && !HasName(m, e.name)
    ensures Unique(m[..i] + [e] + m[i..])
    ensures forall n :: HasName(m[..i] + [e] + m[i..], n) <==> n == e.name || HasName(m, n)
  {
    var r := m[..i] + [e] + m[i..];
    assert forall j | 0 <= j < i :: r[j] == m[j];
    assert forall j | i < j < |r| :: r[j] == m[j - 1];
    forall n ensures HasName(r, n) <==> n == e.name || HasName(m, n) {
      if HasName(m, n) {
        var j :| 0 <= j < |m| && m[j].name == n;
        assert r[if j < i then j else j + 1].name == n;
      }
      assert r[i].name == e.name;
    }
  }

  lemma ViewOfInsert(m: seq<MapEnt>, e: MapEnt, i: nat)
    requires Unique(m) && i <= |m| && !HasName(m, e.name)
    ensures View(m[..i] + [e] + m[i..]) == View(m)[e.name := Binding(e.port, e.Type())]
  {
    var r, v := m[..i] + [e] + m[i..], View(m)[e.name := Binding(e.port, e.Type())];
    ViewOf(m);
    UniqueInsert(m, e, i);
    forall j | 0 <= j < |r| ensures r[j].name in v && v[r[j].name] == Binding(r[j].port, r[j].Type()) {
      if j < i {
        assert r[j] == m[j];
      } else if j > i {
        assert r[j] == m[j - 1];
      }
    }
    ViewIs(r, v);
  }

  lemma ViewOfRemove(m: seq<MapEnt>, i: nat)
    requires Unique(m) && i < |m|
    ensures View(m[..i] + m[i + 1..]) == View(m) - {m[i].name}
  {
    hide View;
    var r, v := m[..i] + m[i + 1..], View(m) - {m[i].name};
    ViewOf(m);
    assert forall j | 0 <= j < |r| :: r[j] == m[if j < i then j else j + 1];
    forall n | n in v ensures HasName(r, n) {
      var j :| 0 <= j < |m| && m[j].name == n;
      assert r[if j < i then j else j - 1] == m[j];
    }
    ViewIs(r, v);
  }

  lemma ViewOfRebind(m: seq<MapEnt>, i: nat, e: MapEnt)
    requires Unique(m) && i < |m| && e.name == m[i].name
    ensures View(m[i := e]) == View(m)[e.name := Binding(e.port, e.Type())]
  {
    var r, v := m[i := e], View(m)[e.name := Binding(e.port, e.Type())];
    ViewOf(m);
    forall n | n in v ensures HasName(r, n) {
      var j :| 0 <= j < |m| && m[j].name == n;
      assert r[j].name == n;
    }
    ViewIs(r, v);
  }

  /** Removing the entries of a port keeps the others, and only the others. */
  lemma {:induction false} WithoutPortFacts(m: seq<MapEnt>, p: Word32, t: Byte)
    requires Unique(m)
    ensures var r := WithoutPort(m, p, t);
            && Unique(r)
            && (forall e :: e in r <==> e in m && !HasBinding(e, p, t))
  {
    if m != [] {
      var q, r := WithoutPort(m[1..], p, t), WithoutPort(m, p, t);
      assert forall i, j | 0 <= i < j < |m[1..]| :: m[1..][i] == m[i + 1] && m[1..][j] == m[j + 1];
      WithoutPortFacts(m[1..], p, t);
      assert m == [m[0]] + m[1..];
      if !HasBinding(m[0], p, t) {
        forall k | 0 <= k < |q| ensures m[0].name != q[k].name {
          assert q[k] in m[1..];
        }
      }
    }
  }

  lemma ViewOfWithoutPort(m: seq<MapEnt>, p: Word32, t: Byte)
    requires Unique(m)
    ensures View(WithoutPort(m, p, t)) == View(m) - BoundTo(View(m), p, t)
  {
    var r, gone := WithoutPort(m, p, t), BoundTo(View(m), p, t);
    WithoutPortFacts(m, p, t);
    ViewOf(m);
    forall j | 0 <= j < |r| ensures r[j].name in View(m) - gone
                                    && View(m)[r[j].name] == Binding(r[j].port, r[j].Type()) {
      assert r[j] in r;
      var l :| 0 <= l < |m| && m[l] == r[j];
    }
    forall n | n in View(m) - gone ensures HasName(r, n) {
      var j :| 0 <= j < |m| && m[j].name == n;
      assert m[j] in r;
    }
    ViewIs(r, View(m) - gone);
  }

  lemma AnyWithPort(m: seq<MapEnt>, p: Word32, t: Byte)
    requires Unique(m)
    ensures BoundTo(View(m), p, t) != {} <==> exists e :: e in m && HasBinding(e, p, t)
  {
    ViewOf(m);
    if e :| e in m && HasBinding(e, p, t) {
      var l :| 0 <= l < |m| && m[l] == e;
      assert m[l].name in BoundTo(View(m), p, t);
    }
    if BoundTo(View(m), p, t) != {} {
      var k :| k in BoundTo(View(m), p, t);
      var j :| 0 <= j < |m| && m[j].name == k;
      assert m[j] in m && HasBinding(m[j], p, t);
    }
  }

  // ---------- the requests on the table ----------

  ghost predicate Refines(before: seq<MapEnt>, after: seq<MapEnt>, r: Request, reply: Word32) {
    (View(after), reply) == Apply(View(before), r)
  }

  lemma Present(m: seq<MapEnt>, r: Option<nat>, n: Name)
    requires Sorted(m)
    ensures Unique(m)
    requires r.None? ==> !HasName(m, n)
    requires r.Some? ==> r.value < |m| && m[r.value].name == n
    ensures n in View(m) <==> r.Some?
    ensures r.Some? ==> View(m)[n] == Binding(m[r.value].port, m[r.value].Type())
  {
    SortedIsUnique(m);
    ViewKeys(m, n);
    if r.Some? {
      ViewAt(m, r.value);
    }
  }

  method DoRegister(reg: Registry, n: Name, port: Word32, ptype: Byte, bindOk: bool) returns (reply: Word32)
    requires reg.Valid() && LegalType(ptype)
    modifies reg
    ensures reg.Valid() && Refines(old(reg.map_), reg.map_, Register(n, port, ptype, bindOk), reply)
  {
    ghost var m0 := reg.map_;
    LegalParts(ptype);
    var m := reg.MapByName(n);
    Present(m0, m, n);
    if m.Some? && port == reg.map_[m.value].port {
      reply := port;
    } else if m.Some? {
      reply := 0;
      if bindOk {
        ViewOfRebind(m0, m.value, Entry(n, port, ptype));
        reg.Rebind(m.value, port, ptype);
        reply := port;
      }
    } else if port == 0 {
      reply := 0;
    } else {
      reg.MapAdd(n, port, ptype);
      ghost var i: nat :| InsertionPoint(m0, n, i) && reg.map_ == m0[..i] + [Entry(n, port, ptype)] + m0[i..];
      ViewOfInsert(m0, Entry(n, port, ptype), i);
      reply := port;
    }
  }

  method DoLookup(reg: Registry, n: Name, ptype: Byte, bindOk: bool) returns (reply: Word32)
    requires reg.Valid()
    modifies reg
    ensures reg.Valid() && Refines(old(reg.map_), reg.map_, Lookup(n, ptype, bindOk), reply)
  {
    var m := reg.MapByName(n);
    Present(reg.map_, m, n);
    if m.Some? && reg.map_[m.value].Type() != ptype {
      m := None;
    }
    reply := 0;
    if m.Some? {
      if bindOk {
        ViewOfRemove(reg.map_, m.value);
        reg.MapDel(m.value);
      } else {
        reply := reg.map_[m.value].port;
      }
    }
  }

  method DoUnregister(reg: Registry, n: Name, port: Word32, ptype: Byte) returns (reply: Word32)
    requires reg.Valid()
    modifies reg
    ensures reg.Valid() && Refines(old(reg.map_), reg.map_, Unregister(n, port, ptype), reply)
  {
    reply := 0;
    if port == 0 || |n| > 0 {
      var m := reg.MapByName(n);
      Present(reg.map_, m, n);
      if m.Some? && reg.map_[m.value].Type() == ptype {
        reply := reg.map_[m.value].port;
        ViewOfRemove(reg.map_, m.value);
        reg.MapDel(m.value);
      }
    } else {
      SortedIsUnique(reg.map_);
      ViewOfWithoutPort(reg.map_, port, ptype);
      AnyWithPort(reg.map_, port, ptype);
      var any := reg.DeletePort(port, ptype);
      if any {
        reply := port;
      }
    }
  }

  predicate Legal(r: Request) {
    r.Register? ==> LegalType(r.ptype)
  }

  lemma {:induction false} RunAppend(v: Bindings, rs: seq<Request>, r: Request)
    ensures var (v1, replies) := Run(v, rs);
            var (v2, reply) := Apply(v1, r);
            Run(v, rs + [r]) == (v2, replies + [reply])
    decreases |rs|
  {
    if rs == [] {
      assert rs + [r] == [r] && [r][1..] == [];
      var (v2, reply) := Apply(v, r);
      assert Run(v, [r]) == (v2, [reply] + []);
      assert [reply] + [] == [] + [reply];
    } else {
      assert (rs + [r])[0] == rs[0] && (rs + [r])[1..] == rs[1..] + [r];
      var (v', first) := Apply(v, rs[0]);
      RunAppend(v', rs[1..], r);
      var (v1, replies) := Run(v', rs[1..]);
      var (v2, reply) := Apply(v1, r);
      assert Run(v, rs + [r]) == (v2, [first] + (replies + [reply]));
      assert [first] + (replies + [reply]) == [first] + replies + [reply];
    }
  }

  /** Any sequence of requests, with any outcomes of the binds, gives the table and the
      replies that it gives on a plain map. */
  method Serve(reg: Registry, rs: seq<Request>) returns (replies: seq<Word32>)
    requires reg.Valid() && forall r | r in rs :: Legal(r)
    modifies reg
    ensures reg.Valid()
    ensures (View(reg.map_), replies) == Run(old(View(reg.map_)), rs)
  {
    replies := [];
    ghost var v0 := View(reg.map_);
    assert rs[..0] == [];
    for i := 0 to |rs|
      invariant reg.Valid()
      invariant (View(reg.map_), replies) == Run(v0, rs[..i])
    {
      var reply;
      ghost var before := reg.map_;
      match rs[i] {
        case Register(n, port, ptype, bindOk) =>
          assert Legal(rs[i]);
          reply := DoRegister(reg, n, port, ptype, bindOk);
        case Lookup(n, ptype, bindOk) => reply := DoLookup(reg, n, ptype, bindOk);
        case Unregister(n, port, ptype) => reply := DoUnregister(reg, n, port, ptype);
      }
      RunAppend(v0, rs[..i], rs[i]);
      assert rs[..i + 1] == rs[..i] + [rs[i]];
      replies := replies + [reply];
    }
    assert rs[..|rs|] == rs;
  }
}
