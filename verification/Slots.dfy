/** Arrays of per-descriptor records: the get and del routines for RInfo and for WInfo are the
    same code over two record types. */
module Slots {
  import opened Wrappers

  datatype Slot<T> = Slot(s: int, info: T)

  ghost predicate UniqueKeys<T>(a: seq<Slot<T>>) {
    forall i, j | 0 <= i < j < |a| :: a[i].s != a[j].s
  }

  /** What a search from the front finds under each descriptor. */
  function AsMap<T>(a: seq<Slot<T>>): map<int, T> {
    if a == [] then map[] else AsMap(a[1..])[a[0].s := a[0].info]
  }

  lemma {:induction false} AsMapHas<T>(a: seq<Slot<T>>, s: int)
    ensures s in AsMap(a) <==> exists i | 0 <= i < |a| :: a[i].s == s
  {
    if a != [] {
      AsMapHas(a[1..], s);
      assert forall i | 0 < i < |a| :: a[i] == a[1..][i - 1];
      assert forall i | 0 <= i < |a[1..]| :: a[1..][i] == a[i + 1];
    }
  }

  lemma {:induction false} AsMapAt<T>(a: seq<Slot<T>>, i: nat)
    requires UniqueKeys(a) && i < |a|
    ensures a[i].s in AsMap(a) && AsMap(a)[a[i].s] == a[i].info
  {
    if i > 0 {
      AsMapAt(a[1..], i - 1);
      assert a[0].s != a[i].s;
    }
  }

  lemma AsMapCons<T>(x: Slot<T>, a: seq<Slot<T>>)
    ensures AsMap([x] + a) == AsMap(a)[x.s := x.info]
  {
    assert ([x] + a)[1..] == a;
  }

  lemma UniqueTail<T>(a: seq<Slot<T>>)
    requires UniqueKeys(a) && a != []
    ensures UniqueKeys(a[1..]) && a == [a[0]] + a[1..]
    ensures forall i | 0 < i < |a| :: a[i].s != a[0].s
  {
  }

  lemma UniqueAppend<T>(a: seq<Slot<T>>, x: Slot<T>)
    requires UniqueKeys(a) && x.s !in AsMap(a)
    ensures UniqueKeys(a + [x])
  {
    AsMapHas(a, x.s);
  }

  lemma {:induction false} AsMapAppend<T>(a: seq<Slot<T>>, x: Slot<T>)
    requires UniqueKeys(a) && x.s !in AsMap(a)
    ensures UniqueKeys(a + [x]) && AsMap(a + [x]) == AsMap(a)[x.s := x.info]
  {
    UniqueAppend(a, x);
    hide UniqueKeys, AsMap;
    if a == [] {
      assert a + [x] == [x] + a;
      AsMapCons(x, a);
    } else {
      UniqueTail(a);
      AsMapCons(a[0], a[1..]);
      AsMapAppend(a[1..], x);
      assert a + [x] == [a[0]] + (a[1..] + [x]);
      AsMapCons(a[0], a[1..] + [x]);
    }
  }

  lemma {:induction false} AsMapUpdate<T>(a: seq<Slot<T>>, i: nat, x: T)
    requires UniqueKeys(a) && i < |a|
    ensures var b := a[i := Slot(a[i].s, x)];
            UniqueKeys(b) && AsMap(b) == AsMap(a)[a[i].s := x]
  {
    var b := a[i := Slot(a[i].s, x)];
    if i > 0 {
      AsMapUpdate(a[1..], i - 1, x);
      assert b[1..] == a[1..][i - 1 := Slot(a[1..][i - 1].s, x)];
    } else {
      assert b[1..] == a[1..];
    }
  }

  lemma UniqueRemove<T>(a: seq<Slot<T>>, i: nat)
    requires UniqueKeys(a) && i < |a|
    ensures UniqueKeys(a[..i] + a[i + 1..])
  {
  }

  lemma {:induction false} AsMapRemove<T>(a: seq<Slot<T>>, i: nat)
    requires UniqueKeys(a) && i < |a|
    ensures var b := a[..i] + a[i + 1..];
            UniqueKeys(b) && AsMap(b) == AsMap(a) - {a[i].s}
  {
    UniqueRemove(a, i);
    AsMapHas(a[1..], a[0].s);
    hide UniqueKeys, AsMap;
    UniqueTail(a);
    AsMapCons(a[0], a[1..]);
    if i > 0 {
      var c := a[1..][..i - 1] + a[1..][i..];
      AsMapRemove(a[1..], i - 1);
      assert a[..i] + a[i + 1..] == [a[0]] + c;
      AsMapCons(a[0], c);
    } else {
      assert a[..i] + a[i + 1..] == a[1..];
    }
  }

  /** getRInfo and getWInfo without `make`: the position of the record. */
  method Get<T>(a: seq<Slot<T>>, s: int) returns (r: Option<nat>)
    requires UniqueKeys(a)
    ensures r.None? <==> s !in AsMap(a)
    ensures r.Some? ==> r.value < |a| && a[r.value].s == s && a[r.value].info == AsMap(a)[s]
  {
    AsMapHas(a, s);
    for i := 0 to |a|
      invariant forall j | 0 <= j < i :: a[j].s != s
    {
      if a[i].s == s {
        AsMapAt(a, i);
        return Some(i);
      }
    }
    r := None;
  }

  /** delRInfo and delWInfo: without a record there is nothing to do but complain. */
  method Del<T>(a: seq<Slot<T>>, s: int) returns (b: seq<Slot<T>>)
    requires UniqueKeys(a)
    ensures UniqueKeys(b) && AsMap(b) == AsMap(a) - {s}
  {
    var r := Get(a, s);
    if r.None? {
      return a;
    }
    AsMapRemove(a, r.value);
    b := a[..r.value] + a[r.value + 1..];
  }
}
