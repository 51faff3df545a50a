/** The maps of maps behind two- and three-part keys (trace_streamer/src/base/double_map.h:24-86,
    trace_streamer/src/base/triple_map.h:21-64 and the erase macros of
    trace_streamer/src/base/base_map.h:19-60). Both refine one flat map: emptied inner maps stay
    behind but cannot be observed. */
module NestedMaps {
  import opened Words

  function Get2<A, B, V>(m: map<A, map<B, V>>, a: A, b: B): (r: Option<V>) {
    if a in m && b in m[a] then Some(m[a][b]) else None
  }

  function Get3<A, B, C, V>(m: map<A, map<B, map<C, V>>>, a: A, b: B, c: C): (r: Option<V>) {
    if a in m then Get2(m[a], b, c) else None
  }

  function Get<K, V>(f: map<K, V>, k: K): (r: Option<V>) {
    if k in f then Some(f[k]) else None
  }

  function Flat2<A(!new), B(!new), V>(m: map<A, map<B, V>>): (f: map<(A, B), V>)
    ensures forall a, b :: Get(f, (a, b)) == Get2(m, a, b)
  {
    map a, b | a in m && b in m[a] :: (a, b) := m[a][b]
  }

  function Flat3<A(!new), B(!new), C(!new), V>(m: map<A, map<B, map<C, V>>>): (f: map<(A, B, C), V>)
    ensures forall a, b, c :: Get(f, (a, b, c)) == Get3(m, a, b, c)
  {
    map a, b, c | a in m && b in m[a] && c in m[a][b] :: (a, b, c) := m[a][b][c]
  }

  function Insert2<A(!new), B(!new), V>(m: map<A, map<B, V>>, a: A, b: B, v: V): (r: map<A, map<B, V>>)
    ensures Get2(r, a, b) == Some(v)
    ensures forall x, y :: (x, y) != (a, b) ==> Get2(r, x, y) == Get2(m, x, y)
  {
    if a in m then m[a := m[a][b := v]] else m[a := map[b := v]]
  }

  function Erase2<A(!new), B(!new), V>(m: map<A, map<B, V>>, a: A, b: B): (r: map<A, map<B, V>>)
    ensures Get2(r, a, b) == None
    ensures forall x, y :: (x, y) != (a, b) ==> Get2(r, x, y) == Get2(m, x, y)
  {
    if a in m then m[a := m[a] - {b}] else m
  }

  lemma SameMap<K(!new), V>(f: map<K, V>, g: map<K, V>)
    requires forall k :: Get(f, k) == Get(g, k)
    ensures f == g
  {
    forall k ensures k in f <==> k in g ensures k in f ==> f[k] == g[k] {
      assert Get(f, k) == Get(g, k);
    }
  }

  lemma SameFlat2<A(!new), B(!new), V>(m: map<A, map<B, V>>, g: map<(A, B), V>)
    requires forall a, b :: Get2(m, a, b) == Get(g, (a, b))
    ensures Flat2(m) == g
  {
    forall k: (A, B) ensures Get(Flat2(m), k) == Get(g, k) {
      assert k == (k.0, k.1) && Get2(m, k.0, k.1) == Get(g, (k.0, k.1));
    }
    SameMap(Flat2(m), g);
  }

  lemma SameFlat3<A(!new), B(!new), C(!new), V>(m: map<A, map<B, map<C, V>>>, g: map<(A, B, C), V>)
    requires forall a, b, c :: Get3(m, a, b, c) == Get(g, (a, b, c))
    ensures Flat3(m) == g
  {
    forall k: (A, B, C) ensures Get(Flat3(m), k) == Get(g, k) {
      assert k == (k.0, k.1, k.2) && Get3(m, k.0, k.1, k.2) == Get(g, (k.0, k.1, k.2));
    }
    SameMap(Flat3(m), g);
  }

  class DoubleMap<A(==,!new), B(==,!new), V(==)> {
    var internalMap: map<A, map<B, V>>
    const invalidValue: V

    ghost function Contents(): (f: map<(A, B), V>)
      reads this
    {
      Flat2(internalMap)
    }

    constructor (invalidValue: V)
      ensures Contents() == map[] && this.invalidValue == invalidValue
    {
      internalMap := map[];
      this.invalidValue := invalidValue;
      new;
      SameFlat2(internalMap, map[]);
    }

    method Insert(a: A, b: B, v: V)
      modifies this
      ensures Contents() == old(Contents())[(a, b) := v]
    {
      ghost var expected, m := Contents()[(a, b) := v], Insert2(internalMap, a, b, v);
      forall x, y ensures Get2(m, x, y) == Get(expected, (x, y)) {
        assert Get(Contents(), (x, y)) == Get2(internalMap, x, y);
      }
      SameFlat2(m, expected);
      if a in internalMap {
        var inner := internalMap[a];
        internalMap := internalMap[a := inner[b := v]];
      } else {
        internalMap := internalMap[a := map[b := v]];
      }
    }

    method Find(a: A, b: B) returns (v: V)
      ensures v == if (a, b) in Contents() then Contents()[(a, b)] else invalidValue
    {
      assert Get(Contents(), (a, b)) == Get2(internalMap, a, b);
      if a in internalMap {
        if b !in internalMap[a] {
          v := invalidValue;
        } else {
          v := internalMap[a][b];
        }
      } else {
        v := invalidValue;
      }
    }

    method Erase(a: A, b: B)
      modifies this
      ensures Contents() == old(Contents()) - {(a, b)}
    {
      ghost var expected := Contents() - {(a, b)};
      ghost var before := internalMap;
      if a in internalMap {
        if b in internalMap[a] {
          internalMap := internalMap[a := internalMap[a] - {b}];
        }
      }
      forall x, y ensures Get2(internalMap, x, y) == Get(expected, (x, y)) {
        assert Get(Flat2(before), (x, y)) == Get2(before, x, y);
      }
      SameFlat2(internalMap, expected);
    }
  }

  /** Each inner map is a DoubleMap held by value. */
  class TripleMap<A(==,!new), B(==,!new), C(==,!new), V(==)> {
    var internalMap: map<A, map<B, map<C, V>>>
    const invalidValue: V

    ghost function Contents(): (f: map<(A, B, C), V>)
      reads this
    {
      Flat3(internalMap)
    }

    constructor (invalidValue: V)
      ensures Contents() == map[] && this.invalidValue == invalidValue
    {
      internalMap := map[];
      this.invalidValue := invalidValue;
      new;
      SameFlat3(internalMap, map[]);
    }

    method Insert(a: A, b: B, c: C, v: V)
      modifies this
      ensures Contents() == old(Contents())[(a, b, c) := v]
    {
      ghost var expected := Contents()[(a, b, c) := v];
      ghost var before := internalMap;
      var inner := if a in internalMap then internalMap[a] else map[];
      internalMap := internalMap[a := Insert2(inner, b, c, v)];
      forall x, y, z ensures Get3(internalMap, x, y, z) == Get(expected, (x, y, z)) {
        assert Get(Flat3(before), (x, y, z)) == Get3(before, x, y, z);
        assert x == a ==> Get3(before, x, y, z) == Get2(inner, y, z);
      }
      SameFlat3(internalMap, expected);
    }

    method Find(a: A, b: B, c: C) returns (v: V)
      ensures v == if (a, b, c) in Contents() then Contents()[(a, b, c)] else invalidValue
    {
      assert Get(Contents(), (a, b, c)) == Get3(internalMap, a, b, c);
      if a in internalMap && b in internalMap[a] && c in internalMap[a][b] {
        v := internalMap[a][b][c];
      } else {
        v := invalidValue;
      }
    }

    method Erase(a: A, b: B, c: C)
      modifies this
      ensures Contents() == old(Contents()) - {(a, b, c)}
    {
      ghost var expected := Contents() - {(a, b, c)};
      ghost var before := internalMap;
      if a in internalMap {
        internalMap := internalMap[a := Erase2(internalMap[a], b, c)];
      }
      forall x, y, z ensures Get3(internalMap, x, y, z) == Get(expected, (x, y, z)) {
        assert Get(Flat3(before), (x, y, z)) == Get3(before, x, y, z);
      }
      SameFlat3(internalMap, expected);
    }
  }
}
