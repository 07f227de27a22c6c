/** The dense item arrays behind a JSON object, read as sequences: names and
    values in insertion order, the map they stand for, first-match lookup,
    and removal by moving the last item into the freed slot (the compaction
    step of `json_object_remove_internal`). */
module Members {
  import opened Wrappers
  import opened Bytes

  predicate Distinct<T(==)>(s: seq<T>) {
    forall i, j :: 0 <= i < j < |s| ==> s[i] != s[j]
  }

  /** The map a name sequence and a value sequence of the same length stand
      for. */
  function MapOf<V>(ks: seq<Bytes>, vs: seq<V>): map<Bytes, V>
    requires |ks| == |vs|
  {
    if ks == [] then map[] else MapOf(ks[..|ks| - 1], vs[..|vs| - 1])[ks[|ks| - 1] := vs[|vs| - 1]]
  }

  /** The position of the first occurrence of `k`. */
  function IndexOf(ks: seq<Bytes>, k: Bytes): (r: nat)
    requires k in ks
    ensures r < |ks| && ks[r] == k && forall j :: 0 <= j < r ==> ks[j] != k
  {
    if ks[0] == k then 0 else 1 + IndexOf(ks[1..], k)
  }

  /** `json_object_get_value` read off the dense arrays: the value at the
      first position holding `k`. */
  function Lookup<V>(ks: seq<Bytes>, vs: seq<V>, k: Bytes): Option<V>
    requires |ks| == |vs|
  {
    if k in ks then Some(vs[IndexOf(ks, k)]) else None
  }

  /** The keys of the map are the names. */
  lemma {:induction false} MapOfDomain<V>(ks: seq<Bytes>, vs: seq<V>)
    requires |ks| == |vs|
    ensures MapOf(ks, vs).Keys == set k | k in ks
  {
    if ks != [] {
      var n := |ks| - 1;
      MapOfDomain(ks[..n], vs[..n]);
      assert ks == ks[..n] + [ks[n]];
    }
  }

  /** With distinct names, each name maps to the value stored beside it. */
  lemma {:induction false} MapOfAt<V>(ks: seq<Bytes>, vs: seq<V>, i: nat)
    requires |ks| == |vs| && Distinct(ks) && i < |ks|
    ensures ks[i] in MapOf(ks, vs) && MapOf(ks, vs)[ks[i]] == vs[i]
  {
    var n := |ks| - 1;
    if i < n {
      MapOfAt(ks[..n], vs[..n], i);
    }
  }

  /** With distinct names, first-match lookup is lookup in the map. */
  lemma LookupIsMap<V>(ks: seq<Bytes>, vs: seq<V>, k: Bytes)
    requires |ks| == |vs| && Distinct(ks)
    ensures Lookup(ks, vs, k) == if k in MapOf(ks, vs) then Some(MapOf(ks, vs)[k]) else None
  {
    MapOfDomain(ks, vs);
    if k in ks {
      MapOfAt(ks, vs, IndexOf(ks, k));
    }
  }

  /** Appending a new name and its value adds one entry. */
  lemma AppendMap<V>(ks: seq<Bytes>, vs: seq<V>, k: Bytes, v: V)
    requires |ks| == |vs| && Distinct(ks) && k !in ks
    ensures Distinct(ks + [k])
    ensures MapOf(ks + [k], vs + [v]) == MapOf(ks, vs)[k := v]
  {
    assert (ks + [k])[..|ks|] == ks;
    assert (vs + [v])[..|vs|] == vs;
  }

  /** Overwriting the value at `t` in place rebinds its name and nothing
      else. */
  lemma ReplaceMap<V>(ks: seq<Bytes>, vs: seq<V>, t: nat, v: V)
    requires |ks| == |vs| && Distinct(ks) && t < |ks|
    ensures MapOf(ks, vs[t := v]) == MapOf(ks, vs)[ks[t] := v]
  {
    var m, m' := MapOf(ks, vs), MapOf(ks, vs[t := v]);
    MapOfDomain(ks, vs);
    MapOfDomain(ks, vs[t := v]);
    forall k | k in m'
      ensures m'[k] == m[ks[t] := v][k]
    {
      var i := IndexOf(ks, k);
      MapOfAt(ks, vs, i);
      MapOfAt(ks, vs[t := v], i);
    }
  }

  /** With distinct names, looking up the name at `i` finds the value at
      `i`. */
  lemma LookupAt<V>(ks: seq<Bytes>, vs: seq<V>, i: nat)
    requires |ks| == |vs| && Distinct(ks) && i < |ks|
    ensures Lookup(ks, vs, ks[i]) == Some(vs[i])
  {
  }

  /** Distinct names are as many as their set. */
  lemma {:induction false} DistinctCard(ks: seq<Bytes>)
    requires Distinct(ks)
    ensures |set k | k in ks| == |ks|
  {
    if ks != [] {
      DistinctCard(ks[1..]);
      assert (set k | k in ks) == {ks[0]} + (set k | k in ks[1..]);
      assert ks[0] !in ks[1..];
    }
  }

  /** Two equally long sequences of distinct names, the first contained in
      the second, hold the same names. */
  lemma SameNames(ks: seq<Bytes>, ks': seq<Bytes>)
    requires Distinct(ks) && Distinct(ks') && |ks| == |ks'|
    requires forall i :: 0 <= i < |ks| ==> ks[i] in ks'
    ensures forall j :: 0 <= j < |ks'| ==> ks'[j] in ks
  {
    var a, b := set k | k in ks, set k | k in ks';
    DistinctCard(ks);
    DistinctCard(ks');
    assert a <= b;
    assert |b - a| == |b| - |a|;
    assert b - a == {};
    forall j | 0 <= j < |ks'|
      ensures ks'[j] in ks
    {
      assert ks'[j] in b;
    }
  }

  /** The names after `json_object_set_value(k, …)`: unchanged when `k` is
      present, `k` appended otherwise. */
  function PutNames(ks: seq<Bytes>, k: Bytes): (r: seq<Bytes>)
    ensures k in r
  {
    if k in ks then ks else ks + [k]
  }

  /** The values after `json_object_set_value(k, v)`: `v` replaces the value
      of a present `k` in place, or is appended. */
  function PutValues<V>(ks: seq<Bytes>, vs: seq<V>, k: Bytes, v: V): (r: seq<V>)
    requires |ks| == |vs|
    ensures |r| == |PutNames(ks, k)|
  {
    if k in ks then vs[IndexOf(ks, k) := v] else vs + [v]
  }

  /** Setting a member keeps the names distinct and binds `k` to `v` in the
      map, leaving every other name as it was. */
  lemma PutMap<V>(ks: seq<Bytes>, vs: seq<V>, k: Bytes, v: V)
    requires |ks| == |vs| && Distinct(ks)
    ensures Distinct(PutNames(ks, k))
    ensures MapOf(PutNames(ks, k), PutValues(ks, vs, k, v)) == MapOf(ks, vs)[k := v]
  {
    if k in ks {
      ReplaceMap(ks, vs, IndexOf(ks, k), v);
    } else {
      AppendMap(ks, vs, k, v);
    }
  }

  /** Looking a name up after setting a member: `k` finds `v`, any other
      name finds what it found before. */
  lemma PutLookup<V>(ks: seq<Bytes>, vs: seq<V>, k: Bytes, v: V, k': Bytes)
    requires |ks| == |vs| && Distinct(ks)
    ensures Lookup(PutNames(ks, k), PutValues(ks, vs, k, v), k') == if k' == k then Some(v) else Lookup(ks, vs, k')
  {
    PutMap(ks, vs, k, v);
    LookupIsMap(ks, vs, k');
    LookupIsMap(PutNames(ks, k), PutValues(ks, vs, k, v), k');
  }

  /** Removal of item `t` as `json_object_remove_internal` compacts the
      item arrays: the last item moves into the freed slot. */
  function MoveLast<T>(s: seq<T>, t: nat): (r: seq<T>)
    requires t < |s|
    ensures |r| == |s| - 1
  {
    if t == |s| - 1 then s[..t] else s[t := s[|s| - 1]][..|s| - 1]
  }

  /** What removal leaves: every item but the removed one, once each. */
  lemma MoveLastMultiset<T>(s: seq<T>, t: nat)
    requires t < |s|
    ensures multiset(MoveLast(s, t)) == multiset(s) - multiset{s[t]}
  {
    var n := |s| - 1;
    if t == n {
      assert s == s[..t] + [s[t]];
    } else {
      assert s == s[..t] + [s[t]] + s[t + 1..n] + [s[n]];
      assert MoveLast(s, t) == s[..t] + [s[n]] + s[t + 1..n];
    }
  }

  lemma MoveLastAt<T>(s: seq<T>, t: nat, k: nat)
    requires t < |s| && k < |s| - 1
    ensures MoveLast(s, t)[k] == if k == t then s[|s| - 1] else s[k]
  {
  }

  /** Removing an item keeps the names distinct. */
  lemma MoveLastDistinct(ks: seq<Bytes>, t: nat)
    requires Distinct(ks) && t < |ks|
    ensures Distinct(MoveLast(ks, t))
  {
    var ks' := MoveLast(ks, t);
    forall a, b | 0 <= a < b < |ks'|
      ensures ks'[a] != ks'[b]
    {
      MoveLastAt(ks, t, a);
      MoveLastAt(ks, t, b);
    }
  }

  /** Removing an item removes exactly its name from the names. */
  lemma MoveLastNames(ks: seq<Bytes>, t: nat, k: Bytes)
    requires Distinct(ks) && t < |ks|
    ensures k in MoveLast(ks, t) <==> k in ks && k != ks[t]
  {
    var ks' := MoveLast(ks, t);
    var n := |ks| - 1;
    if k in ks' {
      MoveLastAt(ks, t, IndexOf(ks', k));
    }
    if k in ks && k != ks[t] {
      var i := IndexOf(ks, k);
      var i' := if i == n then t else i;
      MoveLastAt(ks, t, i');
      assert ks'[i'] == k;
    }
  }

  /** Removing an item keeps the names distinct and removes exactly its
      name from the map. */
  lemma MoveLastMap<V>(ks: seq<Bytes>, vs: seq<V>, t: nat)
    requires |ks| == |vs| && Distinct(ks) && t < |ks|
    ensures Distinct(MoveLast(ks, t))
    ensures MapOf(MoveLast(ks, t), MoveLast(vs, t)) == MapOf(ks, vs) - {ks[t]}
  {
    var ks', vs' := MoveLast(ks, t), MoveLast(vs, t);
    var n := |ks| - 1;
    MoveLastDistinct(ks, t);
    var m, m' := MapOf(ks, vs), MapOf(ks', vs');
    MapOfDomain(ks, vs);
    MapOfDomain(ks', vs');
    forall k
      ensures k in m' <==> k in m && k != ks[t]
    {
      MoveLastNames(ks, t, k);
    }
    forall k | k in m'
      ensures m'[k] == m[k]
    {
      var i := IndexOf(ks', k);
      MoveLastAt(ks, t, i);
      MoveLastAt(vs, t, i);
      MapOfAt(ks', vs', i);
      MapOfAt(ks, vs, if i == t then n else i);
    }
  }
}
