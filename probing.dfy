/** The cell ring behind a JSON object (`json_object_get_cell_ix`,
    `json_object_add`, `json_object_remove_internal`), stated over sequences.
    `cells` has a power-of-two length; each cell is empty
    (`object_invalid_ix`) or holds the index of an item in the dense item
    arrays. An item's home cell is its hash masked by the capacity, and
    lookups walk forward from the home cell, wrapping around, until they
    meet the key or an empty cell. The facts that make that walk correct,
    and the lemmas that show insertion and backward-shift deletion keep
    them, live here; the class in module KeyedTable performs the writes. */
module Probing {
  import opened Bytes
  import opened Members

  datatype Cell = Empty | Holds(ix: nat)

  /** Steps forward from cell `a` to cell `b` on a ring of `n` cells. */
  function Dist(a: nat, b: nat, n: nat): (d: nat)
    requires a < n && b < n
    ensures d < n && (d == 0 <==> a == b)
  {
    if a <= b then b - a else b + n - a
  }

  /** `x & (n - 1)` for `x < 2 * n`, `n` a power of two. */
  function Wrap(x: nat, n: nat): (r: nat)
    requires x < 2 * n
    ensures r < n
  {
    if x < n then x else x - n
  }

  /** `hash & (n - 1)`: the home cell of a hash, `n` a power of two. */
  function Home(h: nat, n: nat): (r: nat)
    requires n > 0
    ensures r < n
  {
    h % n
  }

  /** `d` steps from `a` land on `Wrap(a + d)`. */
  lemma WrapDist(a: nat, d: nat, n: nat)
    requires a < n && d < n
    ensures Dist(a, Wrap(a + d, n), n) == d
  {
  }

  /** Going from `a` to `c` passes `b` when `b` is no further than `c`. */
  lemma DistSplit(a: nat, b: nat, c: nat, n: nat)
    requires a < n && b < n && c < n && Dist(a, b, n) <= Dist(a, c, n)
    ensures Dist(b, c, n) == Dist(a, c, n) - Dist(a, b, n)
  {
  }

  /** Two legs that together stay short of a full turn add up. */
  lemma DistAdd(a: nat, b: nat, c: nat, n: nat)
    requires a < n && b < n && c < n && Dist(a, b, n) + Dist(b, c, n) < n
    ensures Dist(a, c, n) == Dist(a, b, n) + Dist(b, c, n)
  {
  }

  /** Every cell a lookup passes on its way from home `h` to `c` is occupied. */
  predicate PathFull(cs: seq<Cell>, h: nat, c: nat)
    requires h < |cs| && c < |cs|
  {
    forall p {:trigger Dist(h, p, |cs|)} :: 0 <= p < |cs| && Dist(h, p, |cs|) < Dist(h, c, |cs|) ==> cs[p].Holds?
  }

  /** The dense item arrays: each stored hash is the hash of the stored
      name, and names are distinct. */
  predicate Named(hs: seq<nat>, names: seq<Bytes>, n: nat, hash: Bytes -> nat) {
    n <= |hs| && n <= |names|
    && (forall i :: 0 <= i < n ==> hs[i] == hash(names[i]))
    && (forall i, j :: 0 <= i < j < n ==> names[i] != names[j])
  }

  /** The cell ring and the `cell_ixs` array agree: item `i` sits in cell
      `ixs[i]`, every occupied cell names an item that points back at it,
      a free cell remains, and every item can be reached from its home. */
  predicate Placed(cs: seq<Cell>, hs: seq<nat>, ixs: seq<nat>, n: nat) {
    n <= |hs| && n <= |ixs| && (n < |cs| || n == 0)
    && (forall i :: 0 <= i < n ==> ixs[i] < |cs| && cs[ixs[i]] == Holds(i))
    && (forall c :: 0 <= c < |cs| && cs[c].Holds? ==> cs[c].ix < n && ixs[cs[c].ix] == c)
    && (forall i :: 0 <= i < n ==> PathFull(cs, Home(hs[i], |cs|), ixs[i]))
  }

  /** What a lookup for `key` has seen in its first `d` steps from `home`:
      occupied cells, none of them holding `key`. */
  predicate Seen(cs: seq<Cell>, names: seq<Bytes>, home: nat, d: nat, key: Bytes)
    requires home < |cs|
  {
    forall p {:trigger Dist(home, p, |cs|)} :: 0 <= p < |cs| && Dist(home, p, |cs|) < d ==>
      cs[p].Holds? && cs[p].ix < |names| && names[cs[p].ix] != key
  }

  /** One more probe step past an occupied cell holding another name. */
  lemma SeenStep(cs: seq<Cell>, names: seq<Bytes>, home: nat, d: nat, key: Bytes)
    requires home < |cs| && d < |cs| && Seen(cs, names, home, d, key)
    requires cs[Wrap(home + d, |cs|)].Holds? && cs[Wrap(home + d, |cs|)].ix < |names|
    requires names[cs[Wrap(home + d, |cs|)].ix] != key
    ensures Seen(cs, names, home, d + 1, key)
  {
    forall p | 0 <= p < |cs| && Dist(home, p, |cs|) < d + 1
      ensures cs[p].Holds? && cs[p].ix < |names| && names[cs[p].ix] != key
    {
      if Dist(home, p, |cs|) == d {
        WrapDist(home, d, |cs|);
        assert p == Wrap(home + d, |cs|);
      }
    }
  }

  /** A lookup that meets an empty cell has passed every place the key could
      be: the key is absent, and the empty cell ends a fully occupied path
      from the key's home. */
  lemma MissMeansAbsent(cs: seq<Cell>, hs: seq<nat>, names: seq<Bytes>, ixs: seq<nat>, n: nat,
                         hash: Bytes -> nat, key: Bytes, d: nat)
    requires Placed(cs, hs, ixs, n) && Named(hs, names, n, hash) && |names| == n && |cs| > 0 && d < |cs|
    requires Seen(cs, names, Home(hash(key), |cs|), d, key)
    requires cs[Wrap(Home(hash(key), |cs|) + d, |cs|)] == Empty
    ensures key !in names
    ensures PathFull(cs, Home(hash(key), |cs|), Wrap(Home(hash(key), |cs|) + d, |cs|))
  {
    var home := Home(hash(key), |cs|);
    WrapDist(home, d, |cs|);
    forall i | 0 <= i < n
      ensures names[i] != key
    {
      assert PathFull(cs, Home(hs[i], |cs|), ixs[i]);
    }
  }

  /** Filling a free cell that lies at the end of a fully occupied path
      from the key's home keeps every placement fact. */
  lemma InsertPlaced(cs: seq<Cell>, hs: seq<nat>, ixs: seq<nat>, n: nat, h: nat, c: nat)
    requires Placed(cs, hs, ixs, n) && n + 1 < |cs| && |hs| == n && |ixs| == n
    requires c < |cs| && cs[c] == Empty && PathFull(cs, Home(h, |cs|), c)
    ensures Placed(cs[c := Holds(n)], hs + [h], ixs + [c], n + 1)
  {
    var cs', hs', ixs' := cs[c := Holds(n)], hs + [h], ixs + [c];
    forall i | 0 <= i < n + 1
      ensures PathFull(cs', Home(hs'[i], |cs'|), ixs'[i])
    {
      var home := Home(hs'[i], |cs|);
      assert PathFull(cs, home, ixs'[i]);
    }
  }

  lemma InsertNamed(hs: seq<nat>, names: seq<Bytes>, n: nat, hash: Bytes -> nat, key: Bytes)
    requires Named(hs, names, n, hash) && |hs| == n && |names| == n && key !in names
    ensures Named(hs + [hash(key)], names + [key], n + 1, hash)
  {
  }

  /** A sequence of more than `m` values below `m` repeats one. */
  lemma {:induction false} Pigeonhole(f: seq<nat>, m: nat)
    requires |f| > m && forall k :: 0 <= k < |f| ==> f[k] < m
    ensures exists a, b :: 0 <= a < b < |f| && f[a] == f[b]
    decreases m
  {
    var last := |f| - 1;
    var v := f[last];
    if a :| 0 <= a < last && f[a] == v {
      assert f[a] == f[last];
    } else {
      var g := seq(last, k requires 0 <= k < last => if f[k] < v then f[k] else f[k] - 1);
      forall k | 0 <= k < last
        ensures g[k] < m - 1
      {
        assert f[k] != v;
      }
      Pigeonhole(g, m - 1);
      var a, b :| 0 <= a < b < |g| && g[a] == g[b];
      assert f[a] == f[b] by {
        assert f[a] != v && f[b] != v;
      }
    }
  }

  /** Distinct cells hold distinct items. */
  lemma CellsDistinct(cs: seq<Cell>, ixs: seq<nat>, n: nat, hole: nat, f: seq<nat>)
    requires |f| == |cs| && hole <= |cs|
    requires forall c :: 0 <= c < |cs| && c != hole ==> cs[c].Holds? && cs[c].ix < n && cs[c].ix < |ixs| && ixs[cs[c].ix] == c
    requires forall c :: 0 <= c < |cs| ==> f[c] == (if c == hole then n else cs[c].ix)
    ensures forall a, b :: 0 <= a < b < |f| ==> f[a] != f[b]
  {
  }

  /** With fewer items than cells other than `hole` (which may be the
      past-the-end index, standing for no hole), some other cell is free. */
  lemma SomeFree(cs: seq<Cell>, ixs: seq<nat>, n: nat, hole: nat)
    requires hole <= |cs| && (if hole < |cs| then n + 1 < |cs| else n < |cs|)
    requires forall c :: 0 <= c < |cs| && c != hole && cs[c].Holds? ==> cs[c].ix < n && cs[c].ix < |ixs| && ixs[cs[c].ix] == c
    ensures exists e :: 0 <= e < |cs| && e != hole && cs[e] == Empty
  {
    if forall c :: 0 <= c < |cs| && c != hole ==> cs[c].Holds? {
      var f := seq(|cs|, c requires 0 <= c < |cs| => if c == hole then n else if cs[c].Holds? then cs[c].ix else 0);
      CellsDistinct(cs, ixs, n, hole, f);
      Pigeonhole(f, if hole < |cs| then n + 1 else n);
      assert false;
    }
  }

  /** The state of the backward-shift loop of `json_object_remove_internal`
      after `x` steps from the removed item's cell `start`: `i` is the hole,
      `j` the last cell looked at, `e` a free cell not reached yet. An item
      whose lookup path crosses the hole lies beyond `j`, so the path also
      crosses every cell from the hole to `j`. */
  predicate Shifting(cs: seq<Cell>, hs: seq<nat>, ixs: seq<nat>, n: nat, start: nat, i: nat, j: nat, x: nat, e: nat) {
    start < |cs| && i < |cs| && j < |cs| && e < |cs| && n + 1 < |cs| && n <= |hs| && n <= |ixs|
    && Dist(start, j, |cs|) == x && Dist(start, i, |cs|) <= x
    && cs[e] == Empty && e != i && Dist(start, e, |cs|) > x
    && (forall k :: 0 <= k < n ==> ixs[k] < |cs| && ixs[k] != i && cs[ixs[k]] == Holds(k))
    && (forall c :: 0 <= c < |cs| && c != i && cs[c].Holds? ==> cs[c].ix < n && ixs[cs[c].ix] == c)
    && (forall k :: 0 <= k < n ==> PathAround(cs, Home(hs[k], |cs|), ixs[k], i, j))
  }

  predicate PathAround(cs: seq<Cell>, h: nat, c: nat, i: nat, j: nat)
    requires h < |cs| && c < |cs| && i < |cs| && j < |cs|
  {
    forall p :: 0 <= p < |cs| && Dist(h, p, |cs|) < Dist(h, c, |cs|) ==>
      (p != i && cs[p].Holds?) || (p == i && Dist(i, c, |cs|) > Dist(i, j, |cs|))
  }

  /** `(j > i && (k <= i || k > j)) || (j < i && (k <= i && k > j))`: the
      home `k` of the item in cell `j` is not in the cyclic range `(i, j]`,
      so the item may move back into the hole `i`. */
  predicate MayMove(i: nat, j: nat, k: nat) {
    (j > i && (k <= i || k > j)) || (j < i && (k <= i && k > j))
  }

  lemma MayMoveOutside(i: nat, j: nat, k: nat, n: nat)
    requires i < n && j < n && k < n && i != j
    ensures MayMove(i, j, k) <==> !(0 < Dist(i, k, n) <= Dist(i, j, n))
  {
  }

  /** The ring once item `t` is dropped: the cell of the last item, when
      that is another item, now refers to index `t`. */
  function Redirect(cs: seq<Cell>, ixs: seq<nat>, t: nat): seq<Cell>
    requires t < |ixs| && ixs[|ixs| - 1] < |cs|
  {
    if t < |ixs| - 1 then cs[ixs[|ixs| - 1] := Holds(t)] else cs
  }

  /** The first step of `json_object_remove_internal` turned into the
      starting state of the shift loop. The removed item `t` sat in cell
      `start`; when it was not the last item, the last item has taken its
      index, and the count has dropped by one. */
  lemma ShiftBegins(cs: seq<Cell>, hs: seq<nat>, ixs: seq<nat>, n: nat, t: nat, start: nat,
                    cs': seq<Cell>, hs': seq<nat>, ixs': seq<nat>) returns (e: nat)
    requires Placed(cs, hs, ixs, n) && |hs| == n && |ixs| == n && t < n && start < |cs| && cs[start] == Holds(t)
    requires cs' == Redirect(cs, ixs, t)
    requires hs' == MoveLast(hs, t) && ixs' == MoveLast(ixs, t)
    ensures Shifting(cs', hs', ixs', n - 1, start, start, start, 0, e)
  {
    BeginLinks(cs, hs, ixs, n, t, start, cs', ixs');
    SomeFree(cs', ixs', n - 1, start);
    forall k | 0 <= k < n - 1
      ensures PathAround(cs', Home(hs'[k], |cs'|), ixs'[k], start, start)
    {
      BeginPath(cs, hs, ixs, n, t, start, cs', hs', ixs', k);
    }
    e :| 0 <= e < |cs'| && e != start && cs'[e] == Empty;
  }

  /** After the first step the cells and `cell_ixs` agree again, with the
      freed cell left out. */
  lemma BeginLinks(cs: seq<Cell>, hs: seq<nat>, ixs: seq<nat>, n: nat, t: nat, start: nat, cs': seq<Cell>, ixs': seq<nat>)
    requires Placed(cs, hs, ixs, n) && |ixs| == n && t < n && start < |cs| && cs[start] == Holds(t)
    requires cs' == Redirect(cs, ixs, t)
    requires ixs' == MoveLast(ixs, t)
    ensures forall k :: 0 <= k < n - 1 ==> ixs'[k] < |cs'| && ixs'[k] != start && cs'[ixs'[k]] == Holds(k)
    ensures forall c :: 0 <= c < |cs'| && c != start && cs'[c].Holds? ==> cs'[c].ix < n - 1 && ixs'[cs'[c].ix] == c
  {
    assert ixs[t] == start;
    forall k | 0 <= k < n - 1
      ensures ixs'[k] < |cs'| && ixs'[k] != start && cs'[ixs'[k]] == Holds(k)
    {
      MoveLastAt(ixs, t, k);
    }
    forall c | 0 <= c < |cs'| && c != start && cs'[c].Holds?
      ensures cs'[c].ix < n - 1 && ixs'[cs'[c].ix] == c
    {
      assert cs[c].Holds?;
      MoveLastAt(ixs, t, cs'[c].ix);
    }
  }

  /** After the first step every remaining item's path avoids the freed
      cell, except by ending there. */
  lemma BeginPath(cs: seq<Cell>, hs: seq<nat>, ixs: seq<nat>, n: nat, t: nat, start: nat,
                  cs': seq<Cell>, hs': seq<nat>, ixs': seq<nat>, k: nat)
    requires Placed(cs, hs, ixs, n) && |hs| == n && |ixs| == n && t < n && start < |cs| && cs[start] == Holds(t)
    requires cs' == Redirect(cs, ixs, t)
    requires hs' == MoveLast(hs, t) && ixs' == MoveLast(ixs, t)
    requires k < n - 1
    ensures ixs'[k] < |cs'| && PathAround(cs', Home(hs'[k], |cs'|), ixs'[k], start, start)
  {
    var k0 := if k == t then n - 1 else k;
    MoveLastAt(hs, t, k);
    MoveLastAt(ixs, t, k);
    var h, c := Home(hs[k0], |cs|), ixs[k0];
    assert PathFull(cs, h, c);
    forall p | 0 <= p < |cs'| && p != start && Dist(h, p, |cs'|) < Dist(h, c, |cs'|)
      ensures cs'[p].Holds?
    {
      assert cs[p].Holds?;
    }
  }

  /** The shift loop's next cell lies one step further from the start and
      from the hole. */
  lemma StepAhead(start: nat, i: nat, j: nat, x: nat, e: nat, j': nat, N: nat)
    requires start < N && i < N && j < N && e < N
    requires Dist(start, j, N) == x && Dist(start, i, N) <= x && Dist(start, e, N) > x
    requires j' == Wrap(j + 1, N)
    ensures Dist(start, j', N) == x + 1 && j' != i
    ensures Dist(i, j', N) == Dist(i, j, N) + 1
  {
    WrapDist(start, x + 1, N);
    assert Wrap(start + (x + 1), N) == j' by {
      WrapDist(start, x, N);
    }
    DistSplit(start, i, j', N);
    DistSplit(start, i, j, N);
  }

  /** One step of the shift loop that leaves the item in cell `j'` where it
      is: its home lies between the hole and `j'`. */
  lemma ShiftKeeps(cs: seq<Cell>, hs: seq<nat>, ixs: seq<nat>, n: nat, start: nat, i: nat, j: nat, x: nat, e: nat, j': nat)
    requires Shifting(cs, hs, ixs, n, start, i, j, x, e)
    requires j' == Wrap(j + 1, |cs|) && cs[j'].Holds?
    requires !MayMove(i, j', Home(hs[cs[j'].ix], |cs|))
    ensures Shifting(cs, hs, ixs, n, start, i, j', x + 1, e)
  {
    StepAhead(start, i, j, x, e, j', |cs|);
    assert j' != e;
    forall k | 0 <= k < n
      ensures PathAround(cs, Home(hs[k], |cs|), ixs[k], i, j')
    {
      KeptPath(cs, hs, ixs, n, start, i, j, x, e, j', k);
    }
  }

  /** A path that crossed the hole before this step still crosses it, and
      now also crosses the cell `j'` that stays occupied. */
  lemma KeptPath(cs: seq<Cell>, hs: seq<nat>, ixs: seq<nat>, n: nat, start: nat, i: nat, j: nat, x: nat, e: nat, j': nat, k: nat)
    requires Shifting(cs, hs, ixs, n, start, i, j, x, e)
    requires j' == Wrap(j + 1, |cs|) && cs[j'].Holds? && j' != i
    requires Dist(i, j', |cs|) == Dist(i, j, |cs|) + 1
    requires !MayMove(i, j', Home(hs[cs[j'].ix], |cs|))
    requires k < n
    ensures PathAround(cs, Home(hs[k], |cs|), ixs[k], i, j')
  {
    var N := |cs|;
    var h, c := Home(hs[k], N), ixs[k];
    assert PathAround(cs, h, c, i, j);
    MayMoveOutside(i, j', Home(hs[cs[j'].ix], N), N);
    if c == j' {
      DistSplit(i, h, c, N);
    }
    forall p | 0 <= p < N && Dist(h, p, N) < Dist(h, c, N)
      ensures (p != i && cs[p].Holds?) || (p == i && Dist(i, c, N) > Dist(i, j', N))
    {
    }
  }

  /** One step of the shift loop that moves the item in cell `j'` back into
      the hole `i`, leaving the hole at `j'`. */
  lemma ShiftMoves(cs: seq<Cell>, hs: seq<nat>, ixs: seq<nat>, n: nat, start: nat, i: nat, j: nat, x: nat, e: nat, j': nat)
    requires Shifting(cs, hs, ixs, n, start, i, j, x, e)
    requires j' == Wrap(j + 1, |cs|) && cs[j'].Holds?
    requires MayMove(i, j', Home(hs[cs[j'].ix], |cs|))
    ensures Shifting(cs[i := cs[j']], hs, ixs[cs[j'].ix := i], n, start, j', j', x + 1, e)
  {
    var N := |cs|;
    var m := cs[j'].ix;
    var cs', ixs' := cs[i := cs[j']], ixs[m := i];
    StepAhead(start, i, j, x, e, j', N);
    assert j' != e;
    forall k | 0 <= k < n
      ensures ixs'[k] < N && ixs'[k] != j' && cs'[ixs'[k]] == Holds(k)
    {
    }
    forall c | 0 <= c < N && c != j' && cs'[c].Holds?
      ensures cs'[c].ix < n && ixs'[cs'[c].ix] == c
    {
    }
    forall k | 0 <= k < n
      ensures PathAround(cs', Home(hs[k], N), ixs'[k], j', j')
    {
      if k == m {
        MovedPath(cs, hs, ixs, n, start, i, j, x, e, j');
      } else {
        StayingPath(cs, hs, ixs, n, start, i, j, x, e, j', k);
      }
    }
  }

  /** The path of the item that moves into the hole `i` now ends there. */
  lemma MovedPath(cs: seq<Cell>, hs: seq<nat>, ixs: seq<nat>, n: nat, start: nat, i: nat, j: nat, x: nat, e: nat, j': nat)
    requires Shifting(cs, hs, ixs, n, start, i, j, x, e)
    requires j' == Wrap(j + 1, |cs|) && cs[j'].Holds? && j' != i
    requires MayMove(i, j', Home(hs[cs[j'].ix], |cs|))
    ensures PathAround(cs[i := cs[j']], Home(hs[cs[j'].ix], |cs|), i, j', j')
  {
    var N := |cs|;
    var m := cs[j'].ix;
    var h := Home(hs[m], N);
    MayMoveOutside(i, j', h, N);
    assert PathAround(cs, h, j', i, j);
    if h != i {
      DistAdd(h, i, j', N);
    }
  }

  /** Every other item keeps its cell, and its path avoids the new hole. */
  lemma StayingPath(cs: seq<Cell>, hs: seq<nat>, ixs: seq<nat>, n: nat, start: nat, i: nat, j: nat, x: nat, e: nat, j': nat, k: nat)
    requires Shifting(cs, hs, ixs, n, start, i, j, x, e)
    requires j' == Wrap(j + 1, |cs|) && cs[j'].Holds? && j' != i
    requires k < n && k != cs[j'].ix
    ensures PathAround(cs[i := cs[j']], Home(hs[k], |cs|), ixs[k], j', j')
  {
    var N := |cs|;
    var h, c := Home(hs[k], N), ixs[k];
    assert c != j';
    assert PathAround(cs, h, c, i, j);
  }

  /** The shift loop stops at a free cell: clearing the hole then restores
      every placement fact. */
  lemma ShiftEnds(cs: seq<Cell>, hs: seq<nat>, ixs: seq<nat>, n: nat, start: nat, i: nat, j: nat, x: nat, e: nat, j': nat)
    requires Shifting(cs, hs, ixs, n, start, i, j, x, e)
    requires j' == Wrap(j + 1, |cs|) && cs[j'] == Empty
    ensures Placed(cs[i := Empty], hs, ixs, n)
  {
    StepAhead(start, i, j, x, e, j', |cs|);
    forall k | 0 <= k < n
      ensures PathFull(cs[i := Empty], Home(hs[k], |cs|), ixs[k])
    {
      EndPath(cs, hs, ixs, n, start, i, j, x, e, j', k);
    }
  }

  /** No path crosses the last hole: it would also cross the free cell the
      loop stopped at. */
  lemma EndPath(cs: seq<Cell>, hs: seq<nat>, ixs: seq<nat>, n: nat, start: nat, i: nat, j: nat, x: nat, e: nat, j': nat, k: nat)
    requires Shifting(cs, hs, ixs, n, start, i, j, x, e)
    requires j' == Wrap(j + 1, |cs|) && cs[j'] == Empty
    requires Dist(i, j', |cs|) == Dist(i, j, |cs|) + 1
    requires k < n
    ensures PathFull(cs[i := Empty], Home(hs[k], |cs|), ixs[k])
  {
    var N := |cs|;
    var h, c := Home(hs[k], N), ixs[k];
    assert PathAround(cs, h, c, i, j);
    forall p | 0 <= p < N && Dist(h, p, N) < Dist(h, c, N)
      ensures cs[i := Empty][p].Holds?
    {
      if p == i {
        DistSplit(h, i, c, N);
        assert c != j';
        DistAdd(h, i, j', N);
        assert false;
      }
    }
  }
}
