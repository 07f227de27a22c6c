/** The open-addressing table behind a JSON object (`JSON_Object`): a
    power-of-two ring of cells, each empty (`object_invalid_ix`) or holding
    an item index, and four dense item arrays (names, values, hashes and the
    cell of each item) kept in insertion order. The load factor is 70%:
    `item_capacity` is `cell_capacity * 7 / 10`, and a full table doubles
    its ring (at least 16 cells) and re-inserts every item.

    `hash_string` is a parameter of the table, any function of the key
    bytes; a constant function is the forced-collision build. Masking
    `h & (cap - 1)` with a power-of-two `cap` is written `h % cap`. Values
    are generic; the `parent` back-reference a stored value receives is not
    modelled, and the rejection of a value that already has a parent is
    modelled by a flag passed with the value.

    The ring and the item buffers are sequence fields that the methods
    reassign; an item buffer holds only its used part, `[0, count)`, and
    the capacities are kept as numbers beside them. The probe and the
    backward shift, which only read or rewrite the ring, work on the field
    values and hand back the new ring. */
module KeyedTable {
  import opened Wrappers
  import opened Bytes
  import opened Probing
  import opened Members

  /** `starting_capacity`. */
  const StartingCapacity: nat := 16

  /** `object_invalid_ix`: `SIZE_MAX` on a 64-bit target. */
  const InvalidIx: nat := 0xFFFF_FFFF_FFFF_FFFF

  predicate IsPow2(n: nat) {
    n == 1 || (n > 1 && n % 2 == 0 && IsPow2(n / 2))
  }

  /** The cell capacities a table passes through: 0, then 16, 32, 64, ... */
  predicate IsCapacity(n: nat) {
    n == 0 || (n >= StartingCapacity && IsPow2(n))
  }

  /** `max_size(cell_capacity * 2, starting_capacity)`. */
  function NextCapacity(n: nat): nat {
    if 2 * n > StartingCapacity then 2 * n else StartingCapacity
  }

  /** `(capacity * 7) / 10`. */
  function ItemCapacity(cellCapacity: nat): nat {
    cellCapacity * 7 / 10
  }

  /** Growth keeps the capacity a power of two of at least 16 and makes room
      for at least one more item. */
  lemma NextCapacityGrows(n: nat)
    requires IsCapacity(n)
    ensures IsCapacity(NextCapacity(n)) && NextCapacity(n) > 0
    ensures ItemCapacity(n) < ItemCapacity(NextCapacity(n))
  {
    if n > 0 {
      assert NextCapacity(n) == 2 * n;
      assert (2 * n) / 2 == n;
    } else {
      assert IsPow2(16) by {
        assert IsPow2(8) by { assert IsPow2(4) by { assert IsPow2(2); } }
      }
    }
  }

  /** Mask of a hash with `cap - 1`; with no cells `cap - 1` wraps to all
      ones and the hash itself is the (unused) start of the probe. */
  function Mask(h: nat, cap: nat): nat {
    if cap == 0 then h else Home(h, cap)
  }

  /** The stored hashes and names stay consistent and distinct when the
      last item moves into slot `t`. */
  lemma RemoveNamed(hs: seq<nat>, ns: seq<Bytes>, n: nat, t: nat, f: Bytes -> nat)
    requires t < n && |hs| == n && |ns| == n && Named(hs, ns, n, f)
    ensures Named(MoveLast(hs, t), MoveLast(ns, t), n - 1, f)
  {
    forall a, b | 0 <= a < b < n - 1
      ensures MoveLast(ns, t)[a] != MoveLast(ns, t)[b]
    {
      MoveLastAt(ns, t, a);
      MoveLastAt(ns, t, b);
    }
    forall a | 0 <= a < n - 1
      ensures MoveLast(hs, t)[a] == f(MoveLast(ns, t)[a])
    {
      MoveLastAt(ns, t, a);
      MoveLastAt(hs, t, a);
    }
  }

  /** `json_object_get_cell_ix`: probes from the key's home cell until it
      meets the key (found) or an empty cell (the cell an insertion would
      take). */
  method FindCell(cells: seq<Cell>, hashes: seq<nat>, names: seq<Bytes>, cellIxs: seq<nat>, count: nat,
                  hash: Bytes -> nat, key: Bytes, h: nat) returns (cell: nat, found: bool)
    requires Placed(cells, hashes, cellIxs, count) && Named(hashes, names, count, hash)
    requires |names| == count && |hashes| == count && |cellIxs| == count && h == hash(key)
    ensures found <==> key in names
    ensures found ==> cell < |cells| && cells[cell].Holds? && cells[cell].ix < count
                      && names[cells[cell].ix] == key
    ensures !found && |cells| > 0 ==>
      cell < |cells| && cells[cell] == Empty && PathFull(cells, Home(h, |cells|), cell)
    ensures |cells| == 0 ==> cell == InvalidIx
  {
    var cap := |cells|;
    if cap == 0 {
      return InvalidIx, false;
    }
    var home := Mask(h, cap);
    SomeFree(cells, cellIxs, count, cap);
    ghost var free :| 0 <= free < cap && cells[free] == Empty;
    var i: nat := 0;
    while i < cap
      invariant i <= cap && home == Home(h, cap)
      invariant Seen(cells, names, home, i, key)
      invariant Dist(home, free, cap) >= i
    {
      var ix := Wrap(home + i, cap);
      var c := cells[ix];
      if c == Empty {
        MissMeansAbsent(cells, hashes, names, cellIxs, count, hash, key, i);
        return ix, false;
      }
      if hashes[c.ix] != h {
        assert hashes[c.ix] == hash(names[c.ix]);
        SeenStep(cells, names, home, i, key);
        i := i + 1;
        continue;
      }
      if names[c.ix] == key {
        return ix, true;
      }
      SeenStep(cells, names, home, i, key);
      i := i + 1;
    }
    return InvalidIx, false;
  }

  /** The backward-shift loop of `json_object_remove_internal`, on the
      cells and `cell_ixs` it rewrites: walks forward from the freed cell,
      moves back into the hole every item whose home does not lie
      cyclically in (hole, current], and empties the last hole at the first
      empty cell. */
  method BackShift(cells: seq<Cell>, hashes: seq<nat>, cellIxs: seq<nat>, count: nat, start: nat, ghost e: nat)
    returns (cells': seq<Cell>, cellIxs': seq<nat>)
    requires Shifting(cells, hashes, cellIxs, count, start, start, start, 0, e)
    ensures |cells'| == |cells| && |cellIxs'| == |cellIxs|
    ensures Placed(cells', hashes, cellIxs', count)
  {
    var cap := |cells|;
    cells', cellIxs' := cells, cellIxs;
    var i, j := start, start;
    var x := 0;
    ghost var stop := false;
    while x < cap - 1
      invariant |cells'| == cap && |cellIxs'| == |cellIxs|
      invariant Shifting(cells', hashes, cellIxs', count, start, i, j, x, e)
    {
      var next := Wrap(j + 1, cap);
      if cells'[next] == Empty {
        ShiftEnds(cells', hashes, cellIxs', count, start, i, j, x, e, next);
        stop := true;
        break;
      }
      StepAhead(start, i, j, x, e, next, cap);
      var k := Home(hashes[cells'[next].ix], cap);
      if MayMove(i, next, k) {
        ShiftMoves(cells', hashes, cellIxs', count, start, i, j, x, e, next);
        cellIxs' := cellIxs'[cells'[next].ix := i];
        cells' := cells'[i := cells'[next]];
        i := next;
      } else {
        ShiftKeeps(cells', hashes, cellIxs', count, start, i, j, x, e, next);
      }
      j, x := next, x + 1;
    }
    if !stop {
      assert false;
    }
    cells' := cells'[i := Empty];
  }

  /** The ring, the hashes and `cell_ixs` after item `t`, held in cell
      `start`, is removed: the last item takes index `t` and the ring is
      repaired by backward shifting. */
  method RemoveFromRing(cells: seq<Cell>, hashes: seq<nat>, names: seq<Bytes>, cellIxs: seq<nat>, count: nat,
                        hash: Bytes -> nat, t: nat, start: nat)
    returns (cells': seq<Cell>, hashes': seq<nat>, cellIxs': seq<nat>)
    requires Placed(cells, hashes, cellIxs, count) && Named(hashes, names, count, hash)
    requires |names| == count && |hashes| == count && |cellIxs| == count
    requires t < count && start < |cells| && cells[start] == Holds(t)
    ensures |cells'| == |cells| && hashes' == MoveLast(hashes, t) && |cellIxs'| == count - 1
    ensures Placed(cells', hashes', cellIxs', count - 1) && Named(hashes', MoveLast(names, t), count - 1, hash)
  {
    var cs := Redirect(cells, cellIxs, t);
    var ixs := MoveLast(cellIxs, t);
    hashes' := MoveLast(hashes, t);
    RemoveNamed(hashes, names, count, t, hash);
    ghost var e := ShiftBegins(cells, hashes, cellIxs, count, t, start, cs, hashes', ixs);
    cells', cellIxs' := BackShift(cs, hashes', ixs, count - 1, start, e);
  }

  class Table<V> {
    const hash: Bytes -> nat
    /** `cells`: the ring, `cell_capacity` long. */
    var cells: seq<Cell>
    /** The used part, `[0, count)`, of the item buffers `names`, `values`,
        `hashes` and `cell_ixs`, in insertion order. */
    var names: seq<Bytes>
    var values: seq<V>
    var hashes: seq<nat>
    var cellIxs: seq<nat>
    var count: nat
    var itemCapacity: nat
    var cellCapacity: nat

    /** The ring invariants: the agreement of the ring with `cell_ixs`,
        reachability of every item from its home cell, the stored hashes
        and distinct names. */
    ghost predicate Ring()
      reads this
    {
      |cells| == cellCapacity
      && |names| == count && |values| == count && |hashes| == count && |cellIxs| == count
      && Placed(cells, hashes, cellIxs, count)
      && Named(hashes, names, count, hash)
    }

    /** The table invariants: the ring invariants and the capacities. */
    ghost predicate Valid()
      reads this
    {
      Ring() && IsCapacity(cellCapacity)
      && itemCapacity == ItemCapacity(cellCapacity) && count <= itemCapacity
    }

    /** The map the object stands for. */
    ghost function Contents(): map<Bytes, V>
      reads this
      requires Valid()
    {
      MapOf(names, values)
    }

    /** No name is stored twice. */
    lemma NamesDistinct()
      requires Valid()
      ensures Distinct(names)
    {
    }

    /** `json_object_make` for an object: `json_object_init(object, 0)`,
        an empty table without cells. */
    constructor (hash: Bytes -> nat)
      ensures Valid() && this.hash == hash
      ensures cellCapacity == 0 && names == [] && values == []
    {
      this.hash := hash;
      new;
      Init(0);
    }

    /** `json_object_init(object, capacity)`: no items, `capacity` cells,
        every one set to `object_invalid_ix`, and room for
        `capacity * 7 / 10` items. */
    method Init(capacity: nat)
      requires IsCapacity(capacity)
      modifies this
      ensures Valid() && cellCapacity == capacity && names == [] && values == []
    {
      names, values, hashes, cellIxs := [], [], [], [];
      count, cellCapacity, itemCapacity := 0, capacity, ItemCapacity(capacity);
      var ring: seq<Cell> := [];
      var i := 0;
      while i < capacity
        invariant i <= capacity && |ring| == i
        invariant forall c :: 0 <= c < i ==> ring[c] == Empty
      {
        ring := ring + [Empty];
        i := i + 1;
      }
      cells := ring;
    }

    /** `json_object_get_cell_ix` on this table's fields. */
    method GetCellIx(key: Bytes, h: nat) returns (cell: nat, found: bool)
      requires Ring() && h == hash(key)
      ensures found <==> key in names
      ensures found ==> cell < cellCapacity && cells[cell].Holds? && cells[cell].ix < count
                        && names[cells[cell].ix] == key
      ensures !found && cellCapacity > 0 ==>
        cell < cellCapacity && cells[cell] == Empty && PathFull(cells, Home(h, cellCapacity), cell)
      ensures cellCapacity == 0 ==> cell == InvalidIx
    {
      cell, found := FindCell(cells, hashes, names, cellIxs, count, hash, key, h);
    }

    /** The common tail of `json_object_add` and `json_object_set_value`:
        the new item goes at the end of the item buffers and into the free
        cell the probe stopped at. */
    method PutItem(name: Bytes, value: V, h: nat, cell: nat)
      requires Valid() && h == hash(name) && name !in names && count < itemCapacity
      requires cell < cellCapacity && cells[cell] == Empty && PathFull(cells, Home(h, cellCapacity), cell)
      modifies this
      ensures Valid() && cellCapacity == old(cellCapacity)
      ensures names == old(names) + [name] && values == old(values) + [value]
    {
      InsertPlaced(cells, hashes, cellIxs, count, h, cell);
      InsertNamed(hashes, names, count, hash, name);
      names := names + [name];
      cells := cells[cell := Holds(count)];
      values := values + [value];
      cellIxs := cellIxs + [cell];
      hashes := hashes + [h];
      count := count + 1;
    }

    /** `json_object_add`: fails on a missing name or value and on a name
        already present; otherwise grows a full table first, then appends
        the item. */
    method Add(name: Option<Bytes>, value: Option<V>) returns (ok: bool)
      requires Valid()
      modifies this
      ensures Valid()
      ensures ok <==> name.Some? && value.Some? && name.value !in old(names)
      ensures ok ==> names == old(names) + [name.value] && values == old(values) + [value.value]
      ensures !ok ==> names == old(names) && values == old(values)
      ensures cellCapacity == if ok && old(count) >= old(itemCapacity) then NextCapacity(old(cellCapacity)) else old(cellCapacity)
      decreases if count < itemCapacity then 0 else 1, 3
    {
      if name.None? || value.None? {
        return false;
      }
      var key := name.value;
      var h := hash(key);
      var cell, found := GetCellIx(key, h);
      if found {
        return false;
      }
      if count >= itemCapacity {
        cell := GrowAndFind(key, h);
      }
      PutItem(key, value.value, h, cell);
      return true;
    }

    /** The growth branch shared by `json_object_add` and
        `json_object_set_value`: rehash into a larger table, then probe for
        the key again to find the cell it will take. */
    method GrowAndFind(key: Bytes, h: nat) returns (cell: nat)
      requires Valid() && h == hash(key) && key !in names
      modifies this
      ensures Valid() && names == old(names) && values == old(values)
      ensures cellCapacity == NextCapacity(old(cellCapacity)) && count < itemCapacity
      ensures cell < cellCapacity && cells[cell] == Empty && PathFull(cells, Home(h, cellCapacity), cell)
      decreases 1, 2
    {
      NextCapacityGrows(cellCapacity);
      GrowAndRehash();
      var found;
      cell, found := GetCellIx(key, h);
    }

    /** `json_object_grow_and_rehash`: a table initialised with
        `max(2 * cell_capacity, 16)` cells receives every item again, in
        order, and replaces the old one. */
    method GrowAndRehash()
      requires Valid()
      modifies this
      ensures Valid() && names == old(names) && values == old(values)
      ensures cellCapacity == NextCapacity(old(cellCapacity))
      decreases 1, 1
    {
      var newCapacity := NextCapacity(cellCapacity);
      NextCapacityGrows(cellCapacity);
      NamesDistinct();
      var ns, vs, n := names, values, count;
      Init(newCapacity);
      var i := 0;
      while i < n
        invariant i <= n && Valid() && cellCapacity == newCapacity
        invariant names == ns[..i] && values == vs[..i]
      {
        assert ns[i] !in ns[..i];
        var ok := Add(Some(ns[i]), Some(vs[i]));
        assert ns[..i + 1] == ns[..i] + [ns[i]];
        assert vs[..i + 1] == vs[..i] + [vs[i]];
        i := i + 1;
      }
      assert ns[..n] == ns && vs[..n] == vs;
    }

    /** `json_object_getn_value`: the value stored under `name`, found by
        probing. */
    method GetValue(name: Option<Bytes>) returns (r: Option<V>)
      requires Valid()
      ensures name.None? ==> r.None?
      ensures name.Some? ==> r == Lookup(names, values, name.value)
      ensures name.Some? ==> r == if name.value in Contents() then Some(Contents()[name.value]) else None
    {
      NamesDistinct();
      if name.Some? {
        LookupIsMap(names, values, name.value);
      }
      if name.None? {
        return None;
      }
      var cell, found := GetCellIx(name.value, hash(name.value));
      if !found {
        return None;
      }
      var ix := cells[cell].ix;
      assert IndexOf(names, name.value) == ix;
      return Some(values[ix]);
    }

    /** `json_object_get_count`. */
    method GetCount() returns (n: nat)
      requires Valid()
      ensures n == |names|
    {
      return count;
    }

    /** `json_object_get_name`: the name at a dense index, none past the
        end. */
    method GetName(index: nat) returns (r: Option<Bytes>)
      requires Valid()
      ensures r == if index < |names| then Some(names[index]) else None
    {
      if index >= count {
        return None;
      }
      return Some(names[index]);
    }

    /** `json_object_get_value_at`. */
    method GetValueAt(index: nat) returns (r: Option<V>)
      requires Valid()
      ensures r == if index < |values| then Some(values[index]) else None
    {
      if index >= count {
        return None;
      }
      return Some(values[index]);
    }

    /** `json_object_remove_internal` once the item `t` has been found in
        cell `start`: item `t` is dropped and the last item, when it is
        another one, takes its index (its cell is redirected to `t`); then
        the ring is repaired by backward shifting, without tombstones. */
    method RemoveAt(t: nat, start: nat)
      requires Valid() && t < count && start < cellCapacity && cells[start] == Holds(t)
      modifies this
      ensures Valid() && cellCapacity == old(cellCapacity)
      ensures names == MoveLast(old(names), t) && values == MoveLast(old(values), t)
      ensures hashes == MoveLast(old(hashes), t)
    {
      var cs, hs, ixs := RemoveFromRing(cells, hashes, names, cellIxs, count, hash, t, start);
      names, values := MoveLast(names, t), MoveLast(values, t);
      cellIxs, hashes, cells, count := ixs, hs, cs, count - 1;
    }

    /** `json_object_remove_internal`: fails when the name is absent;
        otherwise removes its item, moving the last item into its index,
        and repairs the ring by backward shifting, without tombstones. */
    method Remove(name: Bytes) returns (ok: bool)
      requires Valid()
      modifies this
      ensures Valid() && cellCapacity == old(cellCapacity)
      ensures ok <==> name in old(names)
      ensures ok ==> var t := IndexOf(old(names), name);
        names == MoveLast(old(names), t) && values == MoveLast(old(values), t)
      ensures !ok ==> names == old(names) && values == old(values)
      ensures Contents() == old(Contents()) - {name}
    {
      NamesDistinct();
      MapOfDomain(names, values);
      var h := hash(name);
      var cell, found := GetCellIx(name, h);
      if !found {
        return false;
      }
      var t := cells[cell].ix;
      assert IndexOf(names, name) == t;
      MoveLastMap(names, values, t);
      RemoveAt(t, cell);
      return true;
    }

    /** `json_object_set_value`: fails on a missing name or value and on a
        value that already has a parent; replaces the value of a present
        name in place, without changing the count; otherwise inserts as
        `json_object_add` does, on a copy of the name. */
    method SetValue(name: Option<Bytes>, value: Option<V>, valueHasParent: bool) returns (ok: bool)
      requires Valid()
      modifies this
      ensures Valid()
      ensures ok <==> name.Some? && value.Some? && !valueHasParent
      ensures ok && name.value in old(names) ==>
        names == old(names) && values == old(values)[IndexOf(old(names), name.value) := value.value]
      ensures ok && name.value !in old(names) ==>
        names == old(names) + [name.value] && values == old(values) + [value.value]
      ensures !ok ==> names == old(names) && values == old(values)
      ensures Contents() == if ok then old(Contents())[name.value := value.value] else old(Contents())
    {
      if name.None? || value.None? || valueHasParent {
        return false;
      }
      var key := name.value;
      var h := hash(key);
      var cell, found := GetCellIx(key, h);
      NamesDistinct();
      if found {
        var ix := cells[cell].ix;
        assert IndexOf(names, key) == ix;
        ReplaceMap(names, values, ix, value.value);
        values := values[ix := value.value];
        return true;
      }
      if count >= itemCapacity {
        cell := GrowAndFind(key, h);
      }
      AppendMap(names, values, key, value.value);
      PutItem(key, value.value, h, cell);
      return true;
    }

    /** `json_object_clear`: drops every item and empties every cell; the
        capacity stays. */
    method Clear()
      requires Valid()
      modifies this
      ensures Valid() && cellCapacity == old(cellCapacity)
      ensures names == [] && values == [] && Contents() == map[]
    {
      names, values, hashes, cellIxs := [], [], [], [];
      count := 0;
      var ring := cells;
      var i := 0;
      while i < cellCapacity
        invariant i <= cellCapacity == |ring|
        invariant forall c :: 0 <= c < i ==> ring[c] == Empty
      {
        ring := ring[i := Empty];
        i := i + 1;
      }
      cells := ring;
    }
  }
}
