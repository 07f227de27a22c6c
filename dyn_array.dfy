/** The growable item buffer behind a JSON array (`JSON_Array`,
    `json_array_make`, `json_array_add`, `json_array_resize`,
    `json_array_remove`, `json_array_replace_value`,
    `json_array_append_value`, `json_array_clear`, `json_array_get_value`,
    `json_array_get_count`).

    The buffer is an array of slots whose length is parson's `capacity`; the
    first `count` slots hold the items and slots from `calloc` start empty.
    Items are generic here (`JSON_Value *` in parson); whether a value
    already has a parent is passed as a flag. */
module DynArray {
  import opened Wrappers

  const StartingCapacity: nat := 16

  /** `max_size(capacity * 2, starting_capacity)`: the capacity a full
      buffer grows to. */
  function GrownCapacity(capacity: nat): (r: nat)
    ensures r > capacity && r >= StartingCapacity
    ensures r == 2 * capacity || r == StartingCapacity
  {
    if capacity * 2 > StartingCapacity then capacity * 2 else StartingCapacity
  }

  /** The items in a run of filled slots. */
  function Held<V>(slots: seq<Option<V>>): (r: seq<V>)
    requires forall i :: 0 <= i < |slots| ==> slots[i].Some?
    ensures |r| == |slots| && forall i :: 0 <= i < |r| ==> slots[i] == Some(r[i])
  {
    if slots == [] then [] else Held(slots[..|slots| - 1]) + [slots[|slots| - 1].value]
  }

  /** The sequence `json_array_remove(ix)` leaves: the items before `ix`,
      then the items after it, each moved down one place. */
  function Without<V>(s: seq<V>, ix: nat): (r: seq<V>)
    requires ix < |s|
  {
    s[..ix] + s[ix + 1..]
  }

  /** Removal drops exactly the item at `ix` and keeps the others in their
      order: the one before `ix` stay put, the ones after move down one. */
  lemma WithoutKeepsOrder<V>(s: seq<V>, ix: nat)
    requires ix < |s|
    ensures |Without(s, ix)| == |s| - 1
    ensures forall k :: 0 <= k < ix ==> Without(s, ix)[k] == s[k]
    ensures forall k :: ix <= k < |s| - 1 ==> Without(s, ix)[k] == s[k + 1]
    ensures multiset(Without(s, ix)) == multiset(s) - multiset{s[ix]}
  {
    assert s == s[..ix] + [s[ix]] + s[ix + 1..];
  }

  /** The removal example: `[1,2,3,4,5]` without the item at 2 is
      `[1,2,4,5]`. */
  lemma RemoveMiddle()
    ensures Without([1, 2, 3, 4, 5], 2) == [1, 2, 4, 5]
  {
    assert [1, 2, 3, 4, 5][..2] == [1, 2];
    assert [1, 2, 3, 4, 5][3..] == [4, 5];
  }

  class ItemBuffer<V> {
    /** The slots; `items.Length` is the capacity. */
    var items: array<Option<V>>
    var count: nat

    ghost predicate Valid()
      reads this, items
    {
      count <= items.Length && forall i :: 0 <= i < count ==> items[i].Some?
    }

    /** The array's contents, in order. */
    ghost function Elements(): (r: seq<V>)
      reads this, items
      requires Valid()
      ensures |r| == count
    {
      Held(items[..count])
    }

    /** `json_array_make`: no buffer and no items. */
    constructor ()
      ensures Valid() && Elements() == [] && items.Length == 0
    {
      items := new Option<V>[0];
      count := 0;
    }

    /** `json_array_resize`: moves the items to a fresh buffer of
        `newCapacity` empty slots; a capacity of 0 is refused. The items must
        fit, as every caller in parson ensures. */
    method Resize(newCapacity: nat) returns (ok: bool)
      requires Valid() && count <= newCapacity
      modifies this
      ensures Valid() && Elements() == old(Elements()) && count == old(count)
      ensures ok <==> newCapacity != 0
      ensures ok ==> fresh(items) && items.Length == newCapacity
      ensures !ok ==> items == old(items)
    {
      if newCapacity == 0 {
        return false;
      }
      var slots := new Option<V>[newCapacity](_ => None);
      var src, n := items, count;
      var i := 0;
      while i < n
        invariant i <= n && items == src && count == n
        invariant forall j :: 0 <= j < i ==> slots[j] == src[j]
      {
        slots[i] := src[i];
        i := i + 1;
      }
      assert slots[..n] == src[..n];
      items := slots;
      ok := true;
    }

    /** `json_array_add`: appends, first growing a full buffer to
        `GrownCapacity`. Resizing to a non-zero capacity cannot fail, so
        neither can this. */
    method Add(value: V) returns (ok: bool)
      requires Valid()
      modifies this, items
      ensures Valid() && ok
      ensures Elements() == old(Elements()) + [value]
      ensures items.Length == if old(count) < old(items.Length) then old(items.Length) else GrownCapacity(old(items.Length))
    {
      if count >= items.Length {
        ok := Resize(GrownCapacity(items.Length));
      }
      ghost var before := items[..count];
      items[count] := Some(value);
      assert items[..count + 1] == before + [Some(value)];
      assert items[..count + 1][..count] == before;
      count := count + 1;
      ok := true;
    }

    /** `json_array_append_value`: refuses a missing value and one that
        already has a parent, and changes nothing then. */
    method AppendValue(value: Option<V>, hasParent: bool) returns (ok: bool)
      requires Valid()
      modifies this, items
      ensures Valid()
      ensures ok <==> value.Some? && !hasParent
      ensures ok ==> Elements() == old(Elements()) + [value.value]
      ensures !ok ==> unchanged(this) && unchanged(items)
    {
      if value.None? || hasParent {
        return false;
      }
      ok := Add(value.value);
    }

    /** `json_array_replace_value`: puts `value` in place of item `ix`;
        refuses a missing or owned value and an index past the end. */
    method ReplaceValue(ix: nat, value: Option<V>, hasParent: bool) returns (ok: bool)
      requires Valid()
      modifies items
      ensures Valid()
      ensures ok <==> value.Some? && !hasParent && ix < count
      ensures ok ==> Elements() == old(Elements())[ix := value.value]
      ensures !ok ==> unchanged(items)
    {
      if value.None? || hasParent || ix >= count {
        return false;
      }
      items[ix] := value;
      ok := true;
    }

    /** `json_array_remove`: refuses an index past the end; otherwise moves
        the items after `ix` down one slot (the `memmove`) and drops the
        last. */
    method Remove(ix: nat) returns (ok: bool)
      requires Valid()
      modifies this, items
      ensures Valid() && items == old(items)
      ensures ok <==> ix < old(count)
      ensures ok ==> Elements() == Without(old(Elements()), ix)
      ensures !ok ==> unchanged(this) && unchanged(items)
    {
      if ix >= count {
        return false;
      }
      ghost var before := Elements();
      var j := ix;
      while j < count - 1
        invariant items == old(items) && count == old(count)
        invariant ix <= j <= count - 1
        invariant forall k :: 0 <= k < ix ==> items[k] == Some(before[k])
        invariant forall k :: ix <= k < j ==> items[k] == Some(before[k + 1])
        invariant forall k :: j <= k < count ==> items[k] == Some(before[k])
      {
        items[j] := items[j + 1];
        j := j + 1;
      }
      count := count - 1;
      assert forall k :: 0 <= k < count ==> items[k] == Some(Without(before, ix)[k]);
      assert Elements() == Without(before, ix);
      ok := true;
    }

    /** `json_array_clear`: no items left; the buffer is kept. */
    method Clear()
      requires Valid()
      modifies this
      ensures Valid() && Elements() == [] && items == old(items)
    {
      count := 0;
    }

    /** `json_array_get_value`: the item at `ix`, or nothing past the
        end. */
    method GetValue(ix: nat) returns (r: Option<V>)
      requires Valid()
      ensures r == if ix < |Elements()| then Some(Elements()[ix]) else None
    {
      if ix >= count {
        return None;
      }
      r := items[ix];
    }

    /** `json_array_get_count`. */
    method GetCount() returns (n: nat)
      requires Valid()
      ensures n == |Elements()|
    {
      n := count;
    }
  }
}
