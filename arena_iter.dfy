/**
 * The arena's borrowing iterator: a scan over the slots from position `curr`
 * that skips free slots and yields each occupied one as (handle, value).
 */
module ArenaIter {
  import opened Wrappers
  import opened Arena

  /** `OccupiedItems` of a prefix is a prefix of `OccupiedItems` of the whole. */
  lemma {:induction false} OccupiedItemsOfPrefix<T>(entries: seq<Entry<T>>, i: nat)
    requires i <= |entries|
    ensures OccupiedItems(entries[..i]) <= OccupiedItems(entries)
    decreases |entries| - i
  {
    if i < |entries| {
      OccupiedItemsPrefix(entries, i);
      OccupiedItemsOfPrefix(entries, i + 1);
    } else {
      assert entries[..i] == entries;
    }
  }

  /** Subtraction that stops at zero, as `usize::saturating_sub`. */
  function SaturatingSub(a: nat, b: nat): nat
  {
    if a < b then 0 else a - b
  }

  class Iter<T> {
    /** The borrowed slots: the arena cannot change while the iterator lives. */
    const entries: seq<Entry<T>>
    /** The arena's `length` when the iterator was made. */
    const totLength: nat
    var seen: nat
    var curr: nat

    /** The items yielded so far: the occupied slots before `curr`. */
    ghost function Yielded(): seq<(Index, T)>
      reads this
      requires curr <= |entries|
    {
      OccupiedItems(entries[..curr])
    }

    ghost predicate Valid()
      reads this
    {
      && curr <= |entries|
      && seen == |Yielded()|
      && totLength == CountOccupied(entries)
    }

    /** `GenArena::iter`: starts before the first slot, with nothing seen. */
    constructor (arena: GenArena<T>)
      requires arena.Valid()
      ensures Valid()
      ensures entries == arena.entries && totLength == arena.length
      ensures curr == 0 && seen == 0
    {
      entries := arena.entries;
      totLength := arena.length;
      seen := 0;
      curr := 0;
      new;
      assert entries[..0] == [];
    }

    /**
     * `Iterator::next`: advances `curr` past free slots and past the first occupied
     * slot it meets, yielding that slot; returns None once the slots are exhausted.
     * The yielded items are exactly the arena's occupied slots, in increasing position.
     */
    method Next() returns (r: Option<(Index, T)>)
      requires Valid()
      modifies this
      ensures Valid()
      ensures old(curr) <= curr
      ensures r.None? ==>
                && curr == |entries| && seen == old(seen)
                && Yielded() == old(Yielded()) == OccupiedItems(entries)
      ensures r.Some? ==>
                && Yielded() == old(Yielded()) + [r.value]
                && seen == old(seen) + 1
                && old(curr) <= r.value.0.index && curr == r.value.0.index + 1
                && entries[r.value.0.index] == Occupied(r.value.0.generation, r.value.1)
      ensures forall j :: old(curr) <= j < (if r.Some? then r.value.0.index else |entries|) ==> entries[j].Free?
    {
      var i := curr;
      while i < |entries|
        invariant old(curr) <= i <= |entries| && curr == i
        invariant seen == old(seen)
        invariant OccupiedItems(entries[..i]) == old(Yielded())
        invariant forall j :: old(curr) <= j < i ==> entries[j].Free?
        decreases |entries| - i
      {
        curr := curr + 1;
        OccupiedItemsPrefix(entries, i);
        match entries[i]
        case Occupied(g, v) =>
          seen := seen + 1;
          return Some((Index(i, g), v));
        case Free(_, _) =>
        i := i + 1;
      }
      assert entries[..i] == entries;
      return None;
    }

    /**
     * `size_hint`: `tot_length` minus `seen`, saturating. On a valid iterator this is
     * exactly the number of items still to come, so both bounds are tight.
     */
    function SizeHint(): (hint: (nat, Option<nat>))
      reads this
      requires Valid()
      ensures hint.1 == Some(hint.0)
      ensures |Yielded()| + hint.0 == |OccupiedItems(entries)|
    {
      OccupiedItemsOfPrefix(entries, curr);
      OccupiedItemsSpec(entries);
      var remaining := SaturatingSub(totLength, seen);
      (remaining, Some(remaining))
    }

    /**
     * `ExactSizeIterator::len`: the arena's length at creation, that is the number of
     * items of the whole iteration, not of what remains.
     */
    function Len(): (n: nat)
      reads this
      requires Valid()
      ensures n == |OccupiedItems(entries)|
      ensures n == |Yielded()| + SizeHint().0
    {
      OccupiedItemsSpec(entries);
      totLength
    }
  }

  /** Rewriting one slot of a prefix with another occupied entry keeps the prefix's count. */
  lemma CountPrefixAfterFill<T>(entries: seq<Entry<T>>, i: nat, n: nat, x: Entry<T>)
    requires i < n <= |entries| && entries[i].Occupied? && x.Occupied?
    ensures CountOccupied(entries[i := x][..n]) == CountOccupied(entries[..n])
  {
    assert entries[i := x][..n] == entries[..n][i := x];
    CountUpdate(entries[..n], i, x);
  }

  /** A prefix counts no more occupied slots than the whole. */
  lemma CountPrefixBound<T>(entries: seq<Entry<T>>, n: nat)
    requires n <= |entries|
    ensures CountOccupied(entries[..n]) <= CountOccupied(entries)
  {
    assert entries == entries[..n] + entries[n..];
    CountAppend(entries[..n], entries[n..]);
  }

  /**
   * The scanning loop of `IterMut::next`: the first occupied slot at or after `from`,
   * or the end of the slots; the free slots skipped add nothing to the count.
   */
  method SkipFree<T>(entries: seq<Entry<T>>, from: nat) returns (i: nat)
    requires from <= |entries|
    ensures from <= i <= |entries|
    ensures forall j :: from <= j < i ==> entries[j].Free?
    ensures i < |entries| ==> entries[i].Occupied?
    ensures CountOccupied(entries[..i]) == CountOccupied(entries[..from])
  {
    i := from;
    while i < |entries| && entries[i].Free?
      invariant from <= i <= |entries|
      invariant CountOccupied(entries[..i]) == CountOccupied(entries[..from])
      invariant forall j :: from <= j < i ==> entries[j].Free?
      decreases |entries| - i
    {
      assert entries[..i + 1][..i] == entries[..i];
      i := i + 1;
    }
  }

  /**
   * The arena's mutable iterator: the same scan over the arena's own slots; the
   * caller's write through each yielded `&mut` is `update`.
   */
  class IterMut<T> {
    const arena: GenArena<T>
    /** The arena's `length` when the iterator was made. */
    const totLength: nat
    var seen: nat
    var curr: nat

    ghost predicate Valid()
      reads this, arena
    {
      && arena.Valid()
      && curr <= |arena.entries|
      && seen == CountOccupied(arena.entries[..curr])
      && totLength == arena.length
    }

    /** `GenArena::iter_mut`: starts before the first slot, with nothing seen. */
    constructor (arena: GenArena<T>)
      requires arena.Valid()
      ensures Valid()
      ensures this.arena == arena && totLength == arena.length
      ensures curr == 0 && seen == 0
    {
      this.arena := arena;
      totLength := arena.length;
      seen := 0;
      curr := 0;
      new;
      assert arena.entries[..0] == [];
    }

    /**
     * `Iterator::next`: skips free slots from `curr`, and at the first occupied slot
     * yields its handle and the value the caller's write leaves there. `curr` moves past
     * the yielded slot, so no slot is yielded twice; None once the slots are exhausted.
     */
    method Next(update: T -> T) returns (r: Option<(Index, T)>)
      requires Valid()
      modifies this, arena
      ensures Valid()
      ensures old(curr) <= curr
      ensures r.None? ==> curr == |arena.entries| && seen == old(seen) && arena.entries == old(arena.entries)
      ensures r.Some? ==>
                var i := r.value.0.index;
                && old(curr) <= i < |old(arena.entries)| && curr == i + 1 && seen == old(seen) + 1
                && old(arena.entries)[i].Occupied? && r.value.0.generation == old(arena.entries)[i].generation
                && r.value.1 == update(old(arena.entries)[i].value)
                && arena.entries == old(arena.entries)[i := Occupied(r.value.0.generation, r.value.1)]
      ensures forall j :: old(curr) <= j < (if r.Some? then r.value.0.index else |arena.entries|) ==> arena.entries[j].Free?
      ensures arena.nextFree == old(arena.nextFree) && arena.length == old(arena.length)
    {
      var entries := arena.entries;
      var i := SkipFree(entries, curr);
      if i == |entries| {
        curr := i;
        assert entries[..i] == entries;
        return None;
      }
      r := YieldAt(i, update);
    }

    /** The occupied-slot case of `next`: slot `i` is the first occupied one from `curr`. */
    method YieldAt(i: nat, update: T -> T) returns (r: Option<(Index, T)>)
      requires Valid()
      requires curr <= i < |arena.entries| && arena.entries[i].Occupied?
      requires CountOccupied(arena.entries[..i]) == seen
      modifies this, arena
      ensures Valid()
      ensures r.Some? && r.value.0.index == i && curr == i + 1 && seen == old(seen) + 1
      ensures r.value.0.generation == old(arena.entries)[i].generation
      ensures r.value.1 == update(old(arena.entries)[i].value)
      ensures arena.entries == old(arena.entries)[i := Occupied(r.value.0.generation, r.value.1)]
      ensures arena.nextFree == old(arena.nextFree) && arena.length == old(arena.length)
    {
      ghost var entries := arena.entries;
      assert entries[..i + 1][..i] == entries[..i];
      var v := arena.entries[i].value;
      var g := arena.GetRawMut(i, update);
      CountPrefixAfterFill(entries, i, i + 1, arena.entries[i]);
      curr := i + 1;
      seen := seen + 1;
      r := Some((Index(i, g.value), update(v)));
    }

    /** `size_hint`: `tot_length` minus `seen`, saturating: the occupied slots from `curr` on. */
    function SizeHint(): (hint: (nat, Option<nat>))
      reads this, arena
      requires Valid()
      ensures hint.1 == Some(hint.0)
      ensures seen + hint.0 == CountOccupied(arena.entries)
    {
      CountPrefixBound(arena.entries, curr);
      var remaining := SaturatingSub(totLength, seen);
      (remaining, Some(remaining))
    }

    /** `ExactSizeIterator::len`: the arena's length at creation, not what remains. */
    function Len(): (n: nat)
      reads this, arena
      requires Valid()
      ensures n == CountOccupied(arena.entries) && n == seen + SizeHint().0
    {
      totLength
    }
  }

  /**
   * Draining an iterator made from a valid arena yields exactly the arena's occupied
   * slots with their live handles, by strictly increasing position, and as many as
   * the arena's `len`.
   */
  method Drain<T>(arena: GenArena<T>) returns (items: seq<(Index, T)>)
    requires arena.Valid()
    ensures items == OccupiedItems(arena.entries)
    ensures |items| == arena.Len()
  {
    var it := new Iter(arena);
    items := [];
    var r := it.Next();
    while r.Some?
      invariant it.Valid() && it.entries == arena.entries
      invariant r.None? ==> it.Yielded() == items == OccupiedItems(it.entries)
      invariant r.Some? ==> it.Yielded() == items + [r.value]
      decreases |it.entries| - it.curr, r.Some?
    {
      items := items + [r.value];
      r := it.Next();
    }
    OccupiedItemsSpec(arena.entries);
  }
}
