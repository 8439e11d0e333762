/**
 * Component queries over an entity list: a tuple of component types becomes a
 * bitset expression (one bitset per type, AND-ed along a left/right split of the
 * tuple), whose set indices are visited in increasing order and resolved against
 * the arena with their live generation.
 */
module Queries {
  import opened Wrappers
  import opened Arena
  import opened ArenaIter
  import opened Entities
  import opened Pooled
  import opened EntityLists

  /** The largest tuple of component types a query accepts. */
  const MaxArity: nat := 16

  /**
   * A bitset expression: every index (`BitSetAll`), one registered bitset, or the
   * intersection of two expressions (`BitSetAnd`).
   */
  datatype BitSetLike = All | Bits(s: set<nat>) | And(l: BitSetLike, r: BitSetLike)

  /** `BitSetLike::contains`. */
  predicate Contains(b: BitSetLike, i: nat)
  {
    match b
    case All => true
    case Bits(s) => i in s
    case And(l, r) => Contains(l, i) && Contains(r, i)
  }

  /** Whether the expression holds finitely many indices: some registered bitset bounds it. */
  predicate Bounded(b: BitSetLike)
  {
    match b
    case All => false
    case Bits(_) => true
    case And(l, r) => Bounded(l) || Bounded(r)
  }

  /** The indices a bounded expression holds. */
  function Members(b: BitSetLike): (m: set<nat>)
    requires Bounded(b)
    ensures forall i: nat :: i in m <==> Contains(b, i)
  {
    match b
    case Bits(s) => s
    case And(l, r) =>
      if Bounded(l) then set i | i in Members(l) && Contains(r, i)
      else set i | i in Members(r) && Contains(l, i)
  }

  /** Where a tuple of `n >= 2` types splits into its left and right parts. */
  function SplitPoint(n: nat): (m: nat)
    requires n >= 2
    ensures 1 <= m < n
  {
    n / 2
  }

  /**
   * `MultiComponent::bitset`: `()` gives `BitSetAll`; `(C,)` gives C's registered
   * bitset, and None where the source panics because C has none; a longer tuple
   * gives the AND of its two parts. The expression holds exactly the indices in the
   * bitset of every listed type, and it is bounded unless the tuple is empty.
   */
  function Bitset(kinds: seq<Kind>, bitsets: map<Kind, set<nat>>): (r: Option<BitSetLike>)
    requires |kinds| <= MaxArity
    ensures r.None? <==> exists k :: k in kinds && k !in bitsets
    ensures r.Some? ==> forall i: nat :: Contains(r.value, i) <==> forall k :: k in kinds ==> i in bitsets[k]
    ensures r.Some? && kinds != [] ==> Bounded(r.value)
    ensures kinds == [] ==> r == Some(All)
    decreases |kinds|
  {
    if |kinds| == 0 then Some(All)
    else if |kinds| == 1 then
      if kinds[0] in bitsets then Some(Bits(bitsets[kinds[0]])) else None
    else
      var m := SplitPoint(|kinds|);
      assert kinds == kinds[..m] + kinds[m..];
      var l := Bitset(kinds[..m], bitsets);
      var r := Bitset(kinds[m..], bitsets);
      if l.Some? && r.Some? then Some(And(l.value, r.value)) else None
  }

  /**
   * The split point does not matter: splitting the tuple anywhere and AND-ing the
   * parts selects the same indices as the tuple's own expression.
   */
  lemma BitsetSplitIndependent(kinds: seq<Kind>, bitsets: map<Kind, set<nat>>, m: nat, i: nat)
    requires 1 <= m < |kinds| <= MaxArity
    requires forall k :: k in kinds ==> k in bitsets
    ensures Bitset(kinds[..m], bitsets).Some? && Bitset(kinds[m..], bitsets).Some? && Bitset(kinds, bitsets).Some?
    ensures Contains(And(Bitset(kinds[..m], bitsets).value, Bitset(kinds[m..], bitsets).value), i)
            <==> Contains(Bitset(kinds, bitsets).value, i)
  {
    assert kinds == kinds[..m] + kinds[m..];
  }

  // ---------------------------------------------------------------------------
  // What a query yields
  // ---------------------------------------------------------------------------

  /** The smallest element of a non-empty set of indices: the next bit a `BitIter` reports. */
  function MinOf(s: set<nat>): (m: nat)
    requires s != {}
    ensures m in s && forall x :: x in s ==> m <= x
  {
    assert exists m :: m in s && forall x :: x in s ==> m <= x by {
      var x :| x in s;
      MinExists(s, x);
    }
    var m :| m in s && forall x :: x in s ==> m <= x;
    m
  }

  /** A set of indices holding `x` has a least element: descend while a smaller one exists. */
  lemma {:induction false} MinExists(s: set<nat>, x: nat)
    requires x in s
    ensures exists m :: m in s && forall y :: y in s ==> m <= y
    decreases x
  {
    if y :| y in s && y < x {
      MinExists(s, y);
    } else {
      assert forall y :: y in s ==> x <= y;
    }
  }

  /** The occupied slots whose position is in `selected`, in increasing position, with handles. */
  function QueryItems<T>(entries: seq<Entry<T>>, selected: set<nat>): seq<(Index, T)>
  {
    if entries == [] then []
    else QueryItems(entries[..|entries| - 1], selected) +
         (if |entries| - 1 in selected then ItemAt(entries, |entries| - 1) else [])
  }

  lemma QueryItemsPrefix<T>(entries: seq<Entry<T>>, selected: set<nat>, i: nat)
    requires i < |entries|
    ensures QueryItems(entries[..i + 1], selected) ==
              QueryItems(entries[..i], selected) + (if i in selected then ItemAt(entries, i) else [])
  {
    assert entries[..i + 1][..i] == entries[..i];
  }

  /** Slots outside the selection between `a` and `b` contribute nothing. */
  lemma {:induction false} QueryItemsSkip<T>(entries: seq<Entry<T>>, selected: set<nat>, a: nat, b: nat)
    requires a <= b <= |entries|
    requires forall j :: a <= j < b ==> j !in selected
    ensures QueryItems(entries[..b], selected) == QueryItems(entries[..a], selected)
    decreases b - a
  {
    if a < b {
      QueryItemsPrefix(entries, selected, b - 1);
      QueryItemsSkip(entries, selected, a, b - 1);
    }
  }

  /** Each item of a query is an occupied selected slot with its live handle and value. */
  lemma {:induction false} QueryItemsSound<T>(entries: seq<Entry<T>>, selected: set<nat>)
    ensures forall n :: 0 <= n < |QueryItems(entries, selected)| ==>
              var it := QueryItems(entries, selected)[n];
              && it.0.index in selected && it.0.index < |entries|
              && entries[it.0.index] == Occupied(it.0.generation, it.1)
  {
    if entries != [] {
      var last := |entries| - 1;
      var pre := entries[..last];
      QueryItemsSound(pre, selected);
      var items := QueryItems(entries, selected);
      var p := QueryItems(pre, selected);
      assert items == p + (if last in selected then ItemAt(entries, last) else []);
      forall n | 0 <= n < |items|
        ensures items[n].0.index in selected && items[n].0.index < |entries|
        ensures entries[items[n].0.index] == Occupied(items[n].0.generation, items[n].1)
      {
        if n < |p| {
          assert items[n] == p[n];
          assert pre[items[n].0.index] == entries[items[n].0.index];
        }
      }
    }
  }

  /** A query visits slots by strictly increasing position. */
  lemma {:induction false} QueryItemsSorted<T>(entries: seq<Entry<T>>, selected: set<nat>)
    ensures forall n, m :: 0 <= n < m < |QueryItems(entries, selected)| ==>
              QueryItems(entries, selected)[n].0.index < QueryItems(entries, selected)[m].0.index
  {
    if entries != [] {
      var last := |entries| - 1;
      var pre := entries[..last];
      QueryItemsSorted(pre, selected);
      QueryItemsSound(pre, selected);
      var items := QueryItems(entries, selected);
      var p := QueryItems(pre, selected);
      assert items == p + (if last in selected then ItemAt(entries, last) else []);
      forall n, m | 0 <= n < m < |items|
        ensures items[n].0.index < items[m].0.index
      {
        assert items[n] == p[n];
        if m < |p| {
          assert items[m] == p[m];
        } else {
          assert items[m].0.index == last;
        }
      }
    }
  }

  /** Every occupied selected slot is visited by the query. */
  lemma {:induction false} QueryItemsComplete<T>(entries: seq<Entry<T>>, selected: set<nat>)
    ensures forall i :: 0 <= i < |entries| && entries[i].Occupied? && i in selected ==>
              Visits(QueryItems(entries, selected), i)
  {
    if entries != [] {
      var last := |entries| - 1;
      var pre := entries[..last];
      QueryItemsComplete(pre, selected);
      var items := QueryItems(entries, selected);
      var p := QueryItems(pre, selected);
      assert items == p + (if last in selected then ItemAt(entries, last) else []);
      forall i | 0 <= i < |entries| && entries[i].Occupied? && i in selected
        ensures Visits(items, i)
      {
        if i < last {
          assert pre[i].Occupied?;
          var n :| 0 <= n < |p| && p[n].0.index == i;
          assert items[n] == p[n];
        } else {
          assert items[|items| - 1].0.index == i;
        }
      }
    }
  }

  /**
   * The query's items are occupied selected slots with their live handles, by
   * strictly increasing position, and every occupied selected slot is among them.
   */
  lemma QueryItemsSpec<T>(entries: seq<Entry<T>>, selected: set<nat>)
    ensures forall n :: 0 <= n < |QueryItems(entries, selected)| ==>
              var it := QueryItems(entries, selected)[n];
              && it.0.index in selected && it.0.index < |entries|
              && entries[it.0.index] == Occupied(it.0.generation, it.1)
    ensures forall n, m :: 0 <= n < m < |QueryItems(entries, selected)| ==>
              QueryItems(entries, selected)[n].0.index < QueryItems(entries, selected)[m].0.index
    ensures forall i :: 0 <= i < |entries| && entries[i].Occupied? && i in selected ==>
              exists n :: 0 <= n < |QueryItems(entries, selected)| && QueryItems(entries, selected)[n].0.index == i
  {
    QueryItemsSound(entries, selected);
    QueryItemsSorted(entries, selected);
    QueryItemsComplete(entries, selected);
  }

  /** Selecting every occupied slot yields exactly the arena's own iteration (`iter_all`). */
  lemma {:induction false} QueryItemsOfAll<T>(entries: seq<Entry<T>>, selected: set<nat>)
    requires forall i :: 0 <= i < |entries| && entries[i].Occupied? ==> i in selected
    ensures QueryItems(entries, selected) == OccupiedItems(entries)
  {
    if entries != [] {
      var last := |entries| - 1;
      QueryItemsOfAll(entries[..last], selected);
    }
  }

  /** The slots a query over `kinds` should visit: occupied, holding every listed type. */
  function Selected<P>(entries: Slots<P>, kinds: seq<Kind>): (s: set<nat>)
    ensures forall i: nat :: i in s <==> i < |entries| && entries[i].Occupied? && forall k :: k in kinds ==> HasAt(entries, i, k)
  {
    set i | 0 <= i < |entries| && entries[i].Occupied? && forall k :: k in kinds ==> HasAt(entries, i, k)
  }

  /** The occupied slots. */
  function OccupiedSet<T>(entries: seq<Entry<T>>): (s: set<nat>)
    ensures forall i: nat :: i in s <==> i < |entries| && entries[i].Occupied?
  {
    set i | 0 <= i < |entries| && entries[i].Occupied?
  }

  // ---------------------------------------------------------------------------
  // The unit query
  // ---------------------------------------------------------------------------

  /**
   * `()` selects `BitSetAll`, which holds the first position past the slots, where
   * `get_raw` finds nothing: draining `iter::<()>` always reaches the FATAL panic.
   */
  lemma UnitQueryHitsFatal<T>(entries: seq<Entry<T>>, bitsets: map<Kind, set<nat>>)
    ensures Bitset([], bitsets) == Some(All)
    ensures exists i: nat :: Contains(Bitset([], bitsets).value, i) && !(i < |entries| && entries[i].Occupied?)
  {
    assert Contains(All, |entries|);
  }

  /**
   * The selection a query visits, with the unit query corrected to the occupied
   * slots (what `iter_all` visits) instead of every index. None where `bitset`
   * panics for a type without a bitset.
   */
  function Selection<T>(kinds: seq<Kind>, bitsets: map<Kind, set<nat>>, entries: seq<Entry<T>>): (r: Option<set<nat>>)
    requires |kinds| <= MaxArity
    ensures r.None? <==> exists k :: k in kinds && k !in bitsets
    ensures kinds == [] ==> r == Some(OccupiedSet(entries))
    ensures kinds != [] && r.Some? ==> forall i: nat :: i in r.value <==> forall k :: k in kinds ==> i in bitsets[k]
  {
    if kinds == [] then Some(OccupiedSet(entries))
    else
      match Bitset(kinds, bitsets)
      case None => None
      case Some(b) => Some(Members(b))
  }

  /**
   * With synchronised bitsets the selection is exactly the occupied slots holding
   * every listed type; in particular every selected slot is occupied, so the FATAL
   * panic cannot happen.
   */
  lemma SelectionUnderSync<P>(kinds: seq<Kind>, bitsets: map<Kind, set<nat>>, entries: Slots<P>)
    requires |kinds| <= MaxArity
    requires forall k: Kind :: k in bitsets && bitsets[k] == Presence(entries, k)
    ensures Selection(kinds, bitsets, entries) == Some(Selected(entries, kinds))
  {
    var s := Selection(kinds, bitsets, entries).value;
    forall i: nat
      ensures i in s <==> i in Selected(entries, kinds)
    {
      if kinds != [] && i in s {
        assert kinds[0] in kinds;
        assert HasAt(entries, i, kinds[0]);
      }
    }
    assert s == Selected(entries, kinds);
  }

  // ---------------------------------------------------------------------------
  // The iterators
  // ---------------------------------------------------------------------------

  /** `MultiComponentIter`: a bit iterator over the selection, resolved against the borrowed slots. */
  class MultiComponentIter<T> {
    /** The borrowed slots: the arena cannot change while the iterator lives. */
    const entries: seq<Entry<T>>
    /** The indices the bitset expression holds. */
    const selected: set<nat>
    /** Every selected index below `pos` has been reported by the bit iterator. */
    var pos: nat

    /** Every selected slot is occupied: the synchronisation the FATAL check relies on. */
    ghost predicate Valid()
      reads this
    {
      forall i :: i in selected ==> i < |entries| && entries[i].Occupied?
    }

    /** The selected indices the bit iterator has still to report. */
    function Pending(): set<nat>
      reads this
    {
      set i | i in selected && i >= pos
    }

    /** The items yielded so far: the selected occupied slots before `pos`. */
    ghost function Yielded(): seq<(Index, T)>
      reads this
    {
      QueryItems(entries[..if pos <= |entries| then pos else |entries|], selected)
    }

    /** `MultiComponentIter::new` over `selected`, which must hold only occupied slots. */
    constructor (arena: GenArena<T>, selected: set<nat>)
      requires forall i :: i in selected ==> i < |arena.entries| && arena.entries[i].Occupied?
      ensures Valid()
      ensures this.entries == arena.entries && this.selected == selected && pos == 0
      ensures Yielded() == []
    {
      entries := arena.entries;
      this.selected := selected;
      pos := 0;
      new;
      assert entries[..0] == [];
    }

    /**
     * `Iterator::next`: takes the smallest selected index not yet reported and pairs
     * it with its slot's live generation and value; None once the selection is used up.
     */
    method Next() returns (r: Option<(Index, T)>)
      requires Valid()
      modifies this
      ensures Valid()
      ensures r.None? <==> old(Pending()) == {}
      ensures r.None? ==> pos == old(pos)
      ensures r.Some? ==> old(pos) <= r.value.0.index < |entries|
      ensures r.None? ==> Yielded() == old(Yielded()) == QueryItems(entries, selected)
      ensures r.Some? ==>
                var i := r.value.0.index;
                && i in old(Pending()) && (forall j :: j in old(Pending()) ==> i <= j)
                && Live(entries, r.value.0) && entries[i] == Occupied(r.value.0.generation, r.value.1)
                && pos == i + 1
                && Yielded() == old(Yielded()) + [r.value]
    {
      var pending := set i | i in selected && i >= pos;
      if pending == {} {
        var cut := if pos <= |entries| then pos else |entries|;
        forall j | cut <= j < |entries| && j in selected
          ensures j in pending
        {
        }
        QueryItemsSkip(entries, selected, cut, |entries|);
        assert entries[..|entries|] == entries;
        return None;
      }
      var i := MinOf(pending);
      // `get_raw(i).expect(FATAL_ERR)`: the slot is occupied, so the panic cannot fire.
      var g := entries[i].generation;
      var v := entries[i].value;
      forall j | pos <= j < i && j in selected
        ensures j in pending
      {
      }
      QueryItemsSkip(entries, selected, pos, i);
      QueryItemsPrefix(entries, selected, i);
      pos := i + 1;
      r := Some((Index(i, g), v));
    }
  }

  /**
   * Draining a query iterator yields exactly the selected occupied slots, by
   * increasing position, with their live handles.
   */
  method DrainQuery<T>(it: MultiComponentIter<T>) returns (items: seq<(Index, T)>)
    requires it.Valid() && it.pos == 0
    modifies it
    ensures items == QueryItems(it.entries, it.selected)
  {
    assert it.Yielded() == [] by { assert it.entries[..0] == []; }
    items := [];
    var r := it.Next();
    while r.Some?
      invariant it.Valid()
      invariant r.None? ==> items == it.Yielded() == QueryItems(it.entries, it.selected)
      invariant r.Some? ==> it.Yielded() == items + [r.value] && it.pos <= |it.entries|
      decreases |it.entries| - it.pos, r.Some?
    {
      items := items + [r.value];
      r := it.Next();
    }
  }

  /**
   * `MultiComponentIterMut`: the same scan over the arena itself; the caller's write
   * through each yielded `&mut` is `update`. `last` is the debug-build field `n`.
   */
  class MultiComponentIterMut<T> {
    const arena: GenArena<T>
    const selected: set<nat>
    var pos: nat
    /** The last index yielded (`n`), checked to grow strictly. */
    var last: Option<nat>
    /** Every index yielded so far, in order. */
    ghost var yielded: seq<nat>

    ghost predicate Valid()
      reads this, arena
    {
      && arena.Valid()
      && (forall i :: i in selected ==> i < |arena.entries| && arena.entries[i].Occupied?)
      && (forall n, m :: 0 <= n < m < |yielded| ==> yielded[n] < yielded[m])
      && (forall n :: 0 <= n < |yielded| ==> yielded[n] < pos)
      && last == (if yielded == [] then None else Some(yielded[|yielded| - 1]))
      && (last.Some? ==> last.value + 1 == pos)
    }

    function Pending(): set<nat>
      reads this
    {
      set i | i in selected && i >= pos
    }

    /** `MultiComponentIterMut::new`: nothing yielded and `n` unset. */
    constructor (arena: GenArena<T>, selected: set<nat>)
      requires arena.Valid()
      requires forall i :: i in selected ==> i < |arena.entries| && arena.entries[i].Occupied?
      ensures Valid()
      ensures this.arena == arena && this.selected == selected
      ensures pos == 0 && last == None && yielded == []
    {
      this.arena := arena;
      this.selected := selected;
      pos := 0;
      last := None;
      yielded := [];
    }

    /**
     * `Iterator::next`: yields the smallest selected index not yet reported, with its
     * live generation, after the caller's write `update`; the debug check that the
     * index is strictly above the previous one holds, so no slot is yielded twice.
     */
    method Next(update: T -> T) returns (r: Option<(Index, T)>)
      requires Valid()
      modifies this, arena
      ensures Valid()
      ensures r.None? <==> old(Pending()) == {}
      ensures r.None? ==> arena.entries == old(arena.entries) && yielded == old(yielded)
      ensures r.Some? ==>
                var i := r.value.0.index;
                && i in old(Pending()) && (forall j :: j in old(Pending()) ==> i <= j)
                && old(arena.entries[i]).Occupied? && r.value.0.generation == old(arena.entries[i].generation)
                && r.value.1 == update(old(arena.entries[i].value))
                && arena.entries == old(arena.entries)[i := Occupied(r.value.0.generation, r.value.1)]
                && yielded == old(yielded) + [i]
                && (old(last).None? || old(last).value < i)
      ensures arena.nextFree == old(arena.nextFree) && arena.length == old(arena.length)
    {
      var pending := set i | i in selected && i >= pos;
      if pending == {} {
        return None;
      }
      var i := MinOf(pending);
      var current := arena.entries[i].value;
      // `get_raw_mut(i).expect(FATAL_ERR)`: the slot is occupied, so the panic cannot fire.
      var g := arena.GetRawMut(i, update);
      assert g.Some?;
      // The source's `debug_assert!(old_n < index)`.
      assert last.None? || last.value < i;
      last := Some(i);
      yielded := yielded + [i];
      pos := i + 1;
      r := Some((Index(i, g.value), update(current)));
    }
  }

  // ---------------------------------------------------------------------------
  // `EntityList::iter` and `iter_all`
  // ---------------------------------------------------------------------------

  /**
   * Every index the query's selection holds is an occupied slot. Where this fails the
   * source's `next` reaches `FATAL_ERR`: a bit left set on a freed slot, which `remove`
   * leaves behind when the list was stale there.
   */
  ghost predicate SelectsOccupied<T>(kinds: seq<Kind>, bitsets: map<Kind, set<nat>>, entries: seq<Entry<T>>)
    requires |kinds| <= MaxArity
  {
    && Selection(kinds, bitsets, entries).Some?
    && forall i :: i in Selection(kinds, bitsets, entries).value ==> i < |entries| && entries[i].Occupied?
  }

  /** With synchronised bitsets no query can reach the FATAL panic. */
  lemma SyncedSelectsOccupied<P>(kinds: seq<Kind>, bitsets: map<Kind, set<nat>>, entries: Slots<P>)
    requires |kinds| <= MaxArity
    requires forall k: Kind :: k in bitsets && bitsets[k] == Presence(entries, k)
    ensures SelectsOccupied(kinds, bitsets, entries)
  {
    SelectionUnderSync(kinds, bitsets, entries);
  }

  /**
   * `EntityList::iter::<kinds>()`: an iterator over the slots whose bits are set in
   * every listed type's bitset (the occupied slots for the unit query, corrected).
   * The bitsets are used as they stand, so after an edit through `get_mut` without
   * `refresh` the query still follows the stale bit; on a synchronised list it visits
   * exactly the entities holding every listed type.
   */
  method Iter<P>(list: EntityList<P>, kinds: seq<Kind>) returns (it: MultiComponentIter<EntityRef<P>>)
    requires list.Sound() && |kinds| <= MaxArity
    requires SelectsOccupied(kinds, list.bitsets, list.entities.entries)
    ensures fresh(it) && it.Valid() && it.pos == 0
    ensures it.entries == list.entities.entries
    ensures it.selected == Selection(kinds, list.bitsets, list.entities.entries).value
    ensures list.Synced() ==> it.selected == Selected(list.entities.entries, kinds)
  {
    if list.Synced() {
      SelectionUnderSync(kinds, list.bitsets, list.entities.entries);
    }
    var selection := Selection(kinds, list.bitsets, list.entities.entries);
    it := new MultiComponentIter(list.entities, selection.value);
  }

  /**
   * `EntityList::iter_mut::<kinds>()`: the mutable iterator over the same slots as
   * `Iter`, borrowing the arena itself so that each yielded entity can be written.
   */
  method IterMutOf<P>(list: EntityList<P>, kinds: seq<Kind>) returns (it: MultiComponentIterMut<EntityRef<P>>)
    requires list.Sound() && |kinds| <= MaxArity
    requires SelectsOccupied(kinds, list.bitsets, list.entities.entries)
    ensures fresh(it) && it.Valid() && it.pos == 0 && it.last == None
    ensures it.arena == list.entities
    ensures it.selected == Selection(kinds, list.bitsets, list.entities.entries).value
    ensures list.Synced() ==> it.selected == Selected(list.entities.entries, kinds)
  {
    if list.Synced() {
      SelectionUnderSync(kinds, list.bitsets, list.entities.entries);
    }
    var selection := Selection(kinds, list.bitsets, list.entities.entries);
    it := new MultiComponentIterMut(list.entities, selection.value);
  }

  /** `iter_all`: the arena's own iterator. */
  method IterAll<P>(list: EntityList<P>) returns (it: ArenaIter.Iter<EntityRef<P>>)
    requires list.Sound()
    ensures fresh(it) && it.Valid() && it.curr == 0
    ensures it.entries == list.entities.entries
  {
    it := new ArenaIter.Iter(list.entities);
  }

  /** `iter_all_mut`: the arena's own mutable iterator. */
  method IterAllMut<P>(list: EntityList<P>) returns (it: ArenaIter.IterMut<EntityRef<P>>)
    requires list.Sound()
    ensures fresh(it) && it.Valid() && it.curr == 0
    ensures it.arena == list.entities
  {
    it := new ArenaIter.IterMut(list.entities);
  }

  /** The corrected unit query yields exactly what `iter_all` yields. */
  lemma UnitQueryIsIterAll<P>(entries: Slots<P>, bitsets: map<Kind, set<nat>>)
    ensures QueryItems(entries, Selection([], bitsets, entries).value) == OccupiedItems(entries)
  {
    QueryItemsOfAll(entries, OccupiedSet(entries));
  }
}
