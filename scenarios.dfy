/**
 * The repository's own test scenarios, written as client code against the model:
 * each method replays one test and its `ensures` states what the test checks.
 */
module Scenarios {
  import opened Wrappers
  import opened Arena
  import opened ArenaIter
  import opened Entities
  import opened Pooled
  import opened EntityLists
  import Queries

  /** Pushes 10, 9, 8 into an arena created with capacity zero, which grows to eight slots. */
  method PushThree() returns (arena: GenArena<int>, idx1: Index, idx2: Index, idx3: Index)
    ensures fresh(arena) && arena.Valid() && arena.nextFree == Some(3) && |arena.entries| == 8
    ensures idx1 == Index(0, 0) && idx2 == Index(1, 0) && idx3 == Index(2, 0)
    ensures arena.entries[0] == Occupied(0, 10) && arena.entries[1] == Occupied(0, 9)
    ensures arena.entries[2] == Occupied(0, 8) && arena.entries[3] == Free(0, Some(4))
    ensures arena.entries[4] == Free(0, Some(5))
  {
    arena := new GenArena<int>.WithCapacity(0);
    idx1 := arena.Push(10);
    assert arena.entries[1] == Free(0, Some(2)) && arena.entries[2] == Free(0, Some(3));
    assert arena.entries[3] == Free(0, Some(4)) && arena.entries[4] == Free(0, Some(5));
    idx2 := arena.Push(9);
    assert arena.entries[0] == Occupied(0, 10);
    idx3 := arena.Push(8);
  }

  /** Then removes the last of the three handles, whose slot becomes the head of the free list. */
  method PushThreeRemoveLast() returns (arena: GenArena<int>, idx1: Index, idx2: Index, idx3: Index)
    ensures fresh(arena) && arena.Valid() && arena.nextFree == Some(2) && |arena.entries| == 8
    ensures idx1 == Index(0, 0) && idx2 == Index(1, 0) && idx3 == Index(2, 0)
    ensures arena.entries[0] == Occupied(0, 10) && arena.entries[1] == Occupied(0, 9)
    ensures arena.entries[2] == Free(1, Some(3)) && arena.entries[3] == Free(0, Some(4))
    ensures arena.entries[4] == Free(0, Some(5))
  {
    arena, idx1, idx2, idx3 := PushThree();
    var _ := arena.Remove(idx3);
  }

  /** Then removes the middle handle, whose slot now heads the free list ahead of slot 2. */
  method PushThreeRemoveTwo() returns (arena: GenArena<int>, idx1: Index, idx2: Index, idx3: Index)
    ensures fresh(arena) && arena.Valid() && arena.nextFree == Some(1) && |arena.entries| == 8
    ensures idx1 == Index(0, 0) && idx2 == Index(1, 0) && idx3 == Index(2, 0)
    ensures arena.entries[0] == Occupied(0, 10) && arena.entries[1] == Free(1, Some(2))
    ensures arena.entries[2] == Free(1, Some(3)) && arena.entries[3] == Free(0, Some(4))
    ensures arena.entries[4] == Free(0, Some(5))
  {
    arena, idx1, idx2, idx3 := PushThreeRemoveLast();
    var _ := arena.Remove(idx2);
  }

  /**
   * Pushes three values into an empty arena and removes them again, last first:
   * the last removal hands back the first value, 10; slot 0 heads the free list,
   * followed by slots 1 and 2, each one generation on.
   */
  method PushThreeRemoveThree() returns (arena: GenArena<int>, stale: seq<Index>, removed: Option<int>)
    ensures fresh(arena) && arena.Valid() && arena.nextFree == Some(0) && |arena.entries| == 8
    ensures arena.entries[0] == Free(1, Some(1)) && arena.entries[1] == Free(1, Some(2))
    ensures arena.entries[2] == Free(1, Some(3)) && arena.entries[3] == Free(0, Some(4))
    ensures arena.entries[4] == Free(0, Some(5))
    ensures stale == [Index(0, 0), Index(1, 0), Index(2, 0)]
    ensures forall id <- stale :: !arena.Contains(id)
    ensures removed == Some(10)
  {
    var idx1, idx2, idx3;
    arena, idx1, idx2, idx3 := PushThreeRemoveTwo();
    removed := arena.Remove(idx1);
    assert !Live(arena.entries, idx1) && !Live(arena.entries, idx2) && !Live(arena.entries, idx3);
    stale := [idx1, idx2, idx3];
  }

  /**
   * After the three removals, pushes 5 and 6: they take slots 0 and 1 (last freed
   * first) with generation 1, and slot 2 heads the free list.
   */
  method ReuseTwoFreedSlots() returns (arena: GenArena<int>, stale: seq<Index>, a: Index, b: Index)
    ensures fresh(arena) && arena.Valid() && arena.nextFree == Some(2) && |arena.entries| == 8
    ensures a == Index(0, 1) && b == Index(1, 1)
    ensures arena.entries[0] == Occupied(1, 5) && arena.entries[1] == Occupied(1, 6)
    ensures arena.entries[2] == Free(1, Some(3)) && arena.entries[3] == Free(0, Some(4))
    ensures arena.entries[4] == Free(0, Some(5))
    ensures stale == [Index(0, 0), Index(1, 0), Index(2, 0)]
  {
    var removed;
    arena, stale, removed := PushThreeRemoveThree();
    a := arena.Push(5);
    assert a == Index(0, 1) && arena.nextFree == Some(1);
    assert arena.entries[1] == Free(1, Some(2)) && arena.entries[2] == Free(1, Some(3));
    b := arena.Push(6);
  }

  /**
   * Removing three pushed handles in the order 3, 2, 1 and pushing again reuses
   * slots 0, 1, 2 (last freed first) with generation 1, then takes fresh slots 3
   * and 4 with generation 0. Once slots 0 and 1 are reused, the new handle (0, 1)
   * finds 5, while every removed handle, each sharing its slot with a live or free
   * entry of a later generation, finds nothing.
   */
  method RemovalsReuseFreedSlotsLifo() returns (reused: seq<Index>, found: Option<int>, staleFound: seq<Option<int>>)
    ensures reused == [Index(0, 1), Index(1, 1), Index(2, 1), Index(3, 0), Index(4, 0)]
    ensures found == Some(5)
    ensures staleFound == [None, None, None]
  {
    var arena, stale, a, b := ReuseTwoFreedSlots();
    found := arena.Get(Index(0, 1));
    staleFound := [arena.Get(stale[1]), arena.Get(stale[2]), arena.Get(stale[0])];
    var c := arena.Push(7);
    assert c == Index(2, 1) && arena.nextFree == Some(3);
    var d := arena.Push(8);
    assert d == Index(3, 0) && arena.nextFree == Some(4);
    var e := arena.Push(9);
    reused := [a, b, c, d, e];
  }

  /**
   * Eight pushes fill an arena of capacity eight exactly; four more make it grow,
   * to a capacity of at least twelve, holding twelve values.
   */
  method PushIntoFullArenaGrows() returns (capacityFull: nat, lenFull: nat, capacityAfter: nat, lenAfter: nat)
    ensures capacityFull == 8 && lenFull == 8
    ensures capacityAfter >= 12 && lenAfter == 12
  {
    var arena := new GenArena<int>.WithCapacity(8);
    var i := 0;
    while i < 8
      invariant 0 <= i <= 8
      invariant arena.Valid() && |arena.entries| == 8 && arena.length == i
      invariant arena.nextFree == if i < 8 then Some(i) else None
      invariant forall j :: i <= j < 8 ==> arena.entries[j] == Free(0, if j + 1 < 8 then Some(j + 1) else None)
    {
      var _ := arena.Push(5);
      i := i + 1;
    }
    capacityFull := arena.Capacity();
    lenFull := arena.Len();
    i := 0;
    while i < 4
      invariant 0 <= i <= 4
      invariant arena.Valid() && arena.length == 8 + i
    {
      var _ := arena.Push(5);
      i := i + 1;
    }
    capacityAfter := arena.Capacity();
    lenAfter := arena.Len();
  }

  /** Pushes 0 and 1 into an arena of capacity four: slots 2 and 3 stay on the free list. */
  method FillTwoOfFour() returns (arena: GenArena<int>)
    ensures fresh(arena) && arena.Valid() && arena.nextFree == Some(2)
    ensures arena.entries == [Occupied(0, 0), Occupied(0, 1), Free(0, Some(3)), Free(0, None)]
  {
    arena := new GenArena<int>.WithCapacity(4);
    assert arena.entries == [Free(0, Some(1)), Free(0, Some(2)), Free(0, Some(3)), Free(0, None)];
    var _ := arena.Push(0);
    var _ := arena.Push(1);
  }

  /** Then pushes 2 and 3, filling it exactly. */
  method FillFour() returns (arena: GenArena<int>)
    ensures fresh(arena) && arena.Valid()
    ensures arena.entries == [Occupied(0, 0), Occupied(0, 1), Occupied(0, 2), Occupied(0, 3)]
  {
    arena := FillTwoOfFour();
    var _ := arena.Push(2);
    var _ := arena.Push(3);
  }

  /** Iterating four pushed values yields them with handles (0, 0) to (3, 0), then None. */
  method IterateFourValues() returns (yielded: seq<Option<(Index, int)>>)
    ensures yielded == [Some((Index(0, 0), 0)), Some((Index(1, 0), 1)), Some((Index(2, 0), 2)), Some((Index(3, 0), 3)), None]
  {
    var arena := FillFour();
    var it := new Iter(arena);
    assert it.entries[0] == Occupied(0, 0);
    var r0 := it.Next();
    assert r0 == Some((Index(0, 0), 0)) && it.curr == 1;
    assert it.entries[1] == Occupied(0, 1);
    var r1 := it.Next();
    assert r1 == Some((Index(1, 0), 1)) && it.curr == 2;
    assert it.entries[2] == Occupied(0, 2);
    var r2 := it.Next();
    assert r2 == Some((Index(2, 0), 2)) && it.curr == 3;
    assert it.entries[3] == Occupied(0, 3);
    var r3 := it.Next();
    assert r3 == Some((Index(3, 0), 3)) && it.curr == 4;
    var r4 := it.Next();
    yielded := [r0, r1, r2, r3, r4];
  }

  /** The positions of a sequence of yielded items. */
  function Positions<T>(items: seq<(Index, T)>): (ps: seq<nat>)
    ensures |ps| == |items| && forall k :: 0 <= k < |items| ==> ps[k] == items[k].0.index
  {
    seq(|items|, k requires 0 <= k < |items| => items[k].0.index)
  }

  /** The positions yielded from the first `n` of those eight slots. */
  function SurvivorsBelow(n: nat): seq<nat>
  {
    if n == 0 then [] else SurvivorsBelow(n - 1) + (if n - 1 == 4 || n - 1 == 6 then [] else [n - 1])
  }

  /**
   * Of eight slots whose fifth and seventh entities were removed, `iter_all` yields the
   * other six, in slot order.
   */
  lemma {:induction false} IterAllSkipsRemoved<T>(entries: seq<Entry<T>>)
    requires |entries| == 8
    requires forall i :: 0 <= i < 8 ==> (entries[i].Free? <==> i == 4 || i == 6)
    ensures Positions(OccupiedItems(entries)) == [0, 1, 2, 3, 5, 7]
  {
    assert entries[..0] == [];
    var i := 0;
    while i < 8
      invariant 0 <= i <= 8
      invariant Positions(OccupiedItems(entries[..i])) == SurvivorsBelow(i)
    {
      OccupiedItemsPrefix(entries, i);
      var before := OccupiedItems(entries[..i]);
      assert Positions(before + ItemAt(entries, i)) == Positions(before) + (if i == 4 || i == 6 then [] else [i]);
      i := i + 1;
    }
    assert entries[..8] == entries;
    assert SurvivorsBelow(8) == [0, 1, 2, 3, 5, 7] by {
      assert SurvivorsBelow(4) == [0, 1, 2, 3];
    }
  }

  /**
   * Removing a component through `get_mut` leaves the entity's bit set in that
   * type's bitset, out of date: a query on that type still selects the entity
   * until `refresh` clears the bit and the list is synchronised again.
   */
  method RemoveThroughGetMutThenRefresh() returns (staleBefore: bool, staleQueried: bool, setAfter: bool)
    ensures staleBefore && staleQueried && !setAfter
  {
    var list := new EntityList<int>();
    var id := list.Insert(With(New(6), A, 60));
    assert list.bitsets[A] == {id.index};
    var found, taken := list.EditThroughGetMut(id, A, Take);
    staleBefore := id.index in list.bitsets[A] && !HasAt(list.entities.entries, id.index, A);
    assert list.bitsets[A] == {id.index} && list.entities.entries[id.index].Occupied?;
    assert Queries.Selection([A], list.bitsets, list.entities.entries).value == {id.index};
    var it := Queries.Iter(list, [A]);
    staleQueried := id.index in it.selected;
    list.Refresh(id);
    setAfter := id.index in list.bitsets[A];
  }

  /**
   * Removing the entity while its bit is stale clears only the bits of the types it
   * still has, so the stale bit stays on the freed slot, and a query on that type
   * would reach the FATAL panic.
   */
  method RemoveWhileStaleKeepsBit() returns (list: EntityList<int>, id: Index)
    ensures list.Sound() && id.index < |list.entities.entries|
    ensures list.entities.entries[id.index].Free? && id.index in list.bitsets[A]
    ensures !Queries.SelectsOccupied([A], list.bitsets, list.entities.entries)
  {
    list := new EntityList<int>();
    id := list.Insert(With(New(6), A, 60));
    assert list.bitsets[A] == {id.index};
    var found, taken := list.EditThroughGetMut(id, A, Take);
    assert Key(list.entities.entries[id.index].value, A).None?;
    var removed := list.Remove(id);
    assert id.index in list.bitsets[A];
    assert id.index in Queries.Selection([A], list.bitsets, list.entities.entries).value;
  }
}
