/**
 * The generational arena of src/genarena/mod.rs: a growable vector of slots,
 * each free or occupied, with a LIFO free list threaded through the free
 * slots and a per-slot generation that grows by one on every removal.
 */
module Arena {
  import opened Wrappers

  /** A handle: the slot position and the generation the slot had when the handle was issued. */
  datatype Index = Index(index: nat, generation: nat)

  /** A slot. A free slot keeps the generation its next occupant gets and its free-list link. */
  datatype Entry<T> =
    | Free(nextGeneration: nat, nextFree: Option<nat>)
    | Occupied(generation: nat, value: T)

  /** Capacity of `GenArena::new`. */
  const DefaultArenaCapacity: nat := 32
  /** Smallest growth step of `push` on a full arena. */
  const MinReserve: nat := 8

  function Max(a: nat, b: nat): nat
  {
    if a < b then b else a
  }

  function Occ<T>(e: Entry<T>): nat
  {
    if e.Occupied? then 1 else 0
  }

  /** Number of occupied slots: what the `length` field counts. */
  function CountOccupied<T>(entries: seq<Entry<T>>): (n: nat)
    ensures n <= |entries|
  {
    if entries == [] then 0
    else CountOccupied(entries[..|entries| - 1]) + Occ(entries[|entries| - 1])
  }

  /** The handle names a live value: in bounds, occupied, with the same generation. */
  predicate Live<T>(entries: seq<Entry<T>>, id: Index)
  {
    id.index < |entries| && entries[id.index].Occupied? && entries[id.index].generation == id.generation
  }

  /** The generation a slot hands out after a `clear`: a free slot keeps its own, an occupied one is bumped. */
  function NextGeneration<T>(e: Entry<T>): nat
  {
    match e
    case Free(g, _) => g
    case Occupied(g, _) => g + 1
  }

  /** `count` new free slots starting at position `start`, linked in index order, the last one linking to `tail`. */
  function FreshChain<T>(start: nat, count: nat, tail: Option<nat>): seq<Entry<T>>
  {
    seq(count, j requires 0 <= j < count => Free(0, if j + 1 < count then Some(start + j + 1) else tail))
  }

  /** The positions start, start + 1, ..., end - 1. */
  ghost function Range(start: nat, end: nat): (r: seq<nat>)
    requires start <= end
    ensures |r| == end - start
    ensures forall j :: 0 <= j < |r| ==> r[j] == start + j
  {
    seq(end - start, j => start + j)
  }

  /** The link that the k-th slot of a free list must hold. */
  function Link(chain: seq<nat>, k: nat): Option<nat>
    requires k < |chain|
  {
    if k + 1 < |chain| then Some(chain[k + 1]) else None
  }

  /** Each slot of `chain` is free and links to the next one; the last links to None. */
  ghost predicate ChainLinks<T>(entries: seq<Entry<T>>, chain: seq<nat>)
  {
    forall k :: 0 <= k < |chain| ==>
      chain[k] < |entries| && entries[chain[k]].Free? && entries[chain[k]].nextFree == Link(chain, k)
  }

  ghost predicate ChainDistinct(chain: seq<nat>)
  {
    forall j, k :: 0 <= j < k < |chain| ==> chain[j] != chain[k]
  }

  /** Every free slot is on `chain`. */
  ghost predicate ChainCovers<T>(entries: seq<Entry<T>>, chain: seq<nat>)
  {
    forall i :: 0 <= i < |entries| && entries[i].Free? ==> i in chain
  }

  function HeadOf(chain: seq<nat>): Option<nat>
  {
    if chain == [] then None else Some(chain[0])
  }

  /**
   * `chain` is the free list read from `head`: distinct free slots, each linked to
   * the next, the last one to None, and every free slot of `entries` is on it.
   */
  ghost predicate FreeChain<T>(entries: seq<Entry<T>>, head: Option<nat>, chain: seq<nat>)
  {
    head == HeadOf(chain) && ChainLinks(entries, chain) && ChainDistinct(chain) && ChainCovers(entries, chain)
  }

  /** The head a `push` would fill is a free slot in bounds. */
  predicate HeadFree<T>(entries: seq<Entry<T>>, head: Option<nat>)
  {
    head.Some? ==> head.value < |entries| && entries[head.value].Free?
  }

  /** The slots after `clear`: all free, generations of occupied slots bumped, linked in index order. */
  function ClearedEntries<T>(entries: seq<Entry<T>>): seq<Entry<T>>
  {
    seq(|entries|, j requires 0 <= j < |entries| =>
      Free(NextGeneration(entries[j]), if j + 1 < |entries| then Some(j + 1) else None))
  }

  /** The free-list head `clear` installs, as src/genarena/mod.rs:161 writes it: slot 0, even when there is no slot. */
  function ClearedHeadAsWritten(n: nat): Option<nat>
  {
    Some(0)
  }

  /** The free-list head `clear` should install: slot 0 when there is one, otherwise an empty list. */
  function ClearedHead(n: nat): (r: Option<nat>)
    ensures r.Some? <==> n > 0
    ensures r.Some? ==> r.value < n
  {
    if n == 0 then None else Some(0)
  }

  /** The arena iteration order: every occupied slot, as (handle, value), by increasing position. */
  function OccupiedItems<T>(entries: seq<Entry<T>>): seq<(Index, T)>
  {
    if entries == [] then []
    else OccupiedItems(entries[..|entries| - 1]) + ItemAt(entries, |entries| - 1)
  }

  function ItemAt<T>(entries: seq<Entry<T>>, i: nat): seq<(Index, T)>
    requires i < |entries|
  {
    match entries[i]
    case Occupied(g, v) => [(Index(i, g), v)]
    case Free(_, _) => []
  }

  // ---------------------------------------------------------------------------
  // Lemmas about the counter
  // ---------------------------------------------------------------------------

  lemma {:induction false} CountAppend<T>(s: seq<Entry<T>>, t: seq<Entry<T>>)
    ensures CountOccupied(s + t) == CountOccupied(s) + CountOccupied(t)
  {
    if t != [] {
      assert (s + t)[..|s + t| - 1] == s + t[..|t| - 1];
      CountAppend(s, t[..|t| - 1]);
    } else {
      assert s + t == s;
    }
  }

  /** A sequence of free slots counts no occupied one. */
  lemma {:induction false} CountAllFree<T>(s: seq<Entry<T>>)
    requires forall j :: 0 <= j < |s| ==> s[j].Free?
    ensures CountOccupied(s) == 0
  {
    if s != [] {
      CountAllFree(s[..|s| - 1]);
    }
  }

  /** Overwriting one slot changes the count by what the slot held and what it holds now. */
  lemma {:induction false} CountUpdate<T>(s: seq<Entry<T>>, i: nat, e: Entry<T>)
    requires i < |s|
    ensures CountOccupied(s[i := e]) + Occ(s[i]) == CountOccupied(s) + Occ(e)
  {
    var n := |s|;
    if i == n - 1 {
      assert s[i := e][..n - 1] == s[..n - 1];
    } else {
      assert s[i := e][..n - 1] == s[..n - 1][i := e];
      CountUpdate(s[..n - 1], i, e);
    }
  }

  // ---------------------------------------------------------------------------
  // Lemmas about the free list
  // ---------------------------------------------------------------------------

  /** Appending a fresh chain in front of the old free list gives the new free list. */
  lemma ReserveKeepsChain<T>(entries: seq<Entry<T>>, head: Option<nat>, chain: seq<nat>, added: nat)
    requires FreeChain(entries, head, chain)
    requires added >= 1
    ensures FreeChain(entries + FreshChain(|entries|, added, head), Some(|entries|),
                      Range(|entries|, |entries| + added) + chain)
  {
    ReserveLinks(entries, head, chain, added);
    ReserveDistinct(entries, chain, added);
    ReserveCovers(entries, head, chain, added);
  }

  /** The arena invariant survives `reserve`: the new slots count nothing and head the free list. */
  lemma ReserveKeepsValid<T>(entries: seq<Entry<T>>, head: Option<nat>, chain: seq<nat>, length: nat, added: nat)
    requires Consistent(entries, head, chain, length)
    requires added >= 1
    ensures Consistent(entries + FreshChain(|entries|, added, head), Some(|entries|),
                       Range(|entries|, |entries| + added) + chain, length)
  {
    var newSlots := FreshChain<T>(|entries|, added, head);
    assert CountOccupied(newSlots) == 0 by {
      CountAllFree(newSlots);
    }
    CountAppend(entries, newSlots);
    ReserveKeepsChain(entries, head, chain, added);
  }

  lemma ReserveLinks<T>(entries: seq<Entry<T>>, head: Option<nat>, chain: seq<nat>, added: nat)
    requires head == HeadOf(chain) && ChainLinks(entries, chain)
    requires added >= 1
    ensures ChainLinks(entries + FreshChain(|entries|, added, head), Range(|entries|, |entries| + added) + chain)
  {
    var grown := entries + FreshChain(|entries|, added, head);
    var chain2 := Range(|entries|, |entries| + added) + chain;
    forall k | 0 <= k < |chain2|
      ensures chain2[k] < |grown| && grown[chain2[k]].Free? && grown[chain2[k]].nextFree == Link(chain2, k)
    {
      if k < added {
        ReserveLinkNew(entries, head, chain, added, k);
      } else {
        ReserveLinkOld(entries, head, chain, added, k);
      }
    }
  }

  lemma ReserveLinkNew<T>(entries: seq<Entry<T>>, head: Option<nat>, chain: seq<nat>, added: nat, k: nat)
    requires head == HeadOf(chain)
    requires k < added
    ensures var grown := entries + FreshChain(|entries|, added, head);
            var chain2 := Range(|entries|, |entries| + added) + chain;
            chain2[k] < |grown| && grown[chain2[k]].Free? && grown[chain2[k]].nextFree == Link(chain2, k)
  {
    var start := |entries|;
    var newSlots := FreshChain<T>(start, added, head);
    var grown := entries + newSlots;
    var chain2 := Range(start, start + added) + chain;
    assert chain2[k] == start + k;
    assert grown[start + k] == newSlots[k];
    if k + 1 < added {
      assert chain2[k + 1] == start + k + 1;
    } else if chain != [] {
      assert chain2[k + 1] == chain[0];
    }
  }

  lemma ReserveLinkOld<T>(entries: seq<Entry<T>>, head: Option<nat>, chain: seq<nat>, added: nat, k: nat)
    requires ChainLinks(entries, chain)
    requires added <= k < added + |chain|
    ensures var grown := entries + FreshChain(|entries|, added, head);
            var chain2 := Range(|entries|, |entries| + added) + chain;
            chain2[k] < |grown| && grown[chain2[k]].Free? && grown[chain2[k]].nextFree == Link(chain2, k)
  {
    var start := |entries|;
    var grown := entries + FreshChain<T>(start, added, head);
    var chain2 := Range(start, start + added) + chain;
    var m := k - added;
    assert chain2[k] == chain[m];
    assert chain[m] < |entries| && entries[chain[m]].Free? && entries[chain[m]].nextFree == Link(chain, m);
    assert grown[chain[m]] == entries[chain[m]];
    assert Link(chain2, k) == Link(chain, m) by {
      if k + 1 < |chain2| {
        assert chain2[k + 1] == chain[m + 1];
      }
    }
  }

  lemma ReserveDistinct<T>(entries: seq<Entry<T>>, chain: seq<nat>, added: nat)
    requires forall k :: 0 <= k < |chain| ==> chain[k] < |entries|
    requires ChainDistinct(chain)
    ensures ChainDistinct(Range(|entries|, |entries| + added) + chain)
  {
    var start := |entries|;
    var chain2 := Range(start, start + added) + chain;
    forall j, k | 0 <= j < k < |chain2|
      ensures chain2[j] != chain2[k]
    {
      if k < added {
        assert chain2[j] == start + j && chain2[k] == start + k;
      } else if j < added {
        assert chain2[j] == start + j && chain2[k] == chain[k - added];
      } else {
        assert chain2[j] == chain[j - added] && chain2[k] == chain[k - added];
      }
    }
  }

  lemma ReserveCovers<T>(entries: seq<Entry<T>>, head: Option<nat>, chain: seq<nat>, added: nat)
    requires ChainCovers(entries, chain)
    ensures ChainCovers(entries + FreshChain(|entries|, added, head), Range(|entries|, |entries| + added) + chain)
  {
    var start := |entries|;
    var grown := entries + FreshChain<T>(start, added, head);
    var chain2 := Range(start, start + added) + chain;
    forall i | 0 <= i < |grown| && grown[i].Free?
      ensures i in chain2
    {
      if i < start {
        assert grown[i] == entries[i];
        var k :| 0 <= k < |chain| && chain[k] == i;
        assert chain2[added + k] == i;
      } else {
        assert chain2[i - start] == i;
      }
    }
  }

  /** Taking the head off the free list and occupying it leaves the rest of the list. */
  lemma PopKeepsChain<T>(entries: seq<Entry<T>>, chain: seq<nat>, v: Entry<T>)
    requires chain != [] && FreeChain(entries, Some(chain[0]), chain)
    requires v.Occupied?
    ensures FreeChain(entries[chain[0] := v], entries[chain[0]].nextFree, chain[1..])
  {
    var grown := entries[chain[0] := v];
    forall i | 0 <= i < |grown| && grown[i].Free?
      ensures i in chain[1..]
    {
      assert i in chain && i != chain[0];
      var k :| 0 <= k < |chain| && chain[k] == i;
      assert chain[1..][k - 1] == i;
    }
  }

  /** Pushing a freed slot onto the free list. */
  lemma FreeKeepsChain<T>(entries: seq<Entry<T>>, head: Option<nat>, chain: seq<nat>, i: nat, g: nat)
    requires FreeChain(entries, head, chain)
    requires i < |entries| && entries[i].Occupied?
    ensures FreeChain(entries[i := Free(g, head)], Some(i), [i] + chain)
  {
    var grown := entries[i := Free(g, head)];
    var chain2 := [i] + chain;
    forall k | 0 <= k < |chain2|
      ensures chain2[k] < |grown| && grown[chain2[k]].Free? && grown[chain2[k]].nextFree == Link(chain2, k)
    {
      if k > 0 {
        assert chain2[k] == chain[k - 1];
      }
    }
  }

  /**
   * The corrected `clear` leaves a well-formed free list in index order.
   * (With the head as written, an empty arena gets a head that is out of bounds.)
   */
  lemma ClearKeepsChain<T>(entries: seq<Entry<T>>)
    ensures FreeChain(ClearedEntries(entries), ClearedHead(|entries|), Range(0, |entries|))
  {
    var c := Range(0, |entries|);
    var e := ClearedEntries(entries);
    forall k | 0 <= k < |c|
      ensures c[k] < |e| && e[c[k]].Free? && e[c[k]].nextFree == Link(c, k)
    {
      if k + 1 < |c| {
        assert c[k + 1] == k + 1;
      }
    }
    forall i | 0 <= i < |e| && e[i].Free?
      ensures i in c
    {
      assert c[i] == i;
    }
  }

  /** After `clear` nothing is occupied, every slot is free and every occupied slot's generation is bumped. */
  lemma {:induction false} ClearedEntriesAt<T>(entries: seq<Entry<T>>)
    ensures |ClearedEntries(entries)| == |entries|
    ensures CountOccupied(ClearedEntries(entries)) == 0
    ensures forall i :: 0 <= i < |entries| && entries[i].Occupied? ==>
              ClearedEntries(entries)[i].nextGeneration == entries[i].generation + 1
    ensures forall id :: !Live(ClearedEntries(entries), id)
  {
    CountAllFree(ClearedEntries(entries));
  }

  /** On an arena with no slot, `clear` as written installs a head that `push` would index out of bounds. */
  lemma ClearAsWrittenDanglesOnEmpty<T>(entries: seq<Entry<T>>)
    requires entries == []
    ensures !HeadFree(ClearedEntries(entries), ClearedHeadAsWritten(|entries|))
    ensures HeadFree(ClearedEntries(entries), ClearedHead(|entries|))
  {
  }

  // ---------------------------------------------------------------------------
  // Lemmas about the iteration order
  // ---------------------------------------------------------------------------

  /** Extending a prefix by one slot adds that slot's item, if any. */
  lemma OccupiedItemsPrefix<T>(entries: seq<Entry<T>>, i: nat)
    requires i < |entries|
    ensures OccupiedItems(entries[..i + 1]) == OccupiedItems(entries[..i]) + ItemAt(entries, i)
  {
    assert entries[..i + 1][..i] == entries[..i];
  }

  /** Each item of the iteration is an occupied slot with its live generation and value. */
  lemma {:induction false} OccupiedItemsSound<T>(entries: seq<Entry<T>>)
    ensures forall k :: 0 <= k < |OccupiedItems(entries)| ==>
              var it := OccupiedItems(entries)[k];
              it.0.index < |entries| && entries[it.0.index] == Occupied(it.0.generation, it.1)
  {
    if entries != [] {
      var n := |entries|;
      var pre := entries[..n - 1];
      OccupiedItemsSound(pre);
      var items := OccupiedItems(entries);
      assert items == OccupiedItems(pre) + ItemAt(entries, n - 1);
      forall k | 0 <= k < |items|
        ensures items[k].0.index < n && entries[items[k].0.index] == Occupied(items[k].0.generation, items[k].1)
      {
        if k < |OccupiedItems(pre)| {
          assert items[k] == OccupiedItems(pre)[k];
          assert pre[items[k].0.index] == entries[items[k].0.index];
        }
      }
    }
  }

  /** The iteration visits slots by strictly increasing position. */
  lemma {:induction false} OccupiedItemsSorted<T>(entries: seq<Entry<T>>)
    ensures forall j, k :: 0 <= j < k < |OccupiedItems(entries)| ==>
              OccupiedItems(entries)[j].0.index < OccupiedItems(entries)[k].0.index
  {
    if entries != [] {
      var n := |entries|;
      var pre := entries[..n - 1];
      OccupiedItemsSorted(pre);
      OccupiedItemsSound(pre);
      var items := OccupiedItems(entries);
      var p := OccupiedItems(pre);
      assert items == p + ItemAt(entries, n - 1);
      forall j, k | 0 <= j < k < |items|
        ensures items[j].0.index < items[k].0.index
      {
        assert items[j] == p[j];
        if k < |p| {
          assert items[k] == p[k];
        } else {
          assert items[k].0.index == n - 1;
        }
      }
    }
  }

  /** Some item of `items` carries a handle to slot `i`. */
  ghost predicate Visits<T>(items: seq<(Index, T)>, i: nat)
  {
    exists k :: 0 <= k < |items| && items[k].0.index == i
  }

  /** Every occupied slot is visited. */
  lemma {:induction false} OccupiedItemsComplete<T>(entries: seq<Entry<T>>)
    ensures forall i :: 0 <= i < |entries| && entries[i].Occupied? ==> Visits(OccupiedItems(entries), i)
  {
    if entries != [] {
      var n := |entries|;
      var pre := entries[..n - 1];
      OccupiedItemsComplete(pre);
      var items := OccupiedItems(entries);
      var p := OccupiedItems(pre);
      assert items == p + ItemAt(entries, n - 1);
      forall i | 0 <= i < n && entries[i].Occupied?
        ensures Visits(items, i)
      {
        if i < n - 1 {
          assert pre[i].Occupied?;
          var k :| 0 <= k < |p| && p[k].0.index == i;
          assert items[k] == p[k];
        } else {
          assert items[|items| - 1].0.index == i;
        }
      }
    }
  }

  /** The iteration yields as many items as the counter counts. */
  lemma {:induction false} OccupiedItemsCount<T>(entries: seq<Entry<T>>)
    ensures |OccupiedItems(entries)| == CountOccupied(entries)
  {
    if entries != [] {
      OccupiedItemsCount(entries[..|entries| - 1]);
    }
  }

  /**
   * The iteration yields exactly the occupied slots, each with its live generation
   * and value, by strictly increasing position, and as many as the counter says.
   */
  lemma OccupiedItemsSpec<T>(entries: seq<Entry<T>>)
    ensures |OccupiedItems(entries)| == CountOccupied(entries)
    ensures forall k :: 0 <= k < |OccupiedItems(entries)| ==>
              var it := OccupiedItems(entries)[k];
              it.0.index < |entries| && entries[it.0.index] == Occupied(it.0.generation, it.1)
    ensures forall j, k :: 0 <= j < k < |OccupiedItems(entries)| ==>
              OccupiedItems(entries)[j].0.index < OccupiedItems(entries)[k].0.index
    ensures forall i :: 0 <= i < |entries| && entries[i].Occupied? ==>
              exists k :: 0 <= k < |OccupiedItems(entries)| && OccupiedItems(entries)[k].0.index == i
  {
    OccupiedItemsCount(entries);
    OccupiedItemsSound(entries);
    OccupiedItemsSorted(entries);
    OccupiedItemsComplete(entries);
  }

  /**
   * The loop of `clear`: the last slot ends the free list, every other slot links
   * to its successor, and every slot moves one generation on.
   */
  method ClearSlots<T>(entries: seq<Entry<T>>) returns (cleared: seq<Entry<T>>)
    ensures cleared == ClearedEntries(entries)
  {
    var n := |entries|;
    cleared := entries;
    if n > 0 {
      cleared := cleared[n - 1 := Free(NextGeneration(entries[n - 1]), None)];
      var i := 0;
      while i < n - 1
        invariant 0 <= i <= n - 1 && |cleared| == n
        invariant forall j :: 0 <= j < i ==> cleared[j] == ClearedEntries(entries)[j]
        invariant forall j :: i <= j < n - 1 ==> cleared[j] == entries[j]
        invariant cleared[n - 1] == ClearedEntries(entries)[n - 1]
      {
        cleared := cleared[i := Free(NextGeneration(cleared[i]), Some(i + 1))];
        i := i + 1;
      }
    }
  }

  // ---------------------------------------------------------------------------
  // The arena
  // ---------------------------------------------------------------------------

  /**
   * `after` is `before` with the slot of `id` (a free slot, or one that growth added)
   * now holding `v`; every other old slot is unchanged and every added slot is free.
   */
  ghost predicate FillsOneSlot<T>(before: seq<Entry<T>>, after: seq<Entry<T>>, id: Index, v: T)
  {
    && |before| <= |after|
    && id.index < |after| && after[id.index] == Occupied(id.generation, v)
    && (id.index < |before| ==> before[id.index].Free?)
    && (forall i :: 0 <= i < |before| && i != id.index ==> after[i] == before[i])
    && (forall i :: |before| <= i < |after| && i != id.index ==> after[i].Free?)
  }

  /**
   * The slot-pushing loop of `internal_reserve_exact`: `added` free slots at the end of
   * `entries`, each linking to the one after it, the last to `tail`.
   */
  method AppendFreshChain<T>(entries: seq<Entry<T>>, added: nat, tail: Option<nat>) returns (grown: seq<Entry<T>>)
    requires added >= 1
    ensures grown == entries + FreshChain(|entries|, added, tail)
  {
    var start := |entries|;
    ghost var newSlots := FreshChain<T>(start, added, tail);
    grown := entries;
    var i := 0;
    while i < added - 1
      invariant 0 <= i <= added - 1
      invariant grown == entries + newSlots[..i]
    {
      grown := grown + [Free(0, Some(start + i + 1))];
      assert newSlots[..i + 1] == newSlots[..i] + [newSlots[i]];
      i := i + 1;
    }
    grown := grown + [Free(0, tail)];
    assert newSlots == newSlots[..i] + [newSlots[i]];
  }

  /** `length` counts the occupied slots; the free list links exactly the free slots. */
  ghost predicate Consistent<T>(entries: seq<Entry<T>>, head: Option<nat>, chain: seq<nat>, length: nat)
  {
    length == CountOccupied(entries) && FreeChain(entries, head, chain)
  }

  class GenArena<T> {
    var entries: seq<Entry<T>>
    var nextFree: Option<nat>
    var length: nat
    /** The free list as the positions it visits, head first. */
    ghost var freeList: seq<nat>

    /** `length` counts the occupied slots; the free list links exactly the free slots. */
    ghost predicate Valid()
      reads this
    {
      Consistent(entries, nextFree, freeList, length)
    }

    /** `GenArena::with_capacity`: `capacity` free slots chained in index order, nothing occupied. */
    constructor WithCapacity(capacity: nat)
      ensures Valid() && length == 0
      ensures capacity == 0 ==> entries == [] && nextFree == None
      ensures capacity > 0 ==> entries == FreshChain(0, capacity, None) && nextFree == Some(0)
    {
      entries := [];
      nextFree := None;
      length := 0;
      freeList := [];
      new;
      if capacity > 0 {
        ReserveExact(capacity);
      }
    }

    /** `GenArena::new`: `with_capacity(DEFAULT_ARENA_CAPACITY)`. */
    constructor New()
      ensures Valid() && length == 0
      ensures entries == FreshChain(0, DefaultArenaCapacity, None) && nextFree == Some(0)
    {
      entries := [];
      nextFree := None;
      length := 0;
      freeList := [];
      new;
      ReserveExact(DefaultArenaCapacity);
    }

    /**
     * Appends `added` free slots linked in index order, the last one linking to the old
     * head, and makes the first new slot the head. Returns that slot.
     */
    method InternalReserveExact(added: nat) returns (start: nat)
      requires Valid()
      requires added >= 1
      modifies this
      ensures Valid()
      ensures start == |old(entries)|
      ensures entries == old(entries) + FreshChain(start, added, old(nextFree))
      ensures nextFree == Some(start) && length == old(length)
    {
      start := |entries|;
      var grown := AppendFreshChain(entries, added, nextFree);
      ghost var chain := Range(start, start + added) + freeList;
      ReserveKeepsValid(entries, nextFree, freeList, length, added);
      entries, freeList, nextFree := grown, chain, Some(start);
    }

    /** `reserve_exact`: `internal_reserve_exact` without the result. */
    method ReserveExact(added: nat)
      requires Valid()
      requires added >= 1
      modifies this
      ensures Valid()
      ensures entries == old(entries) + FreshChain(|old(entries)|, added, old(nextFree))
      ensures nextFree == Some(|old(entries)|) && length == old(length)
    {
      var _ := InternalReserveExact(added);
    }

    /**
     * Occupies slot `index`, which must be the free-list head; the head moves to
     * that slot's link. On an occupied slot the source panics: the free-list
     * invariant rules that out.
     */
    method ForceInsertAt(index: nat, value: T) returns (id: Index)
      requires Valid()
      requires nextFree == Some(index)
      modifies this
      ensures Valid()
      ensures index < |old(entries)| && old(entries)[index].Free?
      ensures id == Index(index, old(entries)[index].nextGeneration)
      ensures entries == old(entries)[index := Occupied(id.generation, value)]
      ensures nextFree == old(entries)[index].nextFree
      ensures length == old(length) + 1
    {
      match entries[index]
      case Free(g, nf) =>
        PopKeepsChain(entries, freeList, Occupied(g, value));
        CountUpdate(entries, index, Occupied(g, value));
        entries := entries[index := Occupied(g, value)];
        nextFree := nf;
        length := length + 1;
        freeList := freeList[1..];
        id := Index(index, g);
      case Occupied(_, _) =>
        assert false;
    }

    /**
     * `push`: reuses the free-list head with the generation stored there, or, when
     * no slot is free, grows by max(capacity, 8) and fills the first new slot.
     */
    method Push(value: T) returns (id: Index)
      requires Valid()
      modifies this
      ensures Valid()
      ensures length == old(length) + 1
      ensures Live(entries, id) && entries[id.index].value == value
      ensures FillsOneSlot(old(entries), entries, id, value)
      ensures old(nextFree).Some? ==>
                && id == Index(old(nextFree).value, old(entries)[old(nextFree).value].nextGeneration)
                && entries == old(entries)[id.index := Occupied(id.generation, value)]
                && nextFree == old(entries)[id.index].nextFree
      ensures old(nextFree).None? ==>
                && id == Index(|old(entries)|, 0)
                && entries == (old(entries) + FreshChain(|old(entries)|, Max(|old(entries)|, MinReserve), None))
                                [id.index := Occupied(0, value)]
                && nextFree == Some(id.index + 1)
    {
      match nextFree
      case Some(head) =>
        id := ForceInsertAt(head, value);
      case None =>
        var head := InternalReserveExact(Max(|entries|, MinReserve));
        id := ForceInsertAt(head, value);
    }

    /**
     * `remove`: on a live handle frees the slot with the generation bumped by one,
     * pushes it on the free list and returns the value; otherwise changes nothing.
     */
    method Remove(id: Index) returns (r: Option<T>)
      requires Valid()
      modifies this
      ensures Valid()
      ensures r.Some? <==> Live(old(entries), id)
      ensures !Live(old(entries), id) ==>
                entries == old(entries) && nextFree == old(nextFree) && length == old(length)
      ensures Live(old(entries), id) ==>
                && r.value == old(entries)[id.index].value
                && entries == old(entries)[id.index := Free(id.generation + 1, old(nextFree))]
                && nextFree == Some(id.index)
                && length == old(length) - 1
    {
      if id.index < |entries| {
        match entries[id.index]
        case Free(_, _) =>
          return None;
        case Occupied(g, v) =>
          if g != id.generation {
            return None;
          }
          FreeKeepsChain(entries, nextFree, freeList, id.index, g + 1);
          CountUpdate(entries, id.index, Free(g + 1, nextFree));
          entries := entries[id.index := Free(g + 1, nextFree)];
          freeList := [id.index] + freeList;
          nextFree := Some(id.index);
          length := length - 1;
          r := Some(v);
      } else {
        r := None;
      }
    }

    /** `contains`: the handle is live. */
    function Contains(id: Index): (b: bool)
      reads this
      ensures b <==> Live(entries, id)
    {
      Get(id).Some?
    }

    /** `get`: the value of a live handle; None for a stale, free or out-of-bounds one. */
    function Get(id: Index): (r: Option<T>)
      reads this
      ensures r.Some? <==> Live(entries, id)
      ensures r.Some? ==> entries[id.index] == Occupied(id.generation, r.value)
    {
      if id.index < |entries| && entries[id.index].Occupied? then
        if entries[id.index].generation != id.generation then None else Some(entries[id.index].value)
      else None
    }

    /** `get_raw`: the value and live generation of an occupied slot, ignoring any handle generation. */
    function GetRaw(index: nat): (r: Option<(T, nat)>)
      reads this
      ensures r.Some? <==> index < |entries| && entries[index].Occupied?
      ensures r.Some? ==> Live(entries, Index(index, r.value.1)) && Get(Index(index, r.value.1)) == Some(r.value.0)
    {
      if index < |entries| && entries[index].Occupied? then
        Some((entries[index].value, entries[index].generation))
      else None
    }

    /**
     * `get_mut` followed by the caller's write through the returned reference:
     * on a live handle the value becomes `update` of it; otherwise nothing changes.
     */
    method GetMut(id: Index, update: T -> T) returns (found: bool)
      requires Valid()
      modifies this
      ensures Valid()
      ensures found <==> old(Get(id)).Some?
      ensures found ==> entries == old(entries)[id.index := Occupied(id.generation, update(old(entries)[id.index].value))]
      ensures !found ==> entries == old(entries)
      ensures nextFree == old(nextFree) && length == old(length)
    {
      if id.index < |entries| && entries[id.index].Occupied? && entries[id.index].generation == id.generation {
        CountUpdate(entries, id.index, Occupied(id.generation, update(entries[id.index].value)));
        entries := entries[id.index := Occupied(id.generation, update(entries[id.index].value))];
        found := true;
      } else {
        found := false;
      }
    }

    /**
     * `get_raw_mut` followed by the caller's write: on an occupied slot, whatever its
     * generation, the value becomes `update` of it and the live generation is returned.
     */
    method GetRawMut(index: nat, update: T -> T) returns (generation: Option<nat>)
      requires Valid()
      modifies this
      ensures Valid()
      ensures generation == (if index < |old(entries)| && old(entries)[index].Occupied?
                             then Some(old(entries)[index].generation) else None)
      ensures generation.Some? ==>
                entries == old(entries)[index := Occupied(generation.value, update(old(entries)[index].value))]
      ensures generation.None? ==> entries == old(entries)
      ensures nextFree == old(nextFree) && length == old(length)
    {
      if index < |entries| && entries[index].Occupied? {
        var g := entries[index].generation;
        CountUpdate(entries, index, Occupied(g, update(entries[index].value)));
        entries := entries[index := Occupied(g, update(entries[index].value))];
        generation := Some(g);
      } else {
        generation := None;
      }
    }

    /** `len`: the number of occupied slots. */
    function Len(): (n: nat)
      reads this
      requires Valid()
      ensures n == CountOccupied(entries) && n == |OccupiedItems(entries)|
    {
      OccupiedItemsSpec(entries);
      length
    }

    /** `is_empty`: no slot is occupied. */
    function IsEmpty(): (b: bool)
      reads this
      requires Valid()
      ensures b <==> OccupiedItems(entries) == []
    {
      OccupiedItemsSpec(entries);
      length == 0
    }

    /** `capacity`: the number of slots, free or occupied. */
    function Capacity(): (n: nat)
      reads this
      requires Valid()
      ensures n >= Len()
    {
      |entries|
    }

    /**
     * `clear`: every slot becomes free, occupied ones with their generation bumped,
     * linked in index order; nothing is occupied. The head is the corrected one:
     * the source installs slot 0 even when the arena has no slot.
     */
    method Clear()
      requires Valid()
      modifies this
      ensures Valid()
      ensures entries == ClearedEntries(old(entries))
      ensures length == 0 && nextFree == ClearedHead(|entries|)
    {
      var n := |entries|;
      ghost var before := entries;
      entries := ClearSlots(entries);
      ClearKeepsChain(before);
      ClearedEntriesAt(before);
      length := 0;
      nextFree := ClearedHead(n);
      freeList := Range(0, n);
    }
  }
}
