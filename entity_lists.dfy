/**
 * The entity list: a generational arena of pooled entities, the shared component
 * storage, and one presence bitset per component type, kept equal to "slot i is
 * occupied and its entity holds a key for that type".
 */
module EntityLists {
  import opened Wrappers
  import opened Arena
  import opened ArenaIter
  import opened Entities
  import opened Pooled

  type Slots<P> = seq<Entry<EntityRef<P>>>

  /** What the caller does through the reference `get_mut` returns: `add::<C>(v)` or `remove::<C>()`. */
  datatype Edit = Put(v: Payload) | Take

  /** Slot `i` is occupied by an entity holding a key for `k`. */
  predicate HasAt<P>(entries: Slots<P>, i: nat, k: Kind)
  {
    i < |entries| && entries[i].Occupied? && Key(entries[i].value, k).Some?
  }

  /** The bitset that `k`'s presence cache must equal: the slots whose entity holds a key for `k`. */
  function Presence<P>(entries: Slots<P>, k: Kind): (s: set<nat>)
    ensures forall i: nat :: i in s <==> HasAt(entries, i, k)
  {
    set i | 0 <= i < |entries| && HasAt(entries, i, k)
  }

  /** The presence of `k` among the first `n` slots. */
  ghost function PresenceBelow<P>(entries: Slots<P>, k: Kind, n: nat): set<nat>
  {
    set i | 0 <= i < n && HasAt(entries, i, k)
  }

  /**
   * One step of the scan: after counting slot `n` (when it holds `k`) and skipping the
   * free slots up to `m`, the collected set is the presence below `m`.
   */
  lemma PresenceBelowStep<P>(entries: Slots<P>, k: Kind, n: nat, m: nat, before: set<nat>, after: set<nat>)
    requires n < m <= |entries|
    requires forall j :: n < j < m ==> entries[j].Free?
    requires before == PresenceBelow(entries, k, n)
    requires after == before + (if HasAt(entries, n, k) then {n} else {})
    ensures after == PresenceBelow(entries, k, m)
  {
    forall i | i in PresenceBelow(entries, k, m)
      ensures i in after
    {
      if i < n {
        assert i in before;
      }
    }
  }

  /** Every key for `k` that an occupied slot holds is in `slab`. */
  ghost predicate KeysLiveFor<P>(entries: Slots<P>, k: Kind, slab: map<nat, Payload>)
  {
    forall i: nat :: HasAt(entries, i, k) ==> Key(entries[i].value, k).value in slab
  }

  /** No two occupied slots hold the same key for `k`. */
  ghost predicate KeysDistinctFor<P>(entries: Slots<P>, k: Kind)
  {
    forall i: nat, j: nat :: HasAt(entries, i, k) && HasAt(entries, j, k) && i != j ==>
      Key(entries[i].value, k).value != Key(entries[j].value, k).value
  }

  /** Every key of `before` except `except` is still in `after`. */
  ghost predicate SlabKeeps(before: map<nat, Payload>, after: map<nat, Payload>, except: Option<nat>)
  {
    forall key :: key in before && Some(key) != except ==> key in after
  }

  // ---------------------------------------------------------------------------
  // How the caches move when one slot changes
  // ---------------------------------------------------------------------------

  /** Overwriting slot `i` changes presence at `i` only. */
  lemma PresenceAfterUpdate<P>(entries: Slots<P>, i: nat, x: Entry<EntityRef<P>>, k: Kind)
    requires i < |entries|
    ensures Presence(entries[i := x], k) ==
              (Presence(entries, k) - {i}) + (if x.Occupied? && Key(x.value, k).Some? then {i} else {})
  {
    var l := Presence(entries[i := x], k);
    var r := (Presence(entries, k) - {i}) + (if x.Occupied? && Key(x.value, k).Some? then {i} else {});
    forall j: nat
      ensures j in l <==> j in r
    {
      if j != i {
        assert HasAt(entries[i := x], j, k) <==> HasAt(entries, j, k);
      }
    }
  }

  /** Filling one slot (possibly after growth) adds that slot's presence and nothing else. */
  lemma PresenceAfterFill<P>(before: Slots<P>, after: Slots<P>, id: Index, v: EntityRef<P>, k: Kind)
    requires FillsOneSlot(before, after, id, v)
    ensures Presence(after, k) == Presence(before, k) + (if Key(v, k).Some? then {id.index} else {})
  {
    var l := Presence(after, k);
    var r := Presence(before, k) + (if Key(v, k).Some? then {id.index} else {});
    forall j: nat
      ensures j in l <==> j in r
    {
      if j != id.index && j < |before| {
        assert after[j] == before[j];
      }
    }
  }

  /**
   * Keys stay live and distinct when slot `i`'s entity is replaced by one whose key for
   * `k` is its old key or a key the slab did not hold, and the slab keeps every key
   * but, at most, the old key of slot `i`.
   */
  lemma ReplaceKeepsKeys<P>(entries: Slots<P>, i: nat, g: nat, v: EntityRef<P>, k: Kind,
                            before: map<nat, Payload>, after: map<nat, Payload>)
    requires i < |entries| && entries[i].Occupied?
    requires KeysLiveFor(entries, k, before) && KeysDistinctFor(entries, k)
    requires SlabKeeps(before, after, Key(entries[i].value, k))
    requires Key(v, k).Some? ==> Key(v, k).value in after
    requires Key(v, k).Some? ==> Key(v, k) == Key(entries[i].value, k) || Key(v, k).value !in before
    ensures KeysLiveFor(entries[i := Occupied(g, v)], k, after)
    ensures KeysDistinctFor(entries[i := Occupied(g, v)], k)
  {
    var e := entries[i := Occupied(g, v)];
    forall j: nat | HasAt(e, j, k)
      ensures Key(e[j].value, k).value in after
    {
      if j != i {
        assert HasAt(entries, j, k);
      }
    }
    forall j1: nat, j2: nat | HasAt(e, j1, k) && HasAt(e, j2, k) && j1 != j2
      ensures Key(e[j1].value, k).value != Key(e[j2].value, k).value
    {
      if j1 != i && j2 != i {
        assert HasAt(entries, j1, k) && HasAt(entries, j2, k);
      } else if j1 == i {
        assert HasAt(entries, j2, k);
      } else {
        assert HasAt(entries, j1, k);
      }
    }
  }

  /** Keys stay live and distinct when slot `i` is freed and its key for `k` leaves the slab. */
  lemma FreeKeepsKeys<P>(entries: Slots<P>, i: nat, x: Entry<EntityRef<P>>, k: Kind,
                         before: map<nat, Payload>, after: map<nat, Payload>)
    requires i < |entries| && entries[i].Occupied? && x.Free?
    requires KeysLiveFor(entries, k, before) && KeysDistinctFor(entries, k)
    requires SlabKeeps(before, after, Key(entries[i].value, k))
    ensures KeysLiveFor(entries[i := x], k, after)
    ensures KeysDistinctFor(entries[i := x], k)
  {
    var e := entries[i := x];
    forall j: nat | HasAt(e, j, k)
      ensures Key(e[j].value, k).value in after
    {
      assert HasAt(entries, j, k) && HasAt(entries, i, k) ==> j != i;
    }
    forall j1: nat, j2: nat | HasAt(e, j1, k) && HasAt(e, j2, k) && j1 != j2
      ensures Key(e[j1].value, k).value != Key(e[j2].value, k).value
    {
      assert HasAt(entries, j1, k) && HasAt(entries, j2, k);
    }
  }

  /** Keys stay live and distinct when a slot is filled with an entity whose keys the slab did not hold. */
  lemma FillKeepsKeys<P>(before: Slots<P>, after: Slots<P>, id: Index, v: EntityRef<P>, k: Kind,
                         slabBefore: map<nat, Payload>, slabAfter: map<nat, Payload>)
    requires FillsOneSlot(before, after, id, v)
    requires KeysLiveFor(before, k, slabBefore) && KeysDistinctFor(before, k)
    requires SlabKeeps(slabBefore, slabAfter, None)
    requires Key(v, k).Some? ==> Key(v, k).value in slabAfter && Key(v, k).value !in slabBefore
    ensures KeysLiveFor(after, k, slabAfter)
    ensures KeysDistinctFor(after, k)
  {
    forall j: nat | HasAt(after, j, k)
      ensures Key(after[j].value, k).value in slabAfter
    {
      if j != id.index {
        assert HasAt(before, j, k);
      }
    }
    forall j1: nat, j2: nat | HasAt(after, j1, k) && HasAt(after, j2, k) && j1 != j2
      ensures Key(after[j1].value, k).value != Key(after[j2].value, k).value
    {
      if j1 != id.index && j2 != id.index {
        assert HasAt(before, j1, k) && HasAt(before, j2, k);
      } else if j1 == id.index {
        assert HasAt(before, j2, k);
      } else {
        assert HasAt(before, j1, k);
      }
    }
  }

  /**
   * Replacing slot `i`'s entity by one that differs at most in its key for `k`, where
   * the new key is the old one or fresh and only the slab of `k` may lose the old key,
   * keeps every key live and unshared, and changes presence only for `k` at `i`.
   */
  lemma EditKeepsCaches<P>(entries: Slots<P>, i: nat, g: nat, v: EntityRef<P>, k: Kind, edited: Slots<P>,
                           before: map<Kind, map<nat, Payload>>, after: map<Kind, map<nat, Payload>>)
    requires i < |entries| && entries[i].Occupied? && edited == entries[i := Occupied(g, v)]
    requires forall j: Kind :: j in before && j in after
    requires forall j: Kind :: KeysLiveFor(entries, j, before[j]) && KeysDistinctFor(entries, j)
    requires KeysUntouched(entries[i].value, v, k)
    requires forall j: Kind :: j != k ==> after[j] == before[j]
    requires SlabKeeps(before[k], after[k], Key(entries[i].value, k))
    requires Key(v, k).Some? ==> Key(v, k).value in after[k]
    requires Key(v, k).Some? ==> Key(v, k) == Key(entries[i].value, k) || Key(v, k).value !in before[k]
    ensures forall j: Kind :: KeysLiveFor(edited, j, after[j]) && KeysDistinctFor(edited, j)
    ensures forall j: Kind :: j != k ==> Presence(edited, j) == Presence(entries, j)
    ensures Presence(edited, k) == (Presence(entries, k) - {i}) + (if Key(v, k).Some? then {i} else {})
  {
    forall j: Kind
      ensures KeysLiveFor(edited, j, after[j]) && KeysDistinctFor(edited, j)
      ensures Presence(edited, j) == (Presence(entries, j) - {i}) + (if Key(v, j).Some? then {i} else {})
    {
      PresenceAfterUpdate(entries, i, Occupied(g, v), j);
      ReplaceKeepsKeys(entries, i, g, v, j, before[j], after[j]);
    }
    forall j: Kind | j != k
      ensures Presence(edited, j) == Presence(entries, j)
    {
      assert HasAt(entries, i, j) <==> Key(v, j).Some?;
    }
  }

  /** The bit loop of `insert`: sets bit `i` in the bitset of each listed type that has one. */
  method AddBit(bitsets: map<Kind, set<nat>>, kinds: seq<Kind>, i: nat) returns (r: map<Kind, set<nat>>)
    ensures r.Keys == bitsets.Keys
    ensures forall k :: k in r ==> r[k] == bitsets[k] + (if k in kinds then {i} else {})
  {
    r := bitsets;
    var n := 0;
    while n < |kinds|
      invariant 0 <= n <= |kinds|
      invariant r.Keys == bitsets.Keys
      invariant forall k :: k in r ==> r[k] == bitsets[k] + (if k in kinds[..n] then {i} else {})
    {
      if kinds[n] in r {
        r := r[kinds[n] := r[kinds[n]] + {i}];
      }
      assert kinds[..n + 1] == kinds[..n] + [kinds[n]];
      n := n + 1;
    }
    assert kinds[..n] == kinds;
  }

  /** The bit loop of `remove`: clears bit `i` in the bitset of each listed type that has one. */
  method ClearBit(bitsets: map<Kind, set<nat>>, kinds: seq<Kind>, i: nat) returns (r: map<Kind, set<nat>>)
    ensures r.Keys == bitsets.Keys
    ensures forall k :: k in r ==> r[k] == bitsets[k] - (if k in kinds then {i} else {})
  {
    r := bitsets;
    var n := 0;
    while n < |kinds|
      invariant 0 <= n <= |kinds|
      invariant r.Keys == bitsets.Keys
      invariant forall k :: k in r ==> r[k] == bitsets[k] - (if k in kinds[..n] then {i} else {})
    {
      if kinds[n] in r {
        r := r[kinds[n] := r[kinds[n]] - {i}];
      }
      assert kinds[..n + 1] == kinds[..n] + [kinds[n]];
      n := n + 1;
    }
    assert kinds[..n] == kinds;
  }

  /**
   * The bit loop of `refresh`: for each (type, present) pair, in declaration order,
   * sets bit `i` of that type's bitset when present and clears it otherwise.
   */
  method SetBitByFlags(bitsets: map<Kind, set<nat>>, flags: seq<(Kind, bool)>, i: nat) returns (r: map<Kind, set<nat>>)
    requires |flags| == |AllKinds|
    requires forall j :: 0 <= j < |flags| ==> flags[j].0 == AllKinds[j]
    ensures r.Keys == bitsets.Keys
    ensures forall k :: k in r ==> r[k] == (bitsets[k] - {i}) + (if flags[Ord(k)].1 then {i} else {})
  {
    r := bitsets;
    var n := 0;
    while n < |flags|
      invariant 0 <= n <= |flags|
      invariant r.Keys == bitsets.Keys
      invariant forall k :: k in r ==>
                  r[k] == if Ord(k) < n then (bitsets[k] - {i}) + (if flags[Ord(k)].1 then {i} else {}) else bitsets[k]
    {
      var (k, present) := flags[n];
      assert Ord(k) == n by { assert AllComponents()[n] == k; }
      if k in r {
        r := r[k := if present then r[k] + {i} else r[k] - {i}];
      }
      n := n + 1;
    }
  }

  /**
   * The scan of `add_bitset_for_component`: iterates the arena and collects the
   * position of every entity for which `has::<C>()` holds. With every held key live
   * this is exactly the presence of `k`.
   */
  method CollectPresence<P>(arena: GenArena<EntityRef<P>>, storage: ComponentsStorage, k: Kind) returns (bs: set<nat>)
    requires arena.Valid()
    requires KeysLiveFor(arena.entries, k, storage.Slab(k))
    ensures bs == Presence(arena.entries, k)
  {
    var it := new Iter(arena);
    bs := ScanPresence(it, storage, k);
  }

  /** The loop of `CollectPresence`, run on a fresh iterator over the arena's slots. */
  method ScanPresence<P>(it: Iter<EntityRef<P>>, storage: ComponentsStorage, k: Kind) returns (bs: set<nat>)
    requires it.Valid() && it.curr == 0
    requires KeysLiveFor(it.entries, k, storage.Slab(k))
    modifies it
    ensures bs == Presence(it.entries, k)
  {
    ghost var entries := it.entries;
    bs := {};
    var r := it.Next();
    ghost var done: nat := if r.Some? then r.value.0.index else it.curr;
    while r.Some?
      invariant it.Valid() && it.entries == entries
      invariant done <= it.curr
      invariant r.None? ==> done == it.curr == |entries|
      invariant r.Some? ==> done == r.value.0.index && it.curr == done + 1
      invariant r.Some? ==> entries[done] == Occupied(r.value.0.generation, r.value.1)
      invariant bs == PresenceBelow(entries, k, done)
      decreases |entries| - it.curr, r.Some?
    {
      ghost var d0 := done;
      ghost var bs0 := bs;
      assert HasAt(entries, d0, k) <==> storage.RefGet(r.value.1, k).Some?;
      if storage.RefGet(r.value.1, k).Some? {
        bs := bs + {r.value.0.index};
      }
      r := it.Next();
      done := if r.Some? then r.value.0.index else it.curr;
      PresenceBelowStep(entries, k, d0, done, bs0, bs);
    }
    assert PresenceBelow(entries, k, |entries|) == Presence(entries, k);
  }

  /**
   * The write through `get_mut`'s reference on the pooled entity `e`: `add::<C>(v)` or
   * `remove::<C>()`. The slab of `k` loses at most `e`'s key, and a key the edited
   * entity holds is either `e`'s own or one the slab did not hold.
   */
  method ApplyEdit<P>(storage: ComponentsStorage, e: EntityRef<P>, k: Kind, edit: Edit) returns (e2: EntityRef<P>, taken: Option<Payload>)
    requires storage.Valid()
    requires Key(e, k).Some? ==> Key(e, k).value in storage.Slab(k)
    modifies storage
    ensures storage.Valid() && storage.OthersUnchanged(k)
    ensures KeysUntouched(e, e2, k)
    ensures storage.RefGet(e2, k) == (if edit.Put? then Some(edit.v) else None)
    ensures Key(e2, k).Some? <==> edit.Put?
    ensures taken == (if edit.Put? then None else old(storage.RefGet(e, k)))
    ensures SlabKeeps(old(storage.Slab(k)), storage.Slab(k), Key(e, k))
    ensures Key(e2, k).Some? ==> Key(e2, k) == Key(e, k) || Key(e2, k).value !in old(storage.Slab(k))
    ensures edit.Put? ==> storage.Slab(k) == old(storage.Slab(k))[Key(e2, k).value := edit.v]
    ensures edit.Take? ==> storage.Slab(k) == old(storage.Slab(k)) - (if Key(e, k).Some? then {Key(e, k).value} else {})
  {
    match edit {
      case Put(v) =>
        e2 := storage.RefSet(e, k, v);
        taken := None;
      case Take =>
        e2, taken := storage.RefRemove(e, k);
    }
  }

  class EntityList<P> {
    /** One presence bitset per registered component type. */
    var bitsets: map<Kind, set<nat>>
    const entities: GenArena<EntityRef<P>>
    /** The shared component storage (`Rc<UnsafeCell<CS>>` in the source). */
    const storage: ComponentsStorage

    /** The arena and the storage are well formed, every type has a bitset, and held keys are live and unshared. */
    ghost predicate Sound()
      reads this, entities, storage
    {
      && entities.Valid()
      && storage.Valid()
      && (forall k: Kind :: k in bitsets)
      && (forall k: Kind :: KeysLiveFor(entities.entries, k, storage.Slab(k)))
      && (forall k: Kind :: KeysDistinctFor(entities.entries, k))
    }

    /** Each bitset is exactly the presence of its component type. */
    ghost predicate Synced()
      reads this, entities
    {
      forall k :: k in bitsets ==> bitsets[k] == Presence(entities.entries, k)
    }

    /** The bitsets are right everywhere except, possibly, at slot `i`. */
    ghost predicate SyncedExcept(i: nat)
      reads this, entities
    {
      forall k :: k in bitsets ==> bitsets[k] - {i} == Presence(entities.entries, k) - {i}
    }

    ghost predicate Valid()
      reads this, entities, storage
    {
      Sound() && Synced()
    }

    /** `EntityList::new`: an empty default arena, empty slabs and an empty bitset per component type. */
    constructor ()
      ensures Valid() && fresh(entities) && fresh(storage)
      ensures entities.length == 0 && entities.entries == FreshChain(0, DefaultArenaCapacity, None)
      ensures forall k: Kind :: bitsets[k] == {} && storage.Slab(k) == map[]
    {
      entities := new GenArena.New();
      storage := new ComponentsStorage();
      bitsets := map[];
      new;
      InitBitsets();
      CountAllFree(entities.entries);
    }

    /** `init_bitsets`: an empty bitset for every declared component type. */
    method InitBitsets()
      modifies this
      ensures forall k: Kind :: k in bitsets && bitsets[k] == {}
    {
      var kinds := AllComponents();
      var i := 0;
      while i < |kinds|
        invariant 0 <= i <= |kinds|
        invariant forall j :: 0 <= j < i ==> kinds[j] in bitsets && bitsets[kinds[j]] == {}
      {
        bitsets := bitsets[kinds[i] := {}];
        i := i + 1;
      }
      forall k: Kind
        ensures k in bitsets && bitsets[k] == {}
      {
        assert kinds[Ord(k)] == k;
      }
    }

    /**
     * `insert`: moves the entity's components into the slabs, pushes the pooled entity
     * into the arena and sets its slot's bit in exactly the bitsets of the components
     * it has. Returns the arena handle.
     */
    method Insert(owned: Entity<P>) returns (id: Index)
      requires Sound()
      modifies this, entities, storage
      ensures Sound()
      ensures old(Synced()) ==> Synced()
      ensures Live(entities.entries, id) && !Live(old(entities.entries), id)
      ensures FillsOneSlot(old(entities.entries), entities.entries, id, entities.entries[id.index].value)
      ensures entities.length == old(entities.length) + 1
      ensures entities.entries[id.index].value.props == owned.props
      ensures forall k: Kind :: storage.RefGet(entities.entries[id.index].value, k) == Entities.Get(owned, k)
      ensures forall k: Kind :: bitsets[k] == old(bitsets[k]) + (if Has(owned, k) then {id.index} else {})
    {
      var kinds := ActiveComponents(owned);
      ghost var entries0 := entities.entries;
      ghost var slabs0 := map j: Kind | true :: storage.Slab(j);
      var stored := storage.FromOwned(owned);
      id := entities.Push(stored);
      var bs := AddBit(bitsets, kinds, id.index);
      bitsets := bs;
      ghost var entries1 := entities.entries;
      forall k: Kind
        ensures bitsets[k] == old(bitsets[k]) + (if Key(stored, k).Some? then {id.index} else {})
        ensures Presence(entries1, k) == Presence(entries0, k) + (if Key(stored, k).Some? then {id.index} else {})
        ensures KeysLiveFor(entries1, k, storage.Slab(k)) && KeysDistinctFor(entries1, k)
      {
        PresenceAfterFill(entries0, entries1, id, stored, k);
        FillKeepsKeys(entries0, entries1, id, stored, k, slabs0[k], storage.Slab(k));
      }
      assert entities.Valid() && storage.Valid() && forall k: Kind :: k in bitsets;
    }

    /**
     * `refresh`: on a live handle makes bit `id.index` of every bitset equal to whether
     * the entity holds a key for that type, which re-synchronises the caches after an
     * edit through `get_mut`; on a stale handle changes nothing.
     */
    method Refresh(id: Index)
      requires Sound()
      modifies this
      ensures Sound()
      ensures !Live(entities.entries, id) ==> bitsets == old(bitsets)
      ensures Live(entities.entries, id) ==>
                forall k: Kind :: bitsets[k] == (old(bitsets[k]) - {id.index}) + (if HasAt(entities.entries, id.index, k) then {id.index} else {})
      ensures Live(entities.entries, id) && old(SyncedExcept(id.index)) ==> Synced()
      ensures old(Synced()) ==> Synced()
    {
      var found := entities.Get(id);
      if found.Some? {
        var flags := RefComponentFlags(found.value);
        var bs := SetBitByFlags(bitsets, flags, id.index);
        bitsets := bs;
        forall k: Kind
          ensures bitsets[k] == (old(bitsets[k]) - {id.index}) + (if HasAt(entities.entries, id.index, k) then {id.index} else {})
        {
          assert AllKinds[Ord(k)] == k by { assert AllComponents()[Ord(k)] == k; }
        }
      }
    }

    /** `get`: the pooled entity of a live handle. */
    function Get(id: Index): (r: Option<EntityRef<P>>)
      reads this, entities
      ensures r.Some? <==> Live(entities.entries, id)
      ensures r.Some? ==> entities.entries[id.index] == Occupied(id.generation, r.value)
    {
      entities.Get(id)
    }

    /** `contains`: whether the handle is live. */
    function Contains(id: Index): (b: bool)
      reads this, entities
      ensures b <==> Live(entities.entries, id)
    {
      entities.Contains(id)
    }

    /** `len`: the number of entities, that is of occupied slots. */
    function Len(): (n: nat)
      reads this, entities, storage
      requires Sound()
      ensures n == |OccupiedItems(entities.entries)|
    {
      entities.Len()
    }

    /**
     * `get_mut` followed by `add::<C>(v)` (`Put(v)`) or `remove::<C>()` (`Take`) on the
     * pooled entity, without `refresh`. On a live handle the entity's `k` component
     * becomes `v` or absent, the payload moves through the slab, and only the presence
     * of `k` at `id.index` can change, so the bitsets may be stale at that one slot.
     * On a stale handle nothing changes. The bitsets themselves are never touched.
     */
    method EditThroughGetMut(id: Index, k: Kind, edit: Edit) returns (found: bool, taken: Option<Payload>)
      requires Sound()
      modifies entities, storage
      ensures Sound()
      ensures found <==> old(Live(entities.entries, id))
      ensures !found ==> entities.entries == old(entities.entries) && taken.None?
      ensures !found ==> forall j: Kind :: storage.Slab(j) == old(storage.Slab(j))
      ensures |entities.entries| == old(|entities.entries|)
      ensures found ==>
                var e := old(entities.entries[id.index].value);
                && entities.entries[id.index].Occupied?
                && entities.entries == old(entities.entries)[id.index := Occupied(id.generation, entities.entries[id.index].value)]
                && KeysUntouched(e, entities.entries[id.index].value, k)
                && storage.RefGet(entities.entries[id.index].value, k) == (if edit.Put? then Some(edit.v) else None)
                && taken == (if edit.Put? then None else old(storage.RefGet(e, k)))
                && (forall j: Kind :: j != k ==> storage.Slab(j) == old(storage.Slab(j)))
                && (edit.Take? ==> storage.Slab(k) == old(storage.Slab(k)) - (if Key(e, k).Some? then {Key(e, k).value} else {}))
      ensures entities.length == old(entities.length)
      ensures forall j: Kind :: j != k ==> Presence(entities.entries, j) == old(Presence(entities.entries, j))
      ensures found ==> Presence(entities.entries, k) ==
                          (old(Presence(entities.entries, k)) - {id.index}) + (if edit.Put? then {id.index} else {})
      ensures !found ==> Presence(entities.entries, k) == old(Presence(entities.entries, k))
      ensures old(Synced()) ==> SyncedExcept(id.index)
    {
      if !entities.Contains(id) {
        return false, None;
      }
      taken := EditLive(id, k, edit);
      found := true;
    }

    /** The live-handle case of `EditThroughGetMut`. */
    method EditLive(id: Index, k: Kind, edit: Edit) returns (taken: Option<Payload>)
      requires Sound() && Live(entities.entries, id)
      modifies entities, storage
      ensures Sound()
      ensures |entities.entries| == old(|entities.entries|) && entities.length == old(entities.length)
      ensures entities.entries[id.index].Occupied?
      ensures entities.entries == old(entities.entries)[id.index := Occupied(id.generation, entities.entries[id.index].value)]
      ensures KeysUntouched(old(entities.entries[id.index].value), entities.entries[id.index].value, k)
      ensures storage.RefGet(entities.entries[id.index].value, k) == (if edit.Put? then Some(edit.v) else None)
      ensures taken == (if edit.Put? then None else old(storage.RefGet(entities.entries[id.index].value, k)))
      ensures forall j: Kind :: j != k ==> storage.Slab(j) == old(storage.Slab(j))
      ensures edit.Take? ==>
                var held := old(Key(entities.entries[id.index].value, k));
                storage.Slab(k) == old(storage.Slab(k)) - (if held.Some? then {held.value} else {})
      ensures forall j: Kind :: j != k ==> Presence(entities.entries, j) == old(Presence(entities.entries, j))
      ensures Presence(entities.entries, k) ==
                (old(Presence(entities.entries, k)) - {id.index}) + (if edit.Put? then {id.index} else {})
    {
      ghost var entries0 := entities.entries;
      var e := entities.entries[id.index].value;
      var e2;
      e2, taken := ApplyEdit(storage, e, k, edit);
      var updated := entities.GetMut(id, _ => e2);
      ghost var before := map j: Kind | true :: old(storage.Slab(j));
      ghost var after := map j: Kind | true :: storage.Slab(j);
      EditKeepsCaches(entries0, id.index, id.generation, e2, k, entities.entries, before, after);
      assert forall j: Kind :: after[j] == storage.Slab(j);
      assert forall j: Kind :: KeysLiveFor(entities.entries, j, storage.Slab(j)) && KeysDistinctFor(entities.entries, j);
    }

    /**
     * `add_component_for_entity`: on a live handle sets the entity's `k` component to
     * `v` (through the slab), sets bit `id.index` of `k`'s bitset and returns None;
     * on a stale handle hands `v` back and changes nothing.
     */
    method AddComponentForEntity(id: Index, k: Kind, v: Payload) returns (r: Option<Payload>)
      requires Sound()
      modifies this, entities, storage
      ensures Sound()
      ensures old(Synced()) ==> Synced()
      ensures old(SyncedExcept(id.index)) ==> SyncedExcept(id.index)
      ensures r.None? <==> old(Live(entities.entries, id))
      ensures r.Some? ==>
                && r.value == v && bitsets == old(bitsets) && entities.entries == old(entities.entries)
                && forall j: Kind :: storage.Slab(j) == old(storage.Slab(j))
      ensures |entities.entries| == old(|entities.entries|)
      ensures r.None? ==>
                && entities.entries[id.index].Occupied?
                && entities.entries == old(entities.entries)[id.index := Occupied(id.generation, entities.entries[id.index].value)]
                && KeysUntouched(old(entities.entries[id.index].value), entities.entries[id.index].value, k)
                && storage.RefGet(entities.entries[id.index].value, k) == Some(v)
                && bitsets == old(bitsets)[k := old(bitsets[k]) + {id.index}]
    {
      var found, _ := EditThroughGetMut(id, k, Put(v));
      if found {
        bitsets := bitsets[k := bitsets[k] + {id.index}];
        r := None;
      } else {
        r := Some(v);
      }
    }

    /**
     * `remove_component_for_entity`: returns the payload exactly when the handle is live
     * and the entity has a `k` component, and only then clears bit `id.index` of `k`'s
     * bitset; the entity is left without `k` and the payload leaves the slab.
     */
    method RemoveComponentForEntity(id: Index, k: Kind) returns (r: Option<Payload>)
      requires Sound()
      modifies this, entities, storage
      ensures Sound()
      ensures old(Synced()) ==> Synced()
      ensures old(SyncedExcept(id.index)) ==> SyncedExcept(id.index)
      ensures r.Some? <==> old(Live(entities.entries, id) && HasAt(entities.entries, id.index, k))
      ensures r.Some? ==>
                && r == old(storage.RefGet(entities.entries[id.index].value, k))
                && bitsets == old(bitsets)[k := old(bitsets[k]) - {id.index}]
                && storage.Slab(k) == old(storage.Slab(k)) - {old(Key(entities.entries[id.index].value, k)).value}
      ensures r.None? ==> bitsets == old(bitsets) && Presence(entities.entries, k) == old(Presence(entities.entries, k))
      ensures |entities.entries| == old(|entities.entries|)
      ensures old(Live(entities.entries, id)) ==>
                && entities.entries[id.index].Occupied?
                && Key(entities.entries[id.index].value, k).None?
                && KeysUntouched(old(entities.entries[id.index].value), entities.entries[id.index].value, k)
      ensures !old(Live(entities.entries, id)) ==> entities.entries == old(entities.entries)
    {
      var found, taken := EditThroughGetMut(id, k, Take);
      if taken.Some? {
        bitsets := bitsets[k := bitsets[k] - {id.index}];
      }
      r := taken;
    }

    /**
     * `add_bitset_for_component`: scans the arena and installs, for `k`, the bitset of
     * the slots whose entity has `k`, replacing any bitset `k` had; other bitsets are
     * untouched.
     */
    method AddBitsetForComponent(k: Kind)
      requires Sound()
      modifies this
      ensures Sound()
      ensures bitsets == old(bitsets)[k := Presence(entities.entries, k)]
      ensures old(Synced()) ==> Synced()
    {
      var bs := CollectPresence(entities, storage, k);
      bitsets := bitsets[k := bs];
    }

    /**
     * `remove`: on a live handle frees the slot, clears the slot's bit in every bitset
     * and moves the entity's payloads out of the slabs into the returned owned entity;
     * on a stale handle changes nothing.
     */
    method Remove(id: Index) returns (r: Option<Entity<P>>)
      requires Sound()
      modifies this, entities, storage
      ensures Sound()
      ensures old(Synced()) ==> Synced()
      ensures old(SyncedExcept(id.index)) ==> SyncedExcept(id.index)
      ensures r.Some? <==> old(Live(entities.entries, id))
      ensures r.None? ==>
                && bitsets == old(bitsets) && entities.entries == old(entities.entries)
                && forall k: Kind :: storage.Slab(k) == old(storage.Slab(k))
      ensures r.Some? ==>
                var e := old(entities.entries[id.index].value);
                && r.value.props == e.props
                && (forall k: Kind :: Entities.Get(r.value, k) == old(storage.RefGet(e, k)))
                && entities.entries == old(entities.entries)[id.index := Free(id.generation + 1, old(entities.nextFree))]
                && entities.length == old(entities.length) - 1
                && (forall k: Kind :: bitsets[k] == old(bitsets[k]) - (if Key(e, k).Some? then {id.index} else {}))
                && (forall k: Kind :: Key(e, k).Some? ==> storage.Slab(k) == old(storage.Slab(k)) - {Key(e, k).value})
                && (forall k: Kind :: Key(e, k).None? ==> storage.Slab(k) == old(storage.Slab(k)))
    {
      ghost var entries0 := entities.entries;
      var removed := entities.Remove(id);
      match removed
      case None =>
        r := None;
      case Some(e) =>
        var kinds := RefActiveComponents(e);
        var bs := ClearBit(bitsets, kinds, id.index);
        bitsets := bs;
        assert forall k: Kind :: Key(e, k).Some? ==> HasAt(entries0, id.index, k);
        ghost var slabs0 := map j: Kind | true :: storage.Slab(j);
        var owned := storage.ToOwned(e);
        r := Some(owned);
        ghost var entries1 := entities.entries;
        forall k: Kind
          ensures Presence(entries1, k) == Presence(entries0, k) - {id.index}
          ensures bitsets[k] == old(bitsets[k]) - (if Key(e, k).Some? then {id.index} else {})
          ensures old(bitsets[k]) == Presence(entries0, k) ==> bitsets[k] == Presence(entries1, k)
          ensures old(bitsets[k]) - {id.index} == Presence(entries0, k) - {id.index} ==>
                    bitsets[k] - {id.index} == Presence(entries1, k) - {id.index}
          ensures KeysLiveFor(entries1, k, storage.Slab(k)) && KeysDistinctFor(entries1, k)
        {
          PresenceAfterUpdate(entries0, id.index, entries1[id.index], k);
          FreeKeepsKeys(entries0, id.index, entries1[id.index], k, slabs0[k], storage.Slab(k));
        }
        assert entities.Valid() && storage.Valid() && forall k: Kind :: k in bitsets;
    }
  }
}
