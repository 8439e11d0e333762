# smec entity store, modelled in Dafny

smec keeps entities in an `EntityList`. The list combines three things:

- **A generational arena** (`GenArena`). This is a growable vector of slots. A slot is either free or occupied. The free slots form a LIFO free list. Each slot has a generation that goes up by one every time its value is removed. A handle (`Index`) names a slot and a generation, so a handle to a removed value no longer resolves.
- **A component storage**. There is one slab per component type. An entity in the list keeps only slab keys, so it is "pooled". An entity outside the list carries its components itself, so it is "owned".
- **Presence bitsets**. There is one per component type. The bitset of type `C` holds the slots whose entity has a `C`.

Queries intersect these bitsets and return the matching entities in slot order.

This project models that core as follows:

- `arena.dfy` (module `Arena`): the arena as a class `GenArena` with its slot vector, free-list head and counter. The invariant `Valid` says that the counter counts the occupied slots and that a ghost chain is exactly the free list. Every operation keeps that invariant. The iteration order is given by a function, `OccupiedItems`, and the lemmas beside it prove that this order is sound, sorted and complete.
- `arena_iter.dfy` (module `ArenaIter`): the arena's `Iter` and `IterMut` iterators, as classes with a cursor. Each `next` is proved against `OccupiedItems`.
- `entities.dfy` (module `Entities`): the owned entity and the operations that the component traits and `EntityOwnedBase` give it. These are pure values and functions. Algebraic lemmas relate them.
- `pooled.dfy` (module `Pooled`): the pooled entity and the `ComponentsStorage` class, with its slabs. The class implements the `Component` operations on a pooled entity, plus `from_owned` and `to_owned`, and proves that `to_owned(from_owned(x)) == x`.
- `entity_lists.dfy` (module `EntityLists`): the `EntityList` class. Its invariant `Sound` says that every key an entity holds is live in its slab and held by no other entity. `Synced` says that every bitset equals the presence set it caches. The file proves that each operation keeps these invariants, except a write through `get_mut`, which can leave one slot stale until `refresh`.
- `queries.dfy` (module `Queries`): bitset intersection for a tuple of component types, and the two query iterators. Each is proved to yield exactly the selected occupied slots, in increasing order. The file also covers the entry points `iter`, `iter_mut`, `iter_all` and `iter_all_mut`.
- `scenarios.dfy` (module `Scenarios`): tests from the repository, written as client code. Each one's `ensures` states what the test asserts.
- `wrappers.dfy` (module `Wrappers`): `Option`.

In the model:

- Component types are the enumeration `Kind = A | B | C`.
- Component payloads are `int`.
- Entity properties are a type parameter `P`.

## Model

| member | source | states |
|---|---|---|
| Arena.CountOccupied | src/genarena/mod.rs:21-35 | the number of occupied slots, which `length` tracks, never exceeds the number of slots |
| Arena.ClearedHead | src/genarena/mod.rs:159-161 | the corrected head after `clear` is a slot in bounds exactly when the arena has a slot |
| Arena.CountAppend | src/genarena/mod.rs:123-132 | the occupied count of two concatenated slot vectors is the sum of their counts |
| Arena.CountAllFree | src/genarena/mod.rs:123-132 | slots that are all free count zero occupied |
| Arena.CountUpdate | src/genarena/mod.rs:167-216 | overwriting one slot changes the count by exactly what the old and new slot contribute |
| Arena.ReserveKeepsChain | src/genarena/mod.rs:123-132 | reserving puts the new slots, in index order, in front of the old free list, and the result is still the complete free list |
| Arena.ReserveKeepsValid | src/genarena/mod.rs:123-132 | reserving keeps the arena invariant: the count is unchanged and the free list heads at the first new slot |
| Arena.PopKeepsChain | src/genarena/mod.rs:167-177 | occupying the free-list head leaves the rest of the list as the free list, headed by the link stored in that slot |
| Arena.FreeKeepsChain | src/genarena/mod.rs:195-216 | freeing an occupied slot and linking it to the old head gives a free list with that slot first |
| Arena.ClearKeepsChain | src/genarena/mod.rs:139-162 | after the corrected `clear`, the free list visits every slot in index order |
| Arena.ClearedEntriesAt | src/genarena/mod.rs:139-162 | after `clear` nothing is occupied, no handle is live and every occupied slot's generation has gone up by one |
| Arena.ClearAsWrittenDanglesOnEmpty | src/genarena/mod.rs:159-161 | on an arena with no slot, the head `clear` installs as written is out of bounds, and the corrected head is not |
| Arena.OccupiedItemsPrefix | src/genarena/iter.rs:31-42 | extending the visited prefix by one slot appends that slot's item if the slot is occupied, and nothing otherwise |
| Arena.OccupiedItemsSound | src/genarena/iter.rs:31-42 | every item the iteration yields is an occupied slot, with that slot's live generation and value |
| Arena.OccupiedItemsSorted | src/genarena/iter.rs:31-42 | the iteration yields slots in strictly increasing position |
| Arena.OccupiedItemsComplete | src/genarena/iter.rs:31-42 | every occupied slot is yielded |
| Arena.OccupiedItemsCount | src/genarena/iter.rs:44-54 | the iteration yields as many items as the occupied counter counts |
| Arena.OccupiedItemsSpec | src/genarena/iter.rs:31-54 | the four properties above together |
| Arena.ClearSlots | src/genarena/mod.rs:149-158 | the loop of `clear` produces the cleared slots: all free, links in index order, generations of occupied slots bumped |
| Arena.AppendFreshChain | src/genarena/mod.rs:126-131 | the loop of `internal_reserve_exact` appends `added` free slots of generation 0, each linking to the next, the last one to the old head |
| Arena.GenArena.WithCapacity | src/genarena/mod.rs:110-121 | `capacity` free slots linked in index order, head at 0 (or no head when the capacity is 0), nothing occupied |
| Arena.GenArena.New | src/genarena/mod.rs:90-95 | an arena of `DEFAULT_ARENA_CAPACITY` (32) free slots |
| Arena.GenArena.InternalReserveExact | src/genarena/mod.rs:123-132 | appends the fresh chain, makes its first slot the head, keeps the count and the invariant, and returns the first new position |
| Arena.GenArena.ReserveExact | src/genarena/mod.rs:134-137 | the same new state as `internal_reserve_exact` |
| Arena.GenArena.ForceInsertAt | src/genarena/mod.rs:167-177 | occupies the head slot with its stored generation, returns that handle, moves the head to the slot's link and adds one to the count |
| Arena.GenArena.Push | src/genarena/mod.rs:179-193 | the new handle is live and holds the value, and the count goes up by one. It reuses the free-list head if there is one. Otherwise the arena grows by max(capacity, 8) and the value goes in the first new slot. No other slot changes |
| Arena.GenArena.Remove | src/genarena/mod.rs:195-216 | returns the value exactly when the handle is live; then the slot is freed with generation + 1, heads the free list, and the count drops by one; otherwise nothing changes |
| Arena.GenArena.Contains | src/genarena/mod.rs:218-220 | true exactly for a live handle: in bounds, occupied, same generation |
| Arena.GenArena.Get | src/genarena/mod.rs:222-231 | a value exactly for a live handle (in bounds, occupied, same generation), and that value is the slot's |
| Arena.GenArena.GetRaw | src/genarena/mod.rs:234-240 | a value and generation exactly for an occupied slot, whatever the handle's generation; that generation makes a live handle |
| Arena.GenArena.GetMut | src/genarena/mod.rs:242-251 | on a live handle only that slot's value changes, to the caller's write; otherwise nothing changes |
| Arena.GenArena.GetRawMut | src/genarena/mod.rs:254-260 | on an occupied slot, whatever the generation, the value is rewritten and the live generation returned; otherwise nothing changes |
| Arena.GenArena.Len | src/genarena/mod.rs:262-264 | the number of occupied slots, which is also the number of items iteration yields |
| Arena.GenArena.IsEmpty | src/genarena/mod.rs:266-268 | true exactly when iteration yields nothing |
| Arena.GenArena.Capacity | src/genarena/mod.rs:296-298 | the number of slots, which is at least `len` |
| Arena.GenArena.Clear | src/genarena/mod.rs:139-162 | every slot is freed with its generation bumped if occupied, the slots are linked in index order, the count is zero and the invariant holds (corrected head) |
| ArenaIter.OccupiedItemsOfPrefix | src/genarena/iter.rs:31-42 | the items of a prefix of the slots are a prefix of the items of all slots |
| ArenaIter.Iter.constructor | src/genarena/mod.rs:270-277 | a cursor at slot 0 over the arena's slots, with the arena's length as the total |
| ArenaIter.Iter.Next | src/genarena/iter.rs:31-42 | skips free slots. It returns the next occupied slot as (handle with its live generation, value), or None at the end. The items yielded so far are always a prefix of the arena's iteration order |
| ArenaIter.Iter.SizeHint | src/genarena/iter.rs:44-47 | the lower and upper bound are equal, and they equal the number of items still to come |
| ArenaIter.Iter.Len | src/genarena/iter.rs:50-54 | the arena's total item count, so the items yielded plus the size hint |
| ArenaIter.SkipFree | src/genarena/iter.rs:69-84 | the skip loop stops at the first occupied slot at or after the cursor, or at the end, and passes only free slots |
| ArenaIter.CountPrefixAfterFill | src/genarena/iter.rs:68-86 | rewriting a slot at or after the cursor does not change the count of the prefix already passed |
| ArenaIter.CountPrefixBound | src/genarena/iter.rs:88-91 | a prefix never counts more occupied slots than the whole arena |
| ArenaIter.IterMut.constructor | src/genarena/mod.rs:279-286 | a cursor at slot 0 over the arena itself, with the arena's length as the total |
| ArenaIter.IterMut.Next | src/genarena/iter.rs:68-86 | yields the next occupied slot and applies the caller's write to it, or None at the end. Only that slot changes, and the free list and the count are untouched |
| ArenaIter.IterMut.YieldAt | src/genarena/iter.rs:71-80 | yields slot `i` with its live generation, stores the written value in it and moves the cursor past it |
| ArenaIter.IterMut.SizeHint | src/genarena/iter.rs:88-91 | the lower and upper bound are equal, and the items yielded plus the hint make up the occupied count |
| ArenaIter.IterMut.Len | src/genarena/iter.rs:94-97 | the occupied count, which is the items yielded plus the size hint |
| ArenaIter.Drain | src/genarena/iter.rs:31-54 | calling `next` until None yields exactly the arena's iteration order, and `len` items |
| Entities.Ord | src/macro_define.rs:287-291 | every component type has a position in the fixed list of all types |
| Entities.WithField | src/entity.rs:5-20 | writing one component field leaves every other field and the properties alone |
| Entities.Set | src/macro_define.rs:97-99 | after `set`, `get` finds the new value, and nothing else changes |
| Entities.Get | src/macro_define.rs:102-104 | present exactly when the entity has the component |
| Entities.HasAgrees | src/entity.rs:190-192 | `has` holds exactly when `get` finds the component, `peek` sees it, `for_each_active_component` lists it and `for_each_component` flags it present |
| Entities.Update | src/macro_define.rs:122-124 | when present, the component becomes `f`'s new value and `f`'s result is returned; when absent, None is returned and nothing changes |
| Entities.Remove | src/macro_define.rs:112-114 | returns what `get` returned, and leaves the component absent and everything else unchanged |
| Entities.Peek | src/macro_define.rs:117-119 | `f` of the component exactly when present |
| Entities.With | src/entity.rs:85-88 | the builder form of `set`: the component is the new value and nothing else changes |
| Entities.Mutate | src/entity.rs:182-186 | when the component is present, `f` maps it to its new value and `f`'s result is returned; when absent, None is returned and the entity is unchanged |
| Entities.WithMutation | src/entity.rs:95-98 | a present component becomes `f` of itself; an absent one stays absent and the entity is unchanged |
| Entities.GetMutOrDefault | src/entity.rs:101-107 | afterwards the component is present; an existing one is kept, otherwise it is `default` |
| Entities.MutateOrDefault | src/entity.rs:110-113 | `f` runs on the component, or on `default` when there is none; its result is returned and the component holds what `f` left |
| Entities.WithMutationOrDefault | src/entity.rs:120-123 | the component becomes `f` of its old value, or `f` of `default` when absent |
| Entities.WithRemoved | src/entity.rs:127-130 | the component is absent and nothing else changes |
| Entities.WithComponentChange | src/entity.rs:156-168 | applies the decided change to the entity `decide` returned: nothing, replace (which adds if absent), mutate if present, or remove |
| Entities.ActiveComponents | src/macro_define.rs:376-382 | exactly the component types present, in declaration order |
| Entities.ComponentFlags | src/macro_define.rs:384-388 | one (type, present) pair per type, in declaration order |
| Entities.AllComponents | src/macro_define.rs:390-394 | every component type once, in declaration order |
| Entities.New | src/macro_define.rs:400-409 | an entity with the given properties and no component |
| Entities.Extensionality | src/entity.rs:5-20 | two entities with the same properties and the same `get` for every type are equal |
| Entities.WithThenRemoved | src/entity.rs:85-130 | adding then removing a component is the same as just removing it |
| Entities.RemoveThenSetRestores | src/macro_define.rs:97-114 | removing a present component and setting it back restores the entity |
| Entities.WithOverrides | src/entity.rs:85-88 | a second `with` of the same type overrides the first |
| Entities.WithCommutes | src/entity.rs:85-88 | `with` on two different types commutes |
| Pooled.WithKey | src/macro_define.rs:129-192 | writing one key leaves the other keys and the properties alone |
| Pooled.RefActiveComponents | src/macro_define.rs:273-279 | exactly the types the pooled entity holds a key for, in declaration order |
| Pooled.RefComponentFlags | src/macro_define.rs:281-285 | one (type, has key) pair per type, in declaration order |
| Pooled.AsNaked | src/macro_define.rs:346-355 | the naked form carries the same properties and keys |
| Pooled.FromNaked | src/macro_define.rs:334-344 | building from the naked form and going back gives the same naked form |
| Pooled.NakedRoundTrip | src/macro_define.rs:334-355 | `from_naked(as_naked(e)) == e` |
| Pooled.ComponentsStorage.constructor | src/macro_define.rs:365-371 | every slab is empty |
| Pooled.ComponentsStorage.RefGet | src/macro_define.rs:146-158 | a payload exactly when the entity holds a key that the slab holds, and that slab entry is what is returned |
| Pooled.ComponentsStorage.RefPeek | src/macro_define.rs:194-212 | `f` of what `get` finds, exactly when it finds something |
| Pooled.ComponentsStorage.RefSet | src/macro_define.rs:129-144 | afterwards `get` finds the value. With a held key, the payload is overwritten in place. Otherwise it goes under a fresh key. Other slabs and keys are untouched |
| Pooled.ComponentsStorage.RefUpdate | src/macro_define.rs:214-232 | when the key is set and held, the payload becomes `f`'s new value and `f`'s result is returned; otherwise nothing changes |
| Pooled.ComponentsStorage.RefRemove | src/macro_define.rs:178-192 | the key is cleared and the payload taken out of the slab and returned, or None when there was no key |
| Pooled.ComponentsStorage.FromOwned | src/macro_define.rs:299-313 | each present component moves into its slab under a fresh key, and the pooled entity's `get` equals the owned entity's |
| Pooled.ComponentsStorage.ToOwned | src/macro_define.rs:315-332 | each payload leaves its slab, and the owned entity's `get` equals the pooled entity's before |
| Pooled.ComponentsStorage.OwnedRoundTrip | src/macro_define.rs:299-332 | `to_owned(from_owned(x)) == x`, and every slab ends as it started |
| EntityLists.Presence | src/entity_list.rs:164-176 | the slots whose occupant holds a key for the type: what a bitset must equal |
| EntityLists.PresenceBelowStep | src/entity_list.rs:164-176 | the scan of `add_bitset_for_component` advances the presence set of the prefix slot by slot |
| EntityLists.PresenceAfterUpdate | src/entity_list.rs:82-97 | rewriting one slot changes the presence set only at that slot |
| EntityLists.PresenceAfterFill | src/entity_list.rs:46-58 | inserting into one slot adds that slot to the presence set exactly when the new entity has the type |
| EntityLists.ReplaceKeepsKeys | src/entity_list.rs:114-116 | replacing an entity by one that keeps its keys or takes fresh ones keeps every key live and unshared |
| EntityLists.FreeKeepsKeys | src/entity_list.rs:63-77 | freeing a slot keeps the other entities' keys live and unshared once its keys leave the slab |
| EntityLists.FillKeepsKeys | src/entity_list.rs:46-58 | inserting an entity whose keys are fresh keeps every key live and unshared |
| EntityLists.EditKeepsCaches | src/entity_list.rs:114-116 | after an edit of one type at one slot, every key is still live and unshared, and only that type's presence can change, only at that slot |
| EntityLists.AddBit | src/entity_list.rs:46-58 | adds slot `i` to exactly the bitsets of the given types |
| EntityLists.ClearBit | src/entity_list.rs:63-77 | removes slot `i` from exactly the bitsets of the given types |
| EntityLists.SetBitByFlags | src/entity_list.rs:82-97 | sets or clears slot `i` in each bitset by that type's flag |
| EntityLists.CollectPresence | src/entity_list.rs:164-176 | the scan over the arena gives exactly the presence set of the type |
| EntityLists.ScanPresence | src/entity_list.rs:168-172 | the loop of that scan gives exactly the presence set |
| EntityLists.ApplyEdit | src/macro_define.rs:129-192 | a write through `get_mut`. `add` stores the value and `remove` takes out the old payload. Only the entity's own key can leave the slab, and any new key is fresh |
| EntityLists.EntityList.constructor | src/entity_list.rs:32-41 | an empty list with a default-capacity arena, empty slabs and an empty bitset for every type |
| EntityLists.EntityList.InitBitsets | src/entity_list.rs:133-137 | every type gets an empty bitset |
| EntityLists.EntityList.Insert | src/entity_list.rs:46-58 | the new handle is live and was not before. The stored entity answers `get` like the owned one. Each bitset gains the slot exactly when the entity has that type. The keys stay sound, and a synchronised list stays synchronised |
| EntityLists.EntityList.Refresh | src/entity_list.rs:82-97 | on a live handle, resets that slot's bit in every bitset to the entity's presence, which re-synchronises a list stale only there; on a stale handle changes nothing |
| EntityLists.EntityList.Get | src/entity_list.rs:101-103 | the entity exactly for a live handle |
| EntityLists.EntityList.Contains | src/entity_list.rs:120-122 | true exactly for a live handle |
| EntityLists.EntityList.Len | src/entity_list.rs:126-128 | the number of entities that iteration yields |
| EntityLists.EntityList.EditThroughGetMut | src/entity_list.rs:114-116 | on a live handle only that entity's component changes, only that type's presence at that slot can change, and the bitsets do not; on a stale handle nothing changes |
| EntityLists.EntityList.EditLive | src/entity_list.rs:114-116 | the live-handle case of the above |
| EntityLists.EntityList.AddComponentForEntity | src/entity_list.rs:198-218 | on a live handle the component is set and the slot's bit for that type is set, and None is returned; on a stale handle the value comes back and nothing changes. A list synchronised everywhere, or everywhere but that slot, stays so |
| EntityLists.EntityList.RemoveComponentForEntity | src/entity_list.rs:223-238 | returns the payload exactly when the handle is live and the entity has the type, and then clears the bit; the component is absent afterwards. A list synchronised everywhere, or everywhere but that slot, stays so |
| EntityLists.EntityList.AddBitsetForComponent | src/entity_list.rs:164-176 | the type's bitset becomes exactly its presence set, and the others are unchanged |
| EntityLists.EntityList.Remove | src/entity_list.rs:63-77 | on a live handle the slot is freed and the owned entity returned has the same components. The slot's bit is cleared only in the bitsets of the types the entity still has, so a stale bit stays. A synchronised list stays synchronised. On a stale handle nothing changes |
| Queries.Members | src/iter.rs:141-176 | the members of a bounded bitset expression, exactly |
| Queries.SplitPoint | src/iter.rs:141-176 | the split of an n-tuple into two non-empty halves |
| Queries.Bitset | src/iter.rs:125-176 | the query bitset contains a slot exactly when every queried type's bitset does. It is None when a type has no bitset, and `BitSetAll` for the unit query |
| Queries.BitsetSplitIndependent | src/iter.rs:141-176 | wherever the tuple is split, the AND of the halves has the same members |
| Queries.MinOf | src/iter.rs:70-76 | the least member of a non-empty set |
| Queries.MinExists | src/iter.rs:70-76 | a non-empty set of naturals has a least member |
| Queries.QueryItemsPrefix | src/iter.rs:70-76 | extending the prefix by a slot adds its item exactly when it is selected and occupied |
| Queries.QueryItemsSkip | src/iter.rs:70-76 | unselected slots add nothing |
| Queries.QueryItemsSound | src/iter.rs:70-76 | every item is a selected occupied slot with its live generation and value |
| Queries.QueryItemsSorted | src/iter.rs:70-76 | the items come in strictly increasing slot order |
| Queries.QueryItemsComplete | src/iter.rs:70-76 | every selected occupied slot is yielded |
| Queries.QueryItemsSpec | src/iter.rs:70-76 | the three properties above together |
| Queries.QueryItemsOfAll | src/iter.rs:125-131 | selecting every occupied slot gives the arena's iteration order |
| Queries.Selected | src/iter.rs:116-176 | the occupied slots whose entity has every queried type |
| Queries.OccupiedSet | src/genarena/iter.rs:31-42 | exactly the occupied slots |
| Queries.UnitQueryHitsFatal | src/iter.rs:62-76 | the unit query's bitset contains a slot that is not occupied, where `next` as written reaches `FATAL_ERR` |
| Queries.Selection | src/iter.rs:116-176 | the set a query iterates: the intersection for a non-empty tuple, the occupied slots for the unit query (corrected), None when a type has no bitset |
| Queries.SelectionUnderSync | src/iter.rs:116-176 | with synchronised bitsets a query selects exactly the entities that have every queried type |
| Queries.MultiComponentIter.constructor | src/iter.rs:36-41 | an iterator over the selected slots from position 0, having yielded nothing |
| Queries.MultiComponentIter.Next | src/iter.rs:70-76 | yields the least pending slot with its live generation and entity, or None exactly when none is pending; at the end the items yielded are the query order |
| Queries.DrainQuery | src/iter.rs:70-76 | calling `next` until None yields exactly the selected occupied slots in increasing order |
| Queries.MultiComponentIterMut.constructor | src/iter.rs:52-59 | an iterator over the selected slots of the arena itself, from position 0 |
| Queries.MultiComponentIterMut.Next | src/iter.rs:82-105 | yields the least pending slot and applies the caller's write to it, or None exactly when none is pending. Only that slot changes |
| Queries.SyncedSelectsOccupied | src/iter.rs:62-76 | with synchronised bitsets every selected index is an occupied slot, so no query reaches `FATAL_ERR` |
| Queries.Iter | src/iter.rs:21-23 | a query iterator over the slots set in every queried type's bitset, stale bits included; on a synchronised list, exactly the entities with every queried type |
| Queries.IterMutOf | src/iter.rs:25-27 | the mutable query iterator over the same slots as `Iter`, stale bits included; on a synchronised list, exactly the entities with every queried type |
| Queries.IterAll | src/iter.rs:13-15 | the arena iterator over all entities |
| Queries.IterAllMut | src/iter.rs:17-19 | the mutable arena iterator over all entities |
| Queries.UnitQueryIsIterAll | src/iter.rs:125-131 | the corrected unit query yields the same items as `iter_all` |
| Scenarios.PushThree | src/genarena/tests.rs:18-26 | three pushes into a zero-capacity arena give handles (0,0), (1,0), (2,0) in an arena grown to eight slots |
| Scenarios.PushThreeRemoveLast | src/genarena/tests.rs:57-64 | removing the last handle frees slot 2 with generation 1 at the head of the free list |
| Scenarios.PushThreeRemoveTwo | src/genarena/tests.rs:57-65 | removing the middle handle puts slot 1 ahead of slot 2 on the free list |
| Scenarios.PushThreeRemoveThree | src/genarena/tests.rs:57-67 | removing the first handle returns `Some(10)`; no removed handle resolves |
| Scenarios.ReuseTwoFreedSlots | src/genarena/tests.rs:69-70 | pushing 5 and 6 reuses slots 0 and 1 with generation 1 |
| Scenarios.RemovalsReuseFreedSlotsLifo | src/genarena/tests.rs:57-81 | new pushes reuse slots 0, 1, 2 with generation 1 (last freed first), then take fresh slots 3 and 4. After the reuse, `get(Index(0, 1))` is `Some(5)` and `get` of each removed handle is None |
| Scenarios.PushIntoFullArenaGrows | src/genarena/tests.rs:28-41 | eight pushes fill capacity 8; four more give capacity at least 12 and length 12 |
| Scenarios.FillTwoOfFour | src/genarena/tests.rs:43-48 | two pushes into capacity four leave slots 2 and 3 on the free list |
| Scenarios.FillFour | src/genarena/tests.rs:43-48 | four pushes fill capacity four exactly with values 0 to 3 |
| Scenarios.IterateFourValues | src/genarena/tests.rs:43-55 | iteration yields (0,0)..(3,0) with values 0..3, then None |
| Scenarios.IterAllSkipsRemoved | tests/basic.rs:200-212 | with the fifth and seventh entities removed, `iter_all` visits slots 0, 1, 2, 3, 5, 7 |
| Scenarios.RemoveThroughGetMutThenRefresh | tests/basic.rs:296-349 | removing a component through `get_mut` leaves its bit stale: a query on that type still selects the entity until `refresh` clears the bit |
| Scenarios.RemoveWhileStaleKeepsBit | src/entity_list.rs:63-77 | removing an entity whose bit is stale leaves the bit on the freed slot, so a query on that type would reach `FATAL_ERR` |

## Left out

- Serialisation (`src/serde.rs`) and the `serde` derives are not part of this model.
- `Rc`/`Weak` sharing, `unsafe` pointer casts and lifetimes are left out. References returned by `get_mut`, `get_raw_mut` and the mutable iterators are modelled as an update function that the caller applies, or as an `Edit` (an `add`/`remove` through the reference).
- `Clone`, `Debug`, `dbg!` and printing have no behaviour to model.
- Integer widths are left out, because the model's integers are unbounded. Generations are `u64` in the source and can wrap only after 2^64 removals from one slot. Bitset indices are `u32`, so the `try_into().expect("too many entities")` checks in `src/entity_list.rs` and the bitset capacities are not modelled either.
- hibitset's internal layers are not modelled. A bitset is a set of naturals, and iteration over it picks the least pending member.
- The split point of an n-tuple query is taken as n/2. `Queries.BitsetSplitIndependent` proves the members do not depend on where the split is.
- Queries with more than 16 types (`MaxArity`) are left out, because the source defines tuples only up to that arity.
- The component set is fixed to three types, `A`, `B` and `C`, with `int` payloads, standing for any types the `define_entity!` macro would declare. Floating-point payloads are not modelled.
- Slab keys come from a counter, `nextKey`, so they are never reused. The slab crate reuses vacated keys. The model proves only that a new key is not currently held, which is all the source relies on.
- Pooled.ComponentsStorage.Insert and Pooled.ComponentsStorage.Take: the slab crate's own operations are not part of this model. They are modelled by the map effect the slab promises.
- Arena.GenArena.ReserveExact and Arena.GenArena.InternalReserveExact require `added >= 1`. With 0, the loop bound `added_capacity-1` in src/genarena/mod.rs:126 underflows: a panic in debug builds, and in release builds a loop of about 2^64 pushes that runs out of memory. `push` never passes 0, but `reserve_exact` is public, so an outside caller can. The model leaves that call out.
- Arena.GenArena.ForceInsertAt requires that the slot is the free-list head. It is private, and `push` is its only caller.
- `GenArena::values` and `values_mut` are not modelled separately. They are `iter` and `iter_mut` with the handle dropped.
- `from_raw` (in both `GenArena` and `EntityList`) is not modelled, because its only caller is deserialisation.
- `Index`'s `Display` is not modelled, because it is formatting only.
- `remove_bitset_for_component` and `regenerate_all_component_bitsets` are not modelled. Nothing in the crate calls them.
- Queries.Iter and Queries.IterMutOf require every selected index to be an occupied slot (`SelectsOccupied`). Where it is not, the source panics with `FATAL_ERR`. Scenarios.RemoveWhileStaleKeepsBit shows how a list reaches that state.
- Iterators over the arena keep a snapshot (`Iter`) or the arena itself (`IterMut`). Rust's borrow checker forbids changing the arena while an iterator lives. The model states this as a precondition instead of an aliasing rule.

## Findings

| source | as written | input that shows it | evidently intended | confidence | as-written member | corrected member |
|---|---|---|---|---|---|---|
| src/genarena/mod.rs:159-161 | `clear` sets `next_free = Some(0)` whatever the number of slots | `GenArena::with_capacity(0)`, then `clear()`: the free list heads at slot 0 of an empty vector, and the next `push` indexes out of bounds | head at 0 only when there is a slot, otherwise `None` | not executed | Arena.ClearAsWrittenDanglesOnEmpty | Arena.GenArena.Clear |
| src/iter.rs:62-76, 125-131 | the unit query `()` iterates `BitSetAll`, and `next` calls `FATAL_ERR` on the first index whose slot is not occupied | `iter::<()>()` on any list: the set index one past the last slot (or any free slot) is reached, so `next` panics instead of ending | the unit query yields every entity, like `iter_all` | not executed | Queries.UnitQueryHitsFatal | Queries.UnitQueryIsIterAll |
