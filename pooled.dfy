/**
 * The pooled ("Ref") form of an entity: the properties, and per component type an
 * optional key into that type's slab in the shared component storage. The
 * storage is passed explicitly; each slab is a map from key to payload whose
 * `insert` hands out a key it does not hold.
 */
module Pooled {
  import opened Wrappers
  import opened Entities

  /** `EntityRef`: `props` plus `Option<usize>` per component (the storage handle is the explicit `ComponentsStorage`). */
  datatype EntityRef<P> = EntityRef(props: P, a: Option<nat>, b: Option<nat>, c: Option<nat>)

  /** `EntityRefNaked`: the same fields without the storage handle. */
  datatype Naked<P> = Naked(props: P, a: Option<nat>, b: Option<nat>, c: Option<nat>)

  /** The key field of component `k`. */
  function Key<P>(e: EntityRef<P>, k: Kind): Option<nat>
  {
    match k
    case A => e.a
    case B => e.b
    case C => e.c
  }

  /** `e` with the key field of `k` replaced by `key`. */
  function WithKey<P>(e: EntityRef<P>, k: Kind, key: Option<nat>): (r: EntityRef<P>)
    ensures Key(r, k) == key
    ensures KeysUntouched(e, r, k)
  {
    match k
    case A => e.(a := key)
    case B => e.(b := key)
    case C => e.(c := key)
  }

  /** `after` differs from `before` at most in the key field of `k`. */
  ghost predicate KeysUntouched<P>(before: EntityRef<P>, after: EntityRef<P>, k: Kind)
  {
    after.props == before.props && forall j: Kind :: j != k ==> Key(after, j) == Key(before, j)
  }

  /** `for_each_active_component` of the pooled form: the types whose key field is set, in declaration order. */
  function RefActiveComponents<P>(e: EntityRef<P>): (r: seq<Kind>)
    ensures forall k: Kind :: k in r <==> Key(e, k).Some?
    ensures forall i, j :: 0 <= i < j < |r| ==> Ord(r[i]) < Ord(r[j])
  {
    (if e.a.Some? then [A] else []) + (if e.b.Some? then [B] else []) + (if e.c.Some? then [C] else [])
  }

  /** `for_each_component` of the pooled form: every declared type, in order, with whether its key is set. */
  function RefComponentFlags<P>(e: EntityRef<P>): (r: seq<(Kind, bool)>)
    ensures |r| == |AllKinds|
    ensures forall i :: 0 <= i < |r| ==> r[i] == (AllKinds[i], Key(e, AllKinds[i]).Some?)
  {
    [(A, e.a.Some?), (B, e.b.Some?), (C, e.c.Some?)]
  }

  /** `as_naked`: props and keys copied unchanged. */
  function AsNaked<P>(e: EntityRef<P>): (n: Naked<P>)
    ensures n.props == e.props && n.a == e.a && n.b == e.b && n.c == e.c
  {
    Naked(e.props, e.a, e.b, e.c)
  }

  /** `from_naked`: props and keys copied unchanged; `as_naked` gives the naked entity back. */
  function FromNaked<P>(n: Naked<P>): (e: EntityRef<P>)
    ensures AsNaked(e) == n
  {
    EntityRef(n.props, n.a, n.b, n.c)
  }

  lemma NakedRoundTrip<P>(e: EntityRef<P>)
    ensures FromNaked(AsNaked(e)) == e
  {
  }

  /** `EntityComponentsStorage`: one slab per component type. */
  class ComponentsStorage {
    var a: map<nat, Payload>
    var b: map<nat, Payload>
    var c: map<nat, Payload>
    /** Every key any slab holds is below this one; the next `insert` hands it out. */
    var nextKey: nat

    function Slab(k: Kind): map<nat, Payload>
      reads this
    {
      match k
      case A => a
      case B => b
      case C => c
    }

    ghost predicate Valid()
      reads this
    {
      forall k: Kind, key :: key in Slab(k) ==> key < nextKey
    }

    /** Only the slab of `k` may have changed. */
    twostate predicate OthersUnchanged(k: Kind)
      reads this
    {
      forall j: Kind :: j != k ==> Slab(j) == old(Slab(j))
    }

    /** `ComponentsStorage::new`: an empty slab per component type. */
    constructor ()
      ensures Valid()
      ensures forall k: Kind :: Slab(k) == map[]
    {
      a := map[];
      b := map[];
      c := map[];
      nextKey := 0;
    }

    method SetSlab(k: Kind, m: map<nat, Payload>)
      modifies this
      ensures Slab(k) == m && OthersUnchanged(k) && nextKey == old(nextKey)
    {
      match k
      case A => a := m;
      case B => b := m;
      case C => c := m;
    }

    /** `Slab::insert`: stores `v` under a key the slab did not hold and returns that key. */
    method Insert(k: Kind, v: Payload) returns (key: nat)
      requires Valid()
      modifies this
      ensures Valid()
      ensures key !in old(Slab(k))
      ensures Slab(k) == old(Slab(k))[key := v] && OthersUnchanged(k)
    {
      key := nextKey;
      SetSlab(k, Slab(k)[key := v]);
      nextKey := nextKey + 1;
      forall j: Kind, held | held in Slab(j)
        ensures held < nextKey
      {
        if j != k || held != key {
          assert held in old(Slab(j));
        }
      }
    }

    /** `Slab::remove`: takes the payload under `key` out; the source panics on a key the slab lacks. */
    method Take(k: Kind, key: nat) returns (v: Payload)
      requires Valid() && key in Slab(k)
      modifies this
      ensures Valid()
      ensures v == old(Slab(k))[key]
      ensures Slab(k) == old(Slab(k)) - {key} && OthersUnchanged(k)
    {
      v := Slab(k)[key];
      SetSlab(k, Slab(k) - {key});
    }

    // -------------------------------------------------------------------------
    // `Component` for the pooled form (generated by `define_entity!`)
    // -------------------------------------------------------------------------

    /** `Component::get` of the pooled form: the slab's payload under the key, if the key is set and held. */
    function RefGet<P>(e: EntityRef<P>, k: Kind): (r: Option<Payload>)
      reads this
      ensures r.Some? <==> Key(e, k).Some? && Key(e, k).value in Slab(k)
      ensures r.Some? ==> r.value == Slab(k)[Key(e, k).value]
    {
      match Key(e, k)
      case None => None
      case Some(key) => if key in Slab(k) then Some(Slab(k)[key]) else None
    }

    /** `Component::peek` of the pooled form: `f` of the payload `get` finds. */
    function RefPeek<P, O>(e: EntityRef<P>, k: Kind, f: Payload -> O): (r: Option<O>)
      reads this
      ensures r.Some? <==> RefGet(e, k).Some?
      ensures r.Some? ==> r.value == f(RefGet(e, k).value)
    {
      match Key(e, k)
      case None => None
      case Some(key) => if key in Slab(k) then Some(f(Slab(k)[key])) else None
    }

    /**
     * `Component::set` of the pooled form: when the entity holds a key the slab still
     * has, the payload is overwritten in place and the entity is unchanged; otherwise
     * the payload is inserted and the entity gets the new key. Either way `get` then
     * finds `v`.
     */
    method RefSet<P>(e: EntityRef<P>, k: Kind, v: Payload) returns (r: EntityRef<P>)
      requires Valid()
      modifies this
      ensures Valid() && OthersUnchanged(k)
      ensures RefGet(r, k) == Some(v)
      ensures KeysUntouched(e, r, k)
      ensures Key(e, k).Some? && Key(e, k).value in old(Slab(k)) ==>
                r == e && Slab(k) == old(Slab(k))[Key(e, k).value := v]
      ensures !(Key(e, k).Some? && Key(e, k).value in old(Slab(k))) ==>
                && Key(r, k).Some? && Key(r, k).value !in old(Slab(k))
                && Slab(k) == old(Slab(k))[Key(r, k).value := v]
    {
      var current := Key(e, k);
      if current.Some? && current.value in Slab(k) {
        SetSlab(k, Slab(k)[current.value := v]);
        r := e;
      } else {
        var key := Insert(k, v);
        r := WithKey(e, k, Some(key));
      }
    }

    /**
     * `Component::update` of the pooled form (and `get_mut` followed by a write):
     * when the key is set and held, `f` rewrites the payload in place and its result
     * is returned; otherwise nothing changes.
     */
    method RefUpdate<P, O>(e: EntityRef<P>, k: Kind, f: Payload -> (Payload, O)) returns (r: Option<O>)
      requires Valid()
      modifies this
      ensures Valid() && OthersUnchanged(k)
      ensures r.Some? <==> old(RefGet(e, k)).Some?
      ensures r.Some? ==>
                && r.value == f(old(RefGet(e, k)).value).1
                && Slab(k) == old(Slab(k))[Key(e, k).value := f(old(RefGet(e, k)).value).0]
      ensures r.None? ==> Slab(k) == old(Slab(k))
    {
      match Key(e, k)
      case None =>
        r := None;
      case Some(key) =>
        if key in Slab(k) {
          var (nv, out) := f(Slab(k)[key]);
          SetSlab(k, Slab(k)[key := nv]);
          r := Some(out);
        } else {
          r := None;
        }
    }

    /**
     * `Component::remove` of the pooled form: clears the key field, removes that key
     * from the slab and returns its payload. The slab must hold the key (the source
     * panics otherwise).
     */
    method RefRemove<P>(e: EntityRef<P>, k: Kind) returns (r: EntityRef<P>, v: Option<Payload>)
      requires Valid()
      requires Key(e, k).Some? ==> Key(e, k).value in Slab(k)
      modifies this
      ensures Valid() && OthersUnchanged(k)
      ensures r == WithKey(e, k, None)
      ensures v == old(RefGet(e, k))
      ensures v.Some? <==> Key(e, k).Some?
      ensures Key(e, k).Some? ==> Slab(k) == old(Slab(k)) - {Key(e, k).value}
      ensures Key(e, k).None? ==> Slab(k) == old(Slab(k))
    {
      r := WithKey(e, k, None);
      match Key(e, k)
      case None =>
        v := None;
      case Some(current) =>
        var payload := Take(k, current);
        v := Some(payload);
    }

    // -------------------------------------------------------------------------
    // Migration between the owned and the pooled form
    // -------------------------------------------------------------------------

    /** One field of `from_owned`: `owned.c.take().map(|c| slab.insert(c))`. */
    method InsertIfPresent(k: Kind, v: Option<Payload>) returns (key: Option<nat>)
      requires Valid()
      modifies this
      ensures Valid() && OthersUnchanged(k)
      ensures key.Some? <==> v.Some?
      ensures key.Some? ==> key.value !in old(Slab(k)) && Slab(k) == old(Slab(k))[key.value := v.value]
      ensures key.None? ==> Slab(k) == old(Slab(k))
    {
      match v
      case None =>
        key := None;
      case Some(payload) =>
        var newKey := Insert(k, payload);
        key := Some(newKey);
    }

    /**
     * `from_owned`: moves the properties and inserts each present component into its
     * slab under a fresh key; absent components get no key.
     */
    method FromOwned<P>(owned: Entity<P>) returns (r: EntityRef<P>)
      requires Valid()
      modifies this
      ensures Valid()
      ensures r.props == owned.props
      ensures forall k: Kind :: Key(r, k).Some? <==> Has(owned, k)
      ensures forall k: Kind :: Key(r, k).Some? ==>
                Key(r, k).value !in old(Slab(k)) && Slab(k) == old(Slab(k))[Key(r, k).value := Get(owned, k).value]
      ensures forall k: Kind :: Key(r, k).None? ==> Slab(k) == old(Slab(k))
      ensures forall k: Kind :: RefGet(r, k) == Get(owned, k)
    {
      var ka := InsertIfPresent(A, owned.a);
      var kb := InsertIfPresent(B, owned.b);
      var kc := InsertIfPresent(C, owned.c);
      r := EntityRef(owned.props, ka, kb, kc);
      assert Key(r, A) == ka && Key(r, B) == kb && Key(r, C) == kc;
    }

    /** One field of `to_owned`: `self.c.map(|c_id| slab.remove(c_id))`. */
    method TakeIfHeld(k: Kind, key: Option<nat>) returns (v: Option<Payload>)
      requires Valid()
      requires key.Some? ==> key.value in Slab(k)
      modifies this
      ensures Valid() && OthersUnchanged(k)
      ensures v.Some? <==> key.Some?
      ensures key.Some? ==> v.value == old(Slab(k))[key.value] && Slab(k) == old(Slab(k)) - {key.value}
      ensures key.None? ==> Slab(k) == old(Slab(k))
    {
      match key
      case None =>
        v := None;
      case Some(current) =>
        var payload := Take(k, current);
        v := Some(payload);
    }

    /**
     * `to_owned`: moves the properties and takes each held key's payload out of its
     * slab. Every set key must be in its slab (the source panics otherwise).
     */
    method ToOwned<P>(e: EntityRef<P>) returns (owned: Entity<P>)
      requires Valid()
      requires forall k: Kind :: Key(e, k).Some? ==> Key(e, k).value in Slab(k)
      modifies this
      ensures Valid()
      ensures owned.props == e.props
      ensures forall k: Kind :: Get(owned, k) == old(RefGet(e, k))
      ensures forall k: Kind :: Key(e, k).Some? ==> Slab(k) == old(Slab(k)) - {Key(e, k).value}
      ensures forall k: Kind :: Key(e, k).None? ==> Slab(k) == old(Slab(k))
    {
      assert Key(e, B).Some? ==> Key(e, B).value in Slab(B);
      assert Key(e, C).Some? ==> Key(e, C).value in Slab(C);
      var va := TakeIfHeld(A, e.a);
      var vb := TakeIfHeld(B, e.b);
      var vc := TakeIfHeld(C, e.c);
      owned := Entity(e.props, va, vb, vc);
      assert Get(owned, A) == va && Get(owned, B) == vb && Get(owned, C) == vc;
    }

    /**
     * Moving an owned entity into the storage and back gives the same entity, and
     * every slab holds exactly the keys it held before.
     */
    method OwnedRoundTrip<P>(owned: Entity<P>) returns (back: Entity<P>)
      requires Valid()
      modifies this
      ensures Valid()
      ensures back == owned
      ensures forall k: Kind :: Slab(k) == old(Slab(k))
    {
      var pooled := FromOwned(owned);
      back := ToOwned(pooled);
      forall k: Kind
        ensures Slab(k) == old(Slab(k))
      {
        if Key(pooled, k).Some? {
          assert old(Slab(k))[Key(pooled, k).value := Get(owned, k).value] - {Key(pooled, k).value} == old(Slab(k));
        }
      }
      Extensionality(back, owned);
    }
  }
}
