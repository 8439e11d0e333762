/**
 * An owned entity: mandatory properties and one optional payload per component
 * type, and the component protocol over it — the accessors `define_entity!`
 * generates for the owned form and the default methods of `EntityBase`.
 *
 * The schema is fixed to three component types `A`, `B`, `C`, declared in that
 * order; their payloads are integers. The properties are a type parameter.
 * An owned entity is a plain value: each `&mut self` operation is a function
 * from the entity before to the entity after.
 */
module Entities {
  import opened Wrappers

  datatype Kind = A | B | C

  /** The component types in declaration order: what `for_all_components` reports. */
  const AllKinds: seq<Kind> := [A, B, C]

  /** Position of a component type in the declaration order. */
  function Ord(k: Kind): (n: nat)
    ensures n < |AllKinds| && AllKinds[n] == k
  {
    match k
    case A => 0
    case B => 1
    case C => 2
  }

  type Payload = int

  /** The owned entity struct: `props` plus `Option<Box<C>>` per component. */
  datatype Entity<P> = Entity(props: P, a: Option<Payload>, b: Option<Payload>, c: Option<Payload>)

  /** The field that holds component `k`. */
  function Field<P>(e: Entity<P>, k: Kind): Option<Payload>
  {
    match k
    case A => e.a
    case B => e.b
    case C => e.c
  }

  /** `e` with the field of `k` replaced by `v`. */
  function WithField<P>(e: Entity<P>, k: Kind, v: Option<Payload>): (r: Entity<P>)
    ensures Field(r, k) == v
    ensures Untouched(e, r, k)
  {
    match k
    case A => e.(a := v)
    case B => e.(b := v)
    case C => e.(c := v)
  }

  /** `after` differs from `before` at most in the field of `k`. */
  ghost predicate Untouched<P>(before: Entity<P>, after: Entity<P>, k: Kind)
  {
    after.props == before.props && forall j: Kind :: j != k ==> Field(after, j) == Field(before, j)
  }

  // ---------------------------------------------------------------------------
  // `Component` for the owned form (generated by `define_entity!`)
  // ---------------------------------------------------------------------------

  /** `Component::set`: the component becomes `c`, any previous one is dropped. */
  function Set<P>(e: Entity<P>, k: Kind, c: Payload): (r: Entity<P>)
    ensures Get(r, k) == Some(c)
    ensures Untouched(e, r, k)
  {
    WithField(e, k, Some(c))
  }

  /** `Component::get`: the component, if present. */
  function Get<P>(e: Entity<P>, k: Kind): (r: Option<Payload>)
    ensures r.Some? <==> Has(e, k)
  {
    Field(e, k)
  }

  /**
   * `Component::update` (and `get_mut` followed by a write): when the component is
   * present, `f` maps it to its new value and a result, which is returned; when it
   * is absent nothing changes and None is returned.
   */
  function Update<P, O>(e: Entity<P>, k: Kind, f: Payload -> (Payload, O)): (r: (Entity<P>, Option<O>))
    ensures r.1.Some? <==> Has(e, k)
    ensures Has(e, k) ==> Get(r.0, k) == Some(f(Get(e, k).value).0) && r.1 == Some(f(Get(e, k).value).1)
    ensures !Has(e, k) ==> r.0 == e
    ensures Untouched(e, r.0, k)
  {
    match Field(e, k)
    case Some(c) => (WithField(e, k, Some(f(c).0)), Some(f(c).1))
    case None => (e, None)
  }

  /** `Component::remove`: takes the component out, leaving it absent, and returns it. */
  function Remove<P>(e: Entity<P>, k: Kind): (r: (Entity<P>, Option<Payload>))
    ensures r.1 == Get(e, k)
    ensures !Has(r.0, k)
    ensures Untouched(e, r.0, k)
  {
    (WithField(e, k, None), Field(e, k))
  }

  /** `Component::peek` and `EntityBase::peek`: `get().map(f)`. */
  function Peek<P, O>(e: Entity<P>, k: Kind, f: Payload -> O): (r: Option<O>)
    ensures r.Some? <==> Has(e, k)
    ensures r.Some? ==> r.value == f(Get(e, k).value)
  {
    match Field(e, k)
    case Some(c) => Some(f(c))
    case None => None
  }

  // ---------------------------------------------------------------------------
  // Default methods of `EntityBase`
  // ---------------------------------------------------------------------------

  /** `has`: `get().is_some()`. */
  predicate Has<P>(e: Entity<P>, k: Kind)
  {
    Field(e, k).Some?
  }

  /** `with` (and `add`): the entity with component `k` set to `c`, the old one discarded. */
  function With<P>(e: Entity<P>, k: Kind, c: Payload): (r: Entity<P>)
    ensures Get(r, k) == Some(c) && Untouched(e, r, k)
  {
    Set(e, k, c)
  }

  /** `mutate`: `get_mut().map(f)`; `f` runs only when the component is present. */
  function Mutate<P, O>(e: Entity<P>, k: Kind, f: Payload -> (Payload, O)): (r: (Entity<P>, Option<O>))
    ensures r.1.None? <==> !Has(e, k)
    ensures r.1.None? ==> r.0 == e
    ensures r.1.Some? ==> Get(r.0, k) == Some(f(Get(e, k).value).0)
    ensures r.1.Some? ==> r.1 == Some(f(Get(e, k).value).1)
    ensures Untouched(e, r.0, k)
  {
    Update(e, k, f)
  }

  /** `with_mutation`: applies `f` to the component if present; otherwise returns the entity unchanged. */
  function WithMutation<P>(e: Entity<P>, k: Kind, f: Payload -> Payload): (r: Entity<P>)
    ensures Has(e, k) ==> Get(r, k) == Some(f(Get(e, k).value))
    ensures !Has(e, k) ==> r == e
    ensures Untouched(e, r, k)
  {
    Mutate(e, k, (c: Payload) => (f(c), ())).0
  }

  /**
   * `get_mut_or_default`, the state it leaves: an existing component is kept,
   * otherwise `default` is inserted; either way the component is present.
   */
  function GetMutOrDefault<P>(e: Entity<P>, k: Kind, default: Payload): (r: Entity<P>)
    ensures Has(r, k)
    ensures Has(e, k) ==> r == e
    ensures !Has(e, k) ==> Get(r, k) == Some(default)
    ensures Untouched(e, r, k)
  {
    if Get(e, k).None? then Set(e, k, default) else e
  }

  /**
   * `mutate_or_default`: `f` runs on the component, or on `default` when there was
   * none; its result is returned and the component holds what `f` left.
   */
  function MutateOrDefault<P, O>(e: Entity<P>, k: Kind, default: Payload, f: Payload -> (Payload, O)): (r: (Entity<P>, O))
    ensures var c := if Has(e, k) then Get(e, k).value else default;
            Get(r.0, k) == Some(f(c).0) && r.1 == f(c).1
    ensures Untouched(e, r.0, k)
  {
    var filled := GetMutOrDefault(e, k, default);
    var c := Field(filled, k).value;
    (WithField(filled, k, Some(f(c).0)), f(c).1)
  }

  /** `with_mutation_or_default`: `mutate_or_default` returning the entity. */
  function WithMutationOrDefault<P>(e: Entity<P>, k: Kind, default: Payload, f: Payload -> Payload): (r: Entity<P>)
    ensures Get(r, k) == Some(f(if Has(e, k) then Get(e, k).value else default))
    ensures Untouched(e, r, k)
  {
    MutateOrDefault(e, k, default, (c: Payload) => (f(c), ())).0
  }

  /** `with_removed`: the entity without component `k`. */
  function WithRemoved<P>(e: Entity<P>, k: Kind): (r: Entity<P>)
    ensures !Has(r, k) && Untouched(e, r, k)
  {
    Remove(e, k).0
  }

  /** What a `with_component_change` callback asks for. */
  datatype ChangeComponent = NoChange | Replace(c: Payload) | MutateWith(f: Payload -> Payload) | RemoveIt

  /**
   * `with_component_change`: runs `decide` on the entity (which may change it) and
   * then applies its answer to component `k`: nothing, replace (adding if absent),
   * mutate (only if present), or remove.
   */
  function WithComponentChange<P>(e: Entity<P>, k: Kind, decide: Entity<P> -> (Entity<P>, ChangeComponent)): (r: Entity<P>)
    ensures var (d, change) := decide(e);
            match change
            case NoChange => r == d
            case RemoveIt => !Has(r, k) && Untouched(d, r, k)
            case Replace(c) => Get(r, k) == Some(c) && Untouched(d, r, k)
            case MutateWith(f) =>
              && (Has(d, k) ==> Get(r, k) == Some(f(Get(d, k).value)))
              && (!Has(d, k) ==> r == d)
              && Untouched(d, r, k)
  {
    var (d, change) := decide(e);
    match change
    case NoChange => d
    case RemoveIt => WithRemoved(d, k)
    case Replace(c) => With(d, k, c)
    case MutateWith(f) =>
      match Field(d, k)
      case Some(c) => WithField(d, k, Some(f(c)))
      case None => d
  }

  // ---------------------------------------------------------------------------
  // Enumerations and construction (generated by `define_entity!`)
  // ---------------------------------------------------------------------------

  /**
   * `for_each_active_component`: the components present, one `if` per declared
   * type, so in declaration order and each at most once.
   */
  function ActiveComponents<P>(e: Entity<P>): (r: seq<Kind>)
    ensures forall k: Kind :: k in r <==> Has(e, k)
    ensures forall i, j :: 0 <= i < j < |r| ==> Ord(r[i]) < Ord(r[j])
  {
    (if e.a.Some? then [A] else []) + (if e.b.Some? then [B] else []) + (if e.c.Some? then [C] else [])
  }

  /** `for_each_component`: every declared type, in order, with whether it is present. */
  function ComponentFlags<P>(e: Entity<P>): (r: seq<(Kind, bool)>)
    ensures |r| == |AllKinds|
    ensures forall i :: 0 <= i < |r| ==> r[i] == (AllKinds[i], Has(e, AllKinds[i]))
  {
    [(A, e.a.Some?), (B, e.b.Some?), (C, e.c.Some?)]
  }

  /** `for_all_components`: every declared type once, in declaration order. */
  function AllComponents(): (r: seq<Kind>)
    ensures forall k: Kind :: Ord(k) < |r| && r[Ord(k)] == k
    ensures forall i :: 0 <= i < |r| ==> Ord(r[i]) == i
  {
    AllKinds
  }

  /** `EntityOwnedBase::new`: the given properties and no component. */
  function New<P>(props: P): (r: Entity<P>)
    ensures r.props == props
    ensures forall k: Kind :: !Has(r, k)
    ensures ActiveComponents(r) == []
  {
    Entity(props, None, None, None)
  }

  // ---------------------------------------------------------------------------
  // Laws of the protocol
  // ---------------------------------------------------------------------------

  /**
   * `has` agrees with every other way of asking for a component: `get` finds it,
   * `peek` sees it, `for_each_active_component` lists it and `for_each_component`
   * flags it.
   */
  lemma HasAgrees<P, O>(e: Entity<P>, k: Kind, f: Payload -> O)
    ensures Has(e, k) <==> Get(e, k).Some?
    ensures Has(e, k) <==> Peek(e, k, f).Some?
    ensures Has(e, k) <==> k in ActiveComponents(e)
    ensures Has(e, k) <==> ComponentFlags(e)[Ord(k)] == (k, true)
  {
  }

  /** Two entities with the same properties and the same components are equal. */
  lemma Extensionality<P>(e: Entity<P>, d: Entity<P>)
    requires e.props == d.props
    requires forall k: Kind :: Get(e, k) == Get(d, k)
    ensures e == d
  {
    assert Get(e, A) == Get(d, A) && Get(e, B) == Get(d, B) && Get(e, C) == Get(d, C);
  }

  /** `with` then `with_removed` of the same type is `with_removed` alone: the added component leaves no trace. */
  lemma {:induction false} WithThenRemoved<P>(e: Entity<P>, k: Kind, c: Payload)
    ensures WithRemoved(With(e, k, c), k) == WithRemoved(e, k)
  {
    var l := WithRemoved(With(e, k, c), k);
    var r := WithRemoved(e, k);
    forall j: Kind
      ensures Get(l, j) == Get(r, j)
    {
      if j != k {
        assert Get(l, j) == Get(With(e, k, c), j);
      }
    }
    Extensionality(l, r);
  }

  /** Putting back the component just removed restores the entity. */
  lemma {:induction false} RemoveThenSetRestores<P>(e: Entity<P>, k: Kind)
    requires Has(e, k)
    ensures Set(Remove(e, k).0, k, Remove(e, k).1.value) == e
  {
    var r := Set(Remove(e, k).0, k, Remove(e, k).1.value);
    forall j: Kind
      ensures Get(r, j) == Get(e, j)
    {
      if j != k {
        assert Get(r, j) == Get(Remove(e, k).0, j);
      }
    }
    Extensionality(r, e);
  }

  /** A later `with` of the same type overrides an earlier one. */
  lemma {:induction false} WithOverrides<P>(e: Entity<P>, k: Kind, c1: Payload, c2: Payload)
    ensures With(With(e, k, c1), k, c2) == With(e, k, c2)
  {
    var l := With(With(e, k, c1), k, c2);
    var r := With(e, k, c2);
    forall j: Kind
      ensures Get(l, j) == Get(r, j)
    {
      if j != k {
        assert Get(l, j) == Get(With(e, k, c1), j);
      }
    }
    Extensionality(l, r);
  }

  /** Changing different component types commutes. */
  lemma {:induction false} WithCommutes<P>(e: Entity<P>, k1: Kind, c1: Payload, k2: Kind, c2: Payload)
    requires k1 != k2
    ensures With(With(e, k1, c1), k2, c2) == With(With(e, k2, c2), k1, c1)
  {
    var l := With(With(e, k1, c1), k2, c2);
    var r := With(With(e, k2, c2), k1, c1);
    forall j: Kind
      ensures Get(l, j) == Get(r, j)
    {
      if j != k1 && j != k2 {
        assert Get(l, j) == Get(With(e, k1, c1), j);
        assert Get(r, j) == Get(With(e, k2, c2), j);
      } else if j == k1 {
        assert Get(l, j) == Get(With(e, k1, c1), j);
      } else {
        assert Get(r, j) == Get(With(e, k2, c2), j);
      }
    }
    Extensionality(l, r);
  }
}
