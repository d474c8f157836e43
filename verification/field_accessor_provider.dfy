/** DelegatingFieldAccessorProvider: a per-type memo of the field accessors of
    a persistent entity. An accessor is asked of the delegating factory for
    every direct property and for the inverse property of every association;
    properties the factory has no accessor for are left out. */
module FieldAccessors {

  import opened Wrappers

  /** An association between entities, reduced to its inverse property. */
  datatype Association<P> = Association(inverse: P)

  /** A persistent entity: its type information, its direct properties and its
      associations, each in the order the entity iterates them. */
  datatype Entity<T, P> = Entity(typeInformation: T, properties: seq<P>, associations: seq<Association<P>>)

  /** The inverse properties of `associations`, in order. */
  function Inverses<P>(associations: seq<Association<P>>): (r: seq<P>)
    ensures |r| == |associations|
    ensures forall k :: 0 <= k < |r| ==> r[k] == associations[k].inverse
  {
    if associations == [] then []
    else [associations[0].inverse] + Inverses(associations[1..])
  }

  /** The properties an accessor is asked for, in the order they are asked. */
  function Candidates<T, P>(entity: Entity<T, P>): seq<P>
  {
    entity.properties + Inverses(entity.associations)
  }

  class DelegatingFieldAccessorProvider<T(==), P(==), A> {
    /** The delegating factory: forField, with None for a null accessor. */
    const forField: P -> Option<A>
    /** fieldAccessorCache: type information to the map built for it. */
    var fieldAccessorCache: map<T, map<P, A>>
    /** The entity each cache entry was built from. */
    ghost var builtFrom: map<T, Entity<T, P>>
    /** Every property forField has been asked for, in order. */
    ghost var factoryQueries: seq<P>

    /** `fieldAccessors` is the accessor map of `entity`: each key is a
        candidate property bound to the factory's non-null answer for it, and
        every candidate with a non-null answer is a key. */
    ghost predicate Resolved(entity: Entity<T, P>, fieldAccessors: map<P, A>)
    {
      && (forall p :: p in fieldAccessors ==> p in Candidates(entity) && forField(p) == Some(fieldAccessors[p]))
      && (forall p :: p in Candidates(entity) && forField(p).Some? ==> p in fieldAccessors)
    }

    /** Every cache entry is the accessor map of the entity it was built from,
        an entity of that type. */
    ghost predicate Valid()
      reads this
    {
      && fieldAccessorCache.Keys == builtFrom.Keys
      && forall t :: t in fieldAccessorCache ==>
           builtFrom[t].typeInformation == t && Resolved(builtFrom[t], fieldAccessorCache[t])
    }

    constructor (forField: P -> Option<A>)
      ensures Valid()
      ensures this.forField == forField
      ensures fieldAccessorCache == map[] && factoryQueries == []
    {
      this.forField := forField;
      fieldAccessorCache := map[];
      builtFrom := map[];
      factoryQueries := [];
    }

    /** The entity fixes its accessor map: two maps that both resolve it are equal. */
    lemma ResolvedUnique(entity: Entity<T, P>, a: map<P, A>, b: map<P, A>)
      requires Resolved(entity, a) && Resolved(entity, b)
      ensures a == b
    {
      assert a.Keys == b.Keys;
      forall p | p in a ensures a[p] == b[p] {
        assert Some(a[p]) == forField(p) == Some(b[p]);
      }
    }

    /** The miss path: walk the properties, then the associations' inverses,
        asking the factory once for each and keeping the non-null answers. */
    method CollectFieldAccessors(entity: Entity<T, P>) returns (fieldAccessors: map<P, A>, ghost queries: seq<P>)
      ensures Resolved(entity, fieldAccessors)
      ensures queries == Candidates(entity)
    {
      fieldAccessors, queries := map[], [];
      var properties := entity.properties;
      for i := 0 to |properties|
        invariant queries == properties[..i]
        invariant forall p :: p in fieldAccessors ==> p in queries && forField(p) == Some(fieldAccessors[p])
        invariant forall p :: p in queries && forField(p).Some? ==> p in fieldAccessors
      {
        var property := properties[i];
        var accessor := forField(property);
        queries := queries + [property];
        if accessor.Some? {
          fieldAccessors := fieldAccessors[property := accessor.value];
        }
      }
      assert properties[..|properties|] == properties;
      var associations := entity.associations;
      for j := 0 to |associations|
        invariant queries == properties + Inverses(associations)[..j]
        invariant forall p :: p in fieldAccessors ==> p in queries && forField(p) == Some(fieldAccessors[p])
        invariant forall p :: p in queries && forField(p).Some? ==> p in fieldAccessors
      {
        var property := associations[j].inverse;
        var accessor := forField(property);
        assert Inverses(associations)[..j + 1] == Inverses(associations)[..j] + [property];
        queries := queries + [property];
        if accessor.Some? {
          fieldAccessors := fieldAccessors[property := accessor.value];
        }
      }
      assert Inverses(associations)[..|associations|] == Inverses(associations);
    }

    /** provideFieldAccessors: a type already in the cache (even with an empty
        map) gets its cached map and the factory is not asked; otherwise the
        map is built, cached under the type, and returned. */
    method ProvideFieldAccessors(entity: Entity<T, P>) returns (fieldAccessors: map<P, A>)
      requires Valid()
      modifies this
      ensures Valid()
      ensures entity.typeInformation in old(fieldAccessorCache) ==>
        && fieldAccessors == old(fieldAccessorCache)[entity.typeInformation]
        && fieldAccessorCache == old(fieldAccessorCache)
        && builtFrom == old(builtFrom)
        && factoryQueries == old(factoryQueries)
      ensures entity.typeInformation !in old(fieldAccessorCache) ==>
        && Resolved(entity, fieldAccessors)
        && fieldAccessorCache == old(fieldAccessorCache)[entity.typeInformation := fieldAccessors]
        && builtFrom == old(builtFrom)[entity.typeInformation := entity]
        && factoryQueries == old(factoryQueries) + Candidates(entity)
      ensures Resolved(builtFrom[entity.typeInformation], fieldAccessors)
    {
      var typeInformation := entity.typeInformation;
      if typeInformation in fieldAccessorCache {
        return fieldAccessorCache[typeInformation];
      }
      ghost var queries;
      fieldAccessors, queries := CollectFieldAccessors(entity);
      factoryQueries := factoryQueries + queries;
      fieldAccessorCache := fieldAccessorCache[typeInformation := fieldAccessors];
      builtFrom := builtFrom[typeInformation := entity];
    }
  }

  /** Memoisation: two calls for the same type give the same map, which is the
      entity's accessor map, and the second call leaves the cache as it is. */
  method SecondCallHitsCache<T(==), P(==), A(==)>(forField: P -> Option<A>, entity: Entity<T, P>)
    returns (first: map<P, A>, second: map<P, A>, cacheUnchanged: bool)
    ensures first == second
    ensures forall p :: p in first <==> p in Candidates(entity) && forField(p).Some?
    ensures forall p :: p in first ==> forField(p) == Some(first[p])
    ensures cacheUnchanged
  {
    var provider := new DelegatingFieldAccessorProvider(forField);
    first := provider.ProvideFieldAccessors(entity);
    var cache := provider.fieldAccessorCache;
    second := provider.ProvideFieldAccessors(entity);
    cacheUnchanged := provider.fieldAccessorCache == cache;
  }

  /** A type whose map came out empty is still a cache hit: its entry is
      there, bound to the empty map. */
  method EmptyMapIsCached<T(==), P(==), A>(entity: Entity<T, P>)
    returns (fieldAccessors: map<P, A>, cached: bool, cacheSize: nat)
    ensures fieldAccessors == map[]
    ensures cached && cacheSize == 1
  {
    var provider := new DelegatingFieldAccessorProvider<T, P, A>(p => None);
    fieldAccessors := provider.ProvideFieldAccessors(entity);
    cached := entity.typeInformation in provider.fieldAccessorCache;
    cacheSize := |provider.fieldAccessorCache|;
  }
}
