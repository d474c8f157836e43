/** MappingPolicy: how an entity is mapped, as two flags. The class itself is
    not part of this model; its three constants are fixed by what the test
    class asserts about them, and combineWith is ASSUMED to keep dirty
    tracking if either policy has it and eager loading only if both have it,
    the simplest definition agreeing with the one asserted combination.
    Every lemma below that goes beyond those assertions is derived from this
    assumption. */
module MappingPolicies {

  datatype MappingPolicy = MappingPolicy(useDirty: bool, eagerLoad: bool)
  {
    /** combineWith (assumed): dirty tracking from either side, eager
        loading only when both sides load eagerly. */
    function CombineWith(other: MappingPolicy): (r: MappingPolicy)
      ensures r.useDirty <==> useDirty || other.useDirty
      ensures r.eagerLoad <==> eagerLoad && other.eagerLoad
    {
      MappingPolicy(useDirty || other.useDirty, eagerLoad && other.eagerLoad)
    }
  }

  const DefaultPolicy: MappingPolicy := MappingPolicy(false, true)
  const MapFieldDirectPolicy: MappingPolicy := MappingPolicy(true, true)
  const LazyLoadPolicy: MappingPolicy := MappingPolicy(false, false)

  // ---------------------------------------------------------------------
  // As asserted by the tests

  lemma DefaultPolicyFlags()
    ensures !DefaultPolicy.useDirty && DefaultPolicy.eagerLoad
  {
  }

  lemma MapFieldDirectPolicyFlags()
    ensures MapFieldDirectPolicy.useDirty && MapFieldDirectPolicy.eagerLoad
  {
  }

  lemma LazyLoadPolicyFlags()
    ensures !LazyLoadPolicy.eagerLoad && !LazyLoadPolicy.useDirty
  {
  }

  /** Direct field mapping combined with lazy loading keeps dirty tracking
      and drops eager loading. */
  lemma DirectCombinedWithLazy()
    ensures MapFieldDirectPolicy.CombineWith(LazyLoadPolicy).useDirty
    ensures !MapFieldDirectPolicy.CombineWith(LazyLoadPolicy).eagerLoad
  {
  }

  // ---------------------------------------------------------------------
  // Derived from the assumed combineWith

  lemma CombineCommutative(a: MappingPolicy, b: MappingPolicy)
    ensures a.CombineWith(b) == b.CombineWith(a)
  {
  }

  lemma CombineAssociative(a: MappingPolicy, b: MappingPolicy, c: MappingPolicy)
    ensures a.CombineWith(b).CombineWith(c) == a.CombineWith(b.CombineWith(c))
  {
  }

  lemma CombineIdempotent(a: MappingPolicy)
    ensures a.CombineWith(a) == a
  {
  }

  /** The default policy changes nothing it is combined with. */
  lemma DefaultIsNeutral(a: MappingPolicy)
    ensures a.CombineWith(DefaultPolicy) == a && DefaultPolicy.CombineWith(a) == a
  {
  }

  /** Every policy is a combination of the three named ones: lazy loading is
      absorbing for eager loading, direct mapping for dirty tracking. */
  lemma GeneratedByConstants(a: MappingPolicy)
    ensures a == (if a.useDirty then MapFieldDirectPolicy else DefaultPolicy)
                   .CombineWith(if a.eagerLoad then DefaultPolicy else LazyLoadPolicy)
  {
  }
}
