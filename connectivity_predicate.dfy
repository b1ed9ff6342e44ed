// The filters of `object ConnectivityPredicate`: `hasState` and `hasType` build a
// `Predicate<Connectivity>` that captures an array of accepted values; its `test`
// is a linear search with an early return. A built predicate is modelled by the
// array it captures, and its `test` by a read-only method over that array.

module ConnectivityPredicate {
  import opened Network

  /** `x` is one of the elements of `xs`: some index holds it. */
  predicate Occurs<T(==)>(xs: seq<T>, x: T) {
    exists i | 0 <= i < |xs| :: xs[i] == x
  }

  /** The number of indices of `xs` that hold `x`: the multiplicity `multiset(xs)[x]`. */
  function Count<T(==)>(xs: seq<T>, x: T): nat {
    if xs == [] then 0
    else (if xs[0] == x then 1 else 0) + Count(xs[1..], x)
  }

  /**
   * `test` of the predicate built by `hasState(*states)`: accepts the event exactly
   * when its state is one of the captured states, and so rejects every event when
   * no state was given.
   */
  method HasStateTest(states: array<State>, connectivity: Connectivity) returns (accepted: bool)
    ensures accepted <==> Occurs(states[..], connectivity.state)
    ensures states.Length == 0 ==> !accepted
  {
    for j := 0 to states.Length
      invariant forall k | 0 <= k < j :: states[k] != connectivity.state
    {
      if connectivity.state == states[j] {
        return true;
      }
    }
    return false;
  }

  /**
   * `appendUnknownNetworkTypeToTypes`: a fresh array one longer than `types`, holding
   * the elements of `types` in their order followed by `UnknownType`. The input is
   * only read, and the result never aliases it.
   */
  method AppendUnknownNetworkTypeToTypes(types: array<Int32>) returns (extendedTypes: array<Int32>)
    ensures fresh(extendedTypes)
    // The last clause is the full statement of the result; the ones before it
    // spell out its promises one by one (the input is only read, the length,
    // the copied prefix in order, the sentinel in the last slot).
    ensures types[..] == old(types[..])
    ensures extendedTypes.Length == types.Length + 1
    ensures forall k | 0 <= k < types.Length :: extendedTypes[k] == types[k]
    ensures extendedTypes[types.Length] == UnknownType
    ensures extendedTypes[..] == types[..] + [UnknownType]
  {
    var i := 0;
    extendedTypes := new Int32[types.Length + 1];
    for j := 0 to types.Length
      invariant i == j
      invariant forall k | 0 <= k < i :: extendedTypes[k] == types[k]
    {
      extendedTypes[i] := types[j];
      i := i + 1;
    }
    assert i == types.Length;
    extendedTypes[i] := UnknownType;
    assert extendedTypes[..] == types[..] + [UnknownType];
  }

  /**
   * The building step of `hasType(*types)`: the array the predicate captures accepts
   * exactly the given types and `UnknownType`; with no types given, only `UnknownType`.
   */
  method HasType(types: array<Int32>) returns (extendedTypes: array<Int32>)
    ensures fresh(extendedTypes)
    ensures extendedTypes[..] == types[..] + [UnknownType]
    ensures forall t :: Occurs(extendedTypes[..], t) <==> Occurs(types[..], t) || t == UnknownType
    ensures types.Length == 0 ==> forall t :: Occurs(extendedTypes[..], t) <==> t == UnknownType
  {
    extendedTypes := AppendUnknownNetworkTypeToTypes(types);
    forall t ensures Occurs(extendedTypes[..], t) <==> Occurs(types[..], t) || t == UnknownType {
      ExtendedTypesOccurs(types[..], t);
    }
  }

  /**
   * `test` of the predicate built by `hasType`: accepts the event exactly when its
   * type is one of the captured (extended) types.
   */
  method HasTypeTest(extendedTypes: array<Int32>, connectivity: Connectivity) returns (accepted: bool)
    ensures accepted <==> Occurs(extendedTypes[..], connectivity.networkType)
  {
    for j := 0 to extendedTypes.Length
      invariant forall k | 0 <= k < j :: extendedTypes[k] != connectivity.networkType
    {
      if connectivity.networkType == extendedTypes[j] {
        return true;
      }
    }
    return false;
  }

  /**
   * `hasType(*types)` followed by its `test`: the built filter accepts an event exactly
   * when its type was listed by the caller or is `UnknownType`.
   */
  method HasTypeAccepts(types: array<Int32>, connectivity: Connectivity) returns (accepted: bool)
    ensures accepted <==> Occurs(types[..], connectivity.networkType) || connectivity.networkType == UnknownType
    ensures types.Length == 0 ==> (accepted <==> connectivity.networkType == UnknownType)
  {
    var extendedTypes := HasType(types);
    accepted := HasTypeTest(extendedTypes, connectivity);
  }

  /** A type filter accepts a type exactly when the caller listed it or it is `UnknownType`. */
  lemma ExtendedTypesOccurs(types: seq<Int32>, t: Int32)
    ensures Occurs(types + [UnknownType], t) <==> Occurs(types, t) || t == UnknownType
  {
    var extended := types + [UnknownType];
    if Occurs(types, t) {
      var i :| 0 <= i < |types| && types[i] == t;
      assert extended[i] == t;
    }
    if t == UnknownType {
      assert extended[|types|] == t;
    }
  }

  /** `Occurs` and `Count` agree: an element occurs exactly when it is counted at least once. */
  lemma {:induction false} OccursIffCounted<T>(xs: seq<T>, x: T)
    ensures Occurs(xs, x) <==> Count(xs, x) > 0
  {
    if xs != [] {
      var tail := xs[1..];
      OccursIffCounted(tail, x);
      if Occurs(tail, x) {
        var i :| 0 <= i < |tail| && tail[i] == x;
        assert xs[i + 1] == x;
      }
      if Occurs(xs, x) && xs[0] != x {
        var i :| 0 <= i < |xs| && xs[i] == x;
        assert tail[i - 1] == x;
      }
    }
  }

  /** Appending one element adds one to its own count and leaves every other count alone. */
  lemma {:induction false} CountAppend<T>(xs: seq<T>, y: T, x: T)
    ensures Count(xs + [y], x) == Count(xs, x) + (if y == x then 1 else 0)
  {
    if xs != [] {
      assert (xs + [y])[1..] == xs[1..] + [y];
      CountAppend(xs[1..], y, x);
    }
  }

  /**
   * `UnknownType` is appended exactly once: the extended array holds it one more time
   * than the caller's types, whether they already contained it or were empty, and
   * every other type as often as the caller listed it.
   */
  lemma UnknownTypeAppendedOnce(types: seq<Int32>)
    ensures Count(types + [UnknownType], UnknownType) == Count(types, UnknownType) + 1
    ensures types == [] ==> Count(types + [UnknownType], UnknownType) == 1
    ensures forall t | t != UnknownType :: Count(types + [UnknownType], t) == Count(types, t)
  {
    forall t ensures Count(types + [UnknownType], t) == Count(types, t) + (if t == UnknownType then 1 else 0) {
      CountAppend(types, UnknownType, t);
    }
  }
}
