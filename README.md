# ConnectivityPredicate, modelled in Dafny

This project models the connectivity filters of the FlowReactiveNetwork Android
library: `object ConnectivityPredicate`, whose builders `hasState` and `hasType`
return a `Predicate<Connectivity>` used to filter a stream of connectivity events
by network state or by network type, and its helper
`appendUnknownNetworkTypeToTypes`, which extends the caller's types with the
`UNKNOWN_TYPE` sentinel so that a disconnect (whose type collapses to unknown)
still passes a type filter.

- `network.dfy` (module `Network`): the event `Connectivity(state, networkType)`,
  the `State` enumeration of `NetworkInfo.State`, Kotlin's `Int` as the newtype
  `Int32`, and `UnknownType` as a constant whose value is left open, so every
  property holds for any value of the sentinel.
- `connectivity_predicate.dfy` (module `ConnectivityPredicate`): a built
  predicate is represented by the array it captures; each `test` is a read-only
  method with the source's loop and early return, proved against the
  specification predicate `Occurs` (some index holds the value).
  `appendUnknownNetworkTypeToTypes` is a method that fills a fresh array with a
  loop and a separate counter, as the source does. `hasType`'s building step is
  the method `HasType`.

The KDoc of `hasState` (ConnectivityPredicate.kt:28) says `states` can have one
or more states; the code accepts an empty `vararg` and then rejects every event.
Likewise the KDoc of `hasType` (ConnectivityPredicate.kt:49) speaks of one or
more types; with none, the built predicate accepts exactly the events of type
`UNKNOWN_TYPE`. The model follows the code in both cases.

## Model

| member | source | states |
|---|---|---|
| ConnectivityPredicate.HasStateTest | reactiveNetwork/src/main/kotlin/ru/beryukhov/reactivenetwork/ConnectivityPredicate.kt:32-43 | the predicate built by `hasState` accepts an event exactly when some captured state equals the event's state; with no states it rejects every event |
| ConnectivityPredicate.AppendUnknownNetworkTypeToTypes | reactiveNetwork/src/main/kotlin/ru/beryukhov/reactivenetwork/ConnectivityPredicate.kt:78-87 | the result is a fresh array (never the input) of length `types.size + 1`, holding every input element at its own index and `UNKNOWN_TYPE` in the last slot; the input is unchanged |
| ConnectivityPredicate.HasType | reactiveNetwork/src/main/kotlin/ru/beryukhov/reactivenetwork/ConnectivityPredicate.kt:53-55 | the array captured by `hasType` is the input followed by `UNKNOWN_TYPE`, and a type occurs in it exactly when the caller listed it or it is `UNKNOWN_TYPE`; with no types only `UNKNOWN_TYPE` occurs |
| ConnectivityPredicate.HasTypeTest | reactiveNetwork/src/main/kotlin/ru/beryukhov/reactivenetwork/ConnectivityPredicate.kt:56-66 | the predicate built by `hasType` accepts an event exactly when its type occurs in the captured extended types |
| ConnectivityPredicate.HasTypeAccepts | reactiveNetwork/src/main/kotlin/ru/beryukhov/reactivenetwork/ConnectivityPredicate.kt:53-66 | building a type filter with `hasType` and testing an event with it accepts exactly the events whose type the caller listed or is `UNKNOWN_TYPE`; with no types, exactly the events of type `UNKNOWN_TYPE` |
| ConnectivityPredicate.ExtendedTypesOccurs | reactiveNetwork/src/main/kotlin/ru/beryukhov/reactivenetwork/ConnectivityPredicate.kt:53-66 | a type filter accepts a type if and only if the caller listed it or it equals `UNKNOWN_TYPE`, so a disconnect always passes |
| ConnectivityPredicate.UnknownTypeAppendedOnce | reactiveNetwork/src/main/kotlin/ru/beryukhov/reactivenetwork/ConnectivityPredicate.kt:85 | the sentinel is appended exactly once: the extended types hold `UNKNOWN_TYPE` one more time than the input, even when the input already holds it, and exactly once when the input is empty; every other type occurs as often as in the input |
| ConnectivityPredicate.CountAppend | reactiveNetwork/src/main/kotlin/ru/beryukhov/reactivenetwork/ConnectivityPredicate.kt:81-85 | writing one element after the copied input raises that element's number of occurrences by one and leaves every other value's count unchanged |
| ConnectivityPredicate.OccursIffCounted | reactiveNetwork/src/main/kotlin/ru/beryukhov/reactivenetwork/ConnectivityPredicate.kt:59-64 | the membership that the linear search decides agrees with counting occurrences: a value occurs exactly when its count is positive |

## Left out

- The `@Throws(Exception::class)` calling convention of `test`: no exception is raised by this logic.
- How `Connectivity` values are constructed and the numeric value of `Connectivity.UNKNOWN_TYPE`: neither is part of this model; the sentinel is an unspecified constant.
- The anonymous `Predicate<Connectivity>` objects themselves: a built predicate is represented by the array it captures, and `test` takes that array as a parameter. The `vararg` array that `hasState` captures is passed straight to `HasStateTest`.
- `IntArray(types.size + 1)` overflowing when `types.size` is `Int.MAX_VALUE`: the JVM cannot allocate such an array, so array lengths are unbounded here.
- The `Flow` filtering that consumes the predicates, and the Android observing strategies and their tests (PreLollipopNetworkObservingStrategyTest.kt): platform lifecycle and concurrency, not part of this model.
