// The connectivity event that the predicates of ConnectivityPredicate inspect:
// a network state together with an integer network type.

module Network {
  /** Kotlin's `Int`: a signed 32-bit integer. Network types are only ever compared. */
  newtype Int32 = x: int | -0x8000_0000 <= x < 0x8000_0000

  /** The lifecycle phases of a network connection (Android's `NetworkInfo.State`). */
  datatype State = Connecting | Connected | Suspended | Disconnecting | Disconnected | Unknown

  /**
   * One connectivity event: `state()` and `type()` of the library's `Connectivity` value.
   * `type` is a Dafny keyword, hence the field name `networkType`.
   */
  datatype Connectivity = Connectivity(state: State, networkType: Int32)

  /**
   * `Connectivity.UNKNOWN_TYPE`, the type an event carries when no concrete network
   * type applies (for instance once the device has disconnected). Its numeric value
   * is left open: every property below holds whatever it is.
   */
  const UnknownType: Int32
}
