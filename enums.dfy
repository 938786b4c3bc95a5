/** The two enumerations of src/ipfs/enums.ts. */
module Enums {

  /** The kind of an IPFS node (`IpfsType`). */
  datatype NodeType = Localhost | Cloud | Pinata

  /**
   * The pinning strategy (`IpfsPinType`). The enumeration in the repository only declares
   * `Sequential` and `Parallel`, but the manager also switches on `Distributed`; `Other`
   * stands for any further value, which reaches the `default` branch of that switch.
   */
  datatype PinStrategy = Sequential | Parallel | Distributed | Other
}
