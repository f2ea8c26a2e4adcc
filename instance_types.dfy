/** The instance-type entity and the Java integer widths it is stored in. */
module InstanceTypes {

  /** Java `int` / `Integer`. */
  type Int32 = x: int | -0x8000_0000 <= x < 0x8000_0000

  /** Java `long` / `Long`. */
  type Int64 = x: int | -0x8000_0000_0000_0000 <= x < 0x8000_0000_0000_0000

  const TWO_TO_64: int := 0x1_0000_0000_0000_0000

  /** Two's-complement wrap-around of a Java `long` operation whose exact value is `x`. */
  function Wrap64(x: int): (r: Int64)
    ensures (r - x) % TWO_TO_64 == 0
    ensures -0x8000_0000_0000_0000 <= x < 0x8000_0000_0000_0000 ==> r == x
  {
    (x + 0x8000_0000_0000_0000) % TWO_TO_64 - 0x8000_0000_0000_0000
  }

  /**
   * An instance type (`VmType`): its name is its identity; cpu count, instance-store disk
   * in GiB, memory in MiB, network-interface limit and whether it is offered.
   */
  datatype VmType = VmType(
    name: string,
    cpu: Int32,
    disk: Int32,
    memory: Int32,
    networkInterfaces: Int32,
    enabled: bool)

  /** The exceptions the registry's operations can end with. */
  datatype Fault =
    | NoSuchMetadata(name: string)      // NoSuchMetadataException: the name is not cached
    | NoSuchPredefined(constant: string) // IllegalArgumentException from PredefinedTypes.valueOf
    | PersistenceFailure(name: string)  // the persistence port refused a write
}
