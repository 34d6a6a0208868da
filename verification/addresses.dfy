/** A build-target address: the directory of its BUILD file and the target's name. */
module Addresses {
  datatype Address = Address(specPath: string, targetName: string)

  /**
   * A target as read from a BUILD file: its address, its declared
   * dependencies and (for the dependent graph) the implicit dependencies its
   * target type adds.
   */
  datatype TargetAdaptor = TargetAdaptor(
    address: Address,
    dependencies: seq<Address>,
    implicitDependencies: seq<Address>)
}
