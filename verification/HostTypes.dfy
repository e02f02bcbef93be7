/** Sizes shared by the models of the C sources. */
module HostTypes {

  type Byte = b: int | 0 <= b < 0x100

  /** One past the largest `unsigned long`. */
  const ADDRESS_SPACE: nat := 0x1_0000_0000_0000_0000

  datatype Option<+T> = None | Some(value: T)
}
