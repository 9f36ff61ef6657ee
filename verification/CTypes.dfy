/** The C types that several components share. */
module CTypes {
  /** `uint32_t` */
  type U32 = n: nat | n < 0x1_0000_0000

  /** A `void *` slot. */
  datatype Ptr<+V> = Null | To(value: V)
}
