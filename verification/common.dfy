/** What the models have in common: optional values and 32-bit words. */
module Common {
  datatype Option<+T> = None | Some(value: T)

  const UINT: nat := 0x1_0000_0000

  /** What a 32-bit word keeps of x. */
  function U32(x: int): nat { x % UINT }
}
