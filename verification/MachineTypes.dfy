/**
 The fixed-width unsigned integers of the machine, and optional values.
 */
module MachineTypes {

  const TWO32: nat := 0x1_0000_0000

  type u8 = x: nat | x < 0x100
  type u16 = x: nat | x < 0x1_0000
  type u32 = x: nat | x < TWO32
  type u64 = x: nat | x < 0x1_0000_0000_0000_0000

  datatype Option<+T> = None | Some(value: T)
}
