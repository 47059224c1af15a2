/** Unsigned machine words as bounded naturals. */
module Words {
  type nibble = n: nat | n < 0x10
  type byte = b: nat | b < 0x100
  type word = w: nat | w < 0x1_0000
  type dword = w: nat | w < 0x1_0000_0000
  type qword = w: nat | w < 0x1_0000_0000_0000_0000

  datatype Option<+T> = None | Some(value: T)
}
