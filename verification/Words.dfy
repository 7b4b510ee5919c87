/** The machine's unsigned integers. */
module Words {

  const WORD32 := 0x1_0000_0000
  const WORD48 := 0x1_0000_0000_0000
  const WORD64 := 0x1_0000_0000_0000_0000

  type U32 = x: nat | x < WORD32

  type U64 = x: nat | x < WORD64
}
