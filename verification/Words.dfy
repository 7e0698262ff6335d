/** Machine words and octets. */
module Words {

  const WORD := 0x1_0000_0000

  type u32 = x: int | 0 <= x < 0x1_0000_0000

  type Octet = c: int | 0 <= c < 256
}
