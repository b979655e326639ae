/** Link-layer and network addresses; only equality and the all-zero value matter here. */
module Addresses {
  newtype MacAddress = n: int | 0 <= n < 0x1_0000_0000_0000
  newtype Ipv6Address = n: int | 0 <= n < 0x1_0000_0000_0000_0000_0000_0000_0000_0000
}
