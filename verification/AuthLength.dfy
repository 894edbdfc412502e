/** The length of the destination of an authenticated request, computed in 32-bit integers. */
module AuthLength {

  const TWO31 := 0x8000_0000
  const TWO32 := 0x1_0000_0000

  /** The conversion to int, which wraps. */
  function ToInt(n: int): (i: int)
    ensures -TWO31 <= i < TWO31
    ensures -TWO31 <= n < TWO31 ==> i == n
  {
    (n + TWO31) % TWO32 - TWO31
  }

  /** The remainder with the sign of the dividend. */
  function Rem(n: int, d: int): int
    requires d > 0
  {
    if n >= 0 then n % d else -((-n) % d)
  }

  /** cryptodev_get_dst_len: the tag, and for a TLS record a padding, are added when encrypting. */
  function DstLen(encrypt: bool, tls: bool, len: nat, tagLen: nat, bs: nat): (n: int)
    requires bs > 0
    ensures -TWO31 <= n < TWO31
  {
    if !encrypt then ToInt(len)
    else
      var n := ToInt(len + tagLen);
      if tls then ToInt(n + bs - Rem(n, bs)) else n
  }

  /** The conversion of an int to the unsigned argument of get_userbuf. */
  function Unsigned(n: int): nat { n % TWO32 }
}
