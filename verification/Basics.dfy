/** What all parts share: optional values, bytes and small arithmetic. */
module Basics {
  datatype Option<+T> = None | Some(value: T)

  newtype Byte = x: int | 0 <= x < 256
  type Bytes = seq<Byte>

  /** Unsigned 32-bit numbers are below this one. */
  const UINT32: nat := 0x1_0000_0000

  /** What 32-bit arithmetic makes of a number. */
  function Wrap(n: int): nat { n % 0x1_0000_0000 }

  function Min(a: nat, b: nat): nat { if a < b then a else b }

  function Max(a: nat, b: nat): nat { if a < b then b else a }

  function One(b: bool): nat { if b then 1 else 0 }

  /** What a data packet carries at most, both of the block layer and of the session layer. */
  const PAYLOAD_SIZE: nat := 1024

  /** The bytes of `n` full payloads. */
  function Payloads(n: nat): nat { 1024 * n }

  /** How many payloads hold `len` bytes. */
  function Parts(len: nat): nat { (len + 1023) / 1024 }
}
