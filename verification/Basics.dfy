/** Values shared by the on-chain program and the off-chain service. */
module Basics {

  datatype Option<+T> = None | Some(value: T)

  datatype Result<+T, +E> = Ok(value: T) | Err(error: E)

  newtype byte = b: int | 0 <= b < 256

  const ZEROS: seq<byte> :=
    [0, 0, 0, 0, 0, 0, 0, 0, 0, 0, 0, 0, 0, 0, 0, 0, 0, 0, 0, 0, 0, 0, 0, 0, 0, 0, 0, 0, 0, 0, 0, 0]

  type Bytes32 = s: seq<byte> | |s| == 32 witness ZEROS

  /** A 32-byte Merkle leaf, node or root (also nullifiers and schema ids). */
  datatype Digest = Digest(bytes: Bytes32)

  const ZERO_DIGEST := Digest(ZEROS)

  /** A 32-byte account address or wallet key. */
  datatype Pubkey = Pubkey(bytes: Bytes32)

  const DEFAULT_PUBKEY := Pubkey(ZEROS)

  /** Keccak-256. It stays a parameter of the whole model, so that every result
      holds for every hash function; no injectivity is ever assumed. */
  type Keccak = seq<byte> -> Digest

  const U8_MAX: nat := 255
  const U16_MAX: nat := 0xFFFF
  const U32_MAX: nat := 0xFFFF_FFFF
  const U64_MAX: nat := 0xFFFF_FFFF_FFFF_FFFF

  /** An unsigned 64-bit word. */
  type Word64 = n: int | 0 <= n <= U64_MAX

  /** Unsigned subtraction that stops at zero. */
  function SaturatingSub(a: nat, b: nat): nat {
    if a >= b then a - b else 0
  }

  /** Two messages offered as a counterexample to collision resistance. */
  datatype Collision = Collision(first: seq<byte>, second: seq<byte>)

  predicate IsCollision(keccak: Keccak, c: Collision) {
    c.first != c.second && keccak(c.first) == keccak(c.second)
  }
}
