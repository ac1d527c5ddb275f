/** Hash functions as the stores use them: uninterpreted, with hexadecimal digests.

    No hash is injective, so nothing here assumes it is.  Where a result rests on collision
    resistance it says so of the finitely many inputs the operation actually hashed:
    `NoCollision(hash, inputs)`.
  */
module Hashing {
  type Byte = x: int | 0 <= x < 256
  type Bytes = seq<Byte>

  datatype Option<+T> = None | Some(value: T)

  datatype Result<+T, +E> = Ok(value: T) | Err(error: E)

  predicate IsHexDigit(c: char) {
    '0' <= c <= '9' || 'a' <= c <= 'f'
  }

  predicate IsHex(s: string) {
    s != "" && forall i | 0 <= i < |s| :: IsHexDigit(s[i])
  }

  /** Every digest is a non-empty lower-case hexadecimal string. */
  ghost predicate HexDigests<T(!new)>(hash: T -> string) {
    forall x :: IsHex(hash(x))
  }

  /** Every digest is `width` characters long. */
  ghost predicate FixedWidth<T(!new)>(hash: T -> string, width: nat) {
    forall x :: |hash(x)| == width
  }

  /** No two of the given inputs share a digest. */
  ghost predicate NoCollision<T>(hash: T -> string, inputs: set<T>) {
    forall x, y | x in inputs && y in inputs && hash(x) == hash(y) :: x == y
  }
}
