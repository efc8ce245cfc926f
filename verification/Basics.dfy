/** What several modules share. */
module Basics {

  type byte = bv8
  type Bytes = seq<byte>

  const NUL: byte := 0
  const NEWLINE: byte := 10
  const RETURN: byte := 13
  const SPACE: byte := 32

  datatype Option<+T> = None | Some(value: T)

  function Min(x: nat, y: nat): (r: nat)
    ensures r <= x && r <= y && (r == x || r == y)
  {
    if x < y then x else y
  }
}
