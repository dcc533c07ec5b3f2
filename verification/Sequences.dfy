/** Bytes, and sequences given in parts. */
module Sequences {

  type byte = b: int | 0 <= b < 256

  function Joined<T>(parts: seq<seq<T>>): seq<T> {
    if parts == [] then [] else parts[0] + Joined(parts[1..])
  }
}
