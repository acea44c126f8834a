/** Bytes, words, C strings and the small sequence facts the other modules share. */
module Bytes {

  datatype Option<+T> = None | Some(value: T) {
    function GetOr(default: T): T {
      if None? then default else value
    }
  }

  type byte = b: int | 0 <= b < 256

  const NUL: byte := 0

  /** Where a 32-bit unsigned long wraps. */
  const MODULUS: nat := 0x1_0000_0000

  type word = w: int | 0 <= w < 0x1_0000_0000

  /** A C string is modelled by its characters, without the terminating NUL. */
  predicate NoNul(s: seq<byte>) {
    forall k :: 0 <= k < |s| ==> s[k] != NUL
  }

  /** The character a C pointer into `s` sees: past the last one it is the terminator. */
  function CharAt(s: seq<byte>, i: nat): byte {
    if i < |s| then s[i] else NUL
  }

  lemma Assoc<T>(a: seq<T>, b: seq<T>, c: seq<T>)
    ensures a + b + c == a + (b + c)
  {
  }
}
