/** Byte-level helpers shared by the decoder and the renderer. */
module Bytes {

  /** Line feed, `\n`. */
  const LF: bv8 := 0x0A
  /** Carriage return, `\r`. */
  const CR: bv8 := 0x0D

  /** Joins a sequence of byte strings end to end. */
  function Concat(parts: seq<seq<bv8>>): (r: seq<bv8>)
    decreases |parts|
  {
    if parts == [] then [] else parts[0] + Concat(parts[1..])
  }

  /** Appending is associative; stated once so that callers need not rediscover it element by element. */
  lemma AppendAssoc(a: seq<bv8>, b: seq<bv8>, c: seq<bv8>)
    ensures a + b + c == a + (b + c)
  {
  }

  /** Number of occurrences of `x` in `s`. */
  function Count(s: seq<bv8>, x: bv8): nat
    decreases |s|
  {
    if s == [] then 0 else (if s[0] == x then 1 else 0) + Count(s[1..], x)
  }
}
