/** Bytes, two-byte big-endian fields and the few sequence facts the other modules share. */
module Bytes {

  newtype byte = b: int | 0 <= b < 256

  datatype Option<+T> = None | Some(value: T)

  function U16(hi: byte, lo: byte): nat {
    256 * hi as nat + lo as nat
  }

  /** `n.to_bytes(2, "big")`. */
  function U16Bytes(n: nat): (s: seq<byte>)
    requires n < 0x1_0000
    ensures |s| == 2 && U16(s[0], s[1]) == n
  {
    [(n / 256) as byte, (n % 256) as byte]
  }

  /** A two-byte field is determined by its value. */
  lemma U16Injective(s: seq<byte>, n: nat)
    requires |s| == 2 && n < 0x1_0000 && U16(s[0], s[1]) == n
    ensures s == U16Bytes(n)
  {
  }

  lemma Reassociate<T>(a: seq<T>, b: seq<T>, c: seq<T>)
    ensures a + (b + c) == (a + b) + c
  {
  }

  predicate StartsWith(s: seq<byte>, prefix: seq<byte>) {
    prefix <= s
  }

  predicate Ascii(s: seq<byte>) {
    forall i :: 0 <= i < |s| ==> s[i] < 128
  }
}
