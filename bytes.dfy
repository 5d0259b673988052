/** Bytes, the fixed-size key and nonce types of NaCl, and Go's built-in `copy`
    into a zero-initialised fixed-size array. */
module Bytes {

  newtype byte = x: int | 0 <= x < 256

  const KeySize: nat := 32
  const NonceSize: nat := 24

  /** A NaCl key (`*[32]byte` in the source), held by value. */
  type Key = k: seq<byte> | |k| == KeySize witness Zeros(KeySize)

  /** A secretbox nonce (`*[24]byte` in the source), held by value. */
  type Nonce = n: seq<byte> | |n| == NonceSize witness Zeros(NonceSize)

  function Zeros(n: nat): (z: seq<byte>)
    ensures |z| == n && forall i :: 0 <= i < n ==> z[i] == 0
  {
    seq(n, _ => 0)
  }

  function Min(a: nat, b: nat): nat { if a <= b then a else b }

  /** The contents of a fresh `new([n]byte)` after `copy(dst[:], src)`: the first
      min(n, |src|) bytes of `src`, then the zero bytes Go allocated. */
  function Padded(n: nat, src: seq<byte>): (r: seq<byte>)
    ensures |r| == n
    ensures forall i :: 0 <= i < n ==> r[i] == if i < |src| then src[i] else 0
  {
    var m := Min(n, |src|);
    src[..m] + Zeros(n - m)
  }

  /** Copying exactly n bytes into an n-byte buffer keeps every byte. */
  lemma PaddedExact(n: nat, src: seq<byte>)
    requires |src| == n
    ensures Padded(n, src) == src
  {
  }

  /** Go's `copy(dst[:], src)`: copies min(len(dst), len(src)) bytes, returns
      that count and leaves the rest of `dst` as it was. */
  method Copy(dst: array<byte>, src: seq<byte>) returns (n: nat)
    modifies dst
    ensures n == Min(dst.Length, |src|)
    ensures dst[..] == src[..n] + old(dst[n..])
  {
    n := Min(dst.Length, |src|);
    forall i | 0 <= i < n {
      dst[i] := src[i];
    }
    assert dst[..] == src[..n] + old(dst[n..]);
  }
}
