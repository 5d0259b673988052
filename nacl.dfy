/** The NaCl primitives the envelope is built from, kept abstract.

    `golang.org/x/crypto/nacl/box` (SealAnonymous, OpenAnonymous, GenerateKey) and
    `golang.org/x/crypto/nacl/secretbox` (Seal, Open) are foreign code. They are
    values of the datatype `Primitives`, and what the envelope relies on them for
    is the predicate `Lawful`: every theorem about the envelope holds for EVERY
    choice of primitives that satisfies it. Tamper detection needs one more
    property, `DetectsOneByteChange`. `Symbolic` satisfies both, so neither
    hypothesis is contradictory. */
module NaCl {
  import opened Bytes
  import opened Wrappers

  /** secretbox.Overhead: the Poly1305 tag. */
  const Overhead: nat := 16

  /** box.AnonymousOverhead: the ephemeral sender public key plus box.Overhead. */
  const AnonymousOverhead: nat := KeySize + Overhead

  datatype Primitives = Primitives(
    /** box.SealAnonymous(nil, message, recipient, rand): the last argument is what
        the call reads from `rand` for its ephemeral key pair; None is the error
        it returns when that read fails. */
    sealAnonymous: (seq<byte>, Key, seq<byte>) -> Option<seq<byte>>,
    /** box.OpenAnonymous(nil, box, publicKey, privateKey); None is `ok == false`. */
    openAnonymous: (seq<byte>, Key, Key) -> Option<seq<byte>>,
    /** secretbox.Seal(nil, message, nonce, key). */
    secretSeal: (seq<byte>, Nonce, Key) -> seq<byte>,
    /** secretbox.Open(nil, box, nonce, key); None is `ok == false`. */
    secretOpen: (seq<byte>, Nonce, Key) -> Option<seq<byte>>,
    /** The public key box.GenerateKey pairs with a private key. */
    publicKey: Key -> Key)

  /** A key pair as box.GenerateKey produces it. */
  predicate Matched(p: Primitives, pub: Key, prv: Key) {
    p.publicKey(prv) == pub
  }

  /** A sealed box is the message plus AnonymousOverhead bytes. */
  ghost predicate SealLength(p: Primitives) {
    forall m: seq<byte>, pk: Key, r: seq<byte> :: p.sealAnonymous(m, pk, r).Some? ==>
      |p.sealAnonymous(m, pk, r).value| == |m| + AnonymousOverhead
  }

  /** The holder of the matching private key opens a sealed box to its message. */
  ghost predicate SealOpens(p: Primitives) {
    forall m: seq<byte>, pk: Key, r: seq<byte>, sk: Key ::
      p.sealAnonymous(m, pk, r).Some? && p.publicKey(sk) == pk ==>
        p.openAnonymous(p.sealAnonymous(m, pk, r).value, pk, sk) == Some(m)
  }

  /** An opened sealed box is AnonymousOverhead bytes shorter than the box. */
  ghost predicate OpenLength(p: Primitives) {
    forall c: seq<byte>, pk: Key, sk: Key :: p.openAnonymous(c, pk, sk).Some? ==>
      |p.openAnonymous(c, pk, sk).value| + AnonymousOverhead == |c|
  }

  /** A secretbox is the message plus Overhead bytes. */
  ghost predicate SecretLength(p: Primitives) {
    forall m: seq<byte>, n: Nonce, k: Key :: |p.secretSeal(m, n, k)| == |m| + Overhead
  }

  /** A secretbox opens under its own nonce and key to its message. */
  ghost predicate SecretOpens(p: Primitives) {
    forall m: seq<byte>, n: Nonce, k: Key :: p.secretOpen(p.secretSeal(m, n, k), n, k) == Some(m)
  }

  ghost predicate Lawful(p: Primitives) {
    SealLength(p) && SealOpens(p) && OpenLength(p) && SecretLength(p) && SecretOpens(p)
  }

  /** `secretbox.Seal(nonce[:], m, nonce, k)`: the secretbox appended to its nonce. */
  function SealFramed(p: Primitives, m: seq<byte>, n: Nonce, k: Key): seq<byte> {
    n + p.secretSeal(m, n, k)
  }

  /** The inverse framing: the first NonceSize bytes are the nonce, the rest the secretbox. */
  function OpenFramed(p: Primitives, f: seq<byte>, k: Key): Option<seq<byte>> {
    if |f| < NonceSize then None else p.secretOpen(f[NonceSize..], f[..NonceSize], k)
  }

  /** `s` with byte i replaced by v (unchanged when i is out of range). */
  function Flip(s: seq<byte>, i: nat, v: byte): seq<byte> {
    if i < |s| then s[i := v] else s
  }

  /** Integrity, for the changes the envelope's tamper property is about:
      changing any one byte of a nonce ‖ secretbox makes secretbox.Open reject it. */
  ghost predicate DetectsOneByteChange(p: Primitives) {
    forall m: seq<byte>, n: Nonce, k: Key, i: nat, v: byte ::
      i < |SealFramed(p, m, n, k)| && v != SealFramed(p, m, n, k)[i] ==>
        OpenFramed(p, Flip(SealFramed(p, m, n, k), i, v), k).None?
  }

  function Sum(s: seq<byte>): int {
    if s == [] then 0 else Sum(s[..|s| - 1]) + s[|s| - 1] as int
  }

  /** A one-byte checksum: the sum of the bytes modulo 256. */
  function Checksum(s: seq<byte>): byte {
    (Sum(s) % 256) as byte
  }

  lemma {:induction false} SumUpdate(s: seq<byte>, i: nat, v: byte)
    requires i < |s|
    ensures Sum(s[i := v]) == Sum(s) - s[i] as int + v as int
    decreases |s|
  {
    var t := s[i := v];
    assert t[..|t| - 1] == if i == |s| - 1 then s[..|s| - 1] else s[..|s| - 1][i := v];
    if i < |s| - 1 {
      SumUpdate(s[..|s| - 1], i, v);
    }
  }

  /** Changing one byte always changes the checksum. */
  lemma ChecksumDetects(s: seq<byte>, i: nat, v: byte)
    requires i < |s| && v != s[i]
    ensures Checksum(s[i := v]) != Checksum(s)
  {
    SumUpdate(s, i, v);
    var a, d := Sum(s), v as int - s[i] as int;
    assert -256 < d < 256 && d != 0;
    var q, r := a / 256, a % 256;
    assert a + d == 256 * q + (r + d);
    if 0 <= r + d < 256 {
      assert (a + d) % 256 == r + d;
    } else if r + d >= 256 {
      assert a + d == 256 * (q + 1) + (r + d - 256);
      assert (a + d) % 256 == r + d - 256;
    } else {
      assert a + d == 256 * (q - 1) + (r + d + 256);
      assert (a + d) % 256 == r + d + 256;
    }
  }

  /** A symbolic stand-in for NaCl: a private key is its own public key, the
      "encryption" leaves the message in clear, the sealed-box "authenticator" is
      part of the recipient's key, and the secretbox tag is a checksum over nonce
      and message followed by part of the key. It is no cipher; it only shows the
      hypotheses can hold together. */
  function Symbolic(): Primitives {
    Primitives(
      (m: seq<byte>, pk: Key, r: seq<byte>) =>
        if |r| < KeySize then None else Some(r[..KeySize] + pk[..Overhead] + m),
      (c: seq<byte>, pk: Key, sk: Key) =>
        if |c| < AnonymousOverhead || sk != pk || c[KeySize..AnonymousOverhead] != pk[..Overhead]
        then None else Some(c[AnonymousOverhead..]),
      (m: seq<byte>, n: Nonce, k: Key) => [Checksum(n + m)] + k[..Overhead - 1] + m,
      (c: seq<byte>, n: Nonce, k: Key) =>
        if |c| < Overhead || c[1..Overhead] != k[..Overhead - 1] || c[0] != Checksum(n + c[Overhead..])
        then None else Some(c[Overhead..]),
      (sk: Key) => sk)
  }

  lemma SymbolicIsLawful()
    ensures Lawful(Symbolic())
  {
  }

  /** The symbolic secretbox rejects every one-byte change, so tamper detection
      is consistent with `Lawful`. */
  lemma SymbolicDetectsOneByteChange()
    ensures DetectsOneByteChange(Symbolic())
  {
    var p := Symbolic();
    forall m: seq<byte>, n: Nonce, k: Key, i: nat, v: byte |
      i < |SealFramed(p, m, n, k)| && v != SealFramed(p, m, n, k)[i]
      ensures OpenFramed(p, Flip(SealFramed(p, m, n, k), i, v), k).None?
    {
      var c := p.secretSeal(m, n, k);
      var f := (n + c)[i := v];
      var n', c' := f[..NonceSize], f[NonceSize..];
      if i < NonceSize {
        ChecksumDetects(n + m, i, v);
        assert c' == c && n' + m == (n + m)[i := v];
      } else if i == NonceSize {
        assert c'[0] == v && c'[Overhead..] == m && n' == n;
      } else if i < NonceSize + Overhead {
        assert c'[1..Overhead][i - NonceSize - 1] != k[..Overhead - 1][i - NonceSize - 1];
      } else {
        ChecksumDetects(n + m, i - Overhead, v);
        assert n' == n && c'[0] == c[0] && c'[1..Overhead] == c[1..Overhead];
        assert n' + c'[Overhead..] == (n + m)[i - Overhead := v];
      }
    }
  }
}
