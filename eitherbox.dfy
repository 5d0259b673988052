/** The dual-recipient envelope of box.go: a payload sealed in a secretbox under
    a fresh content key, and that key sealed anonymously for each of two
    recipients, laid out as [key sealed for 1 | key sealed for 2 | nonce ‖ secretbox].

    The primitives are a parameter `p`; theorems that need them to behave
    assume `Lawful(p)`, and the tamper theorem also `DetectsOneByteChange(p)`.
    The randomness Encrypt draws is a parameter `Entropy`. */
module EitherBox {
  import opened Bytes
  import opened Wrappers
  import opened NaCl

  /** keyBoxSize: a content key sealed for one recipient (32 + 48 = 80 bytes). */
  const KeyBoxSize: nat := KeySize + AnonymousOverhead

  /** keyBoxSize is 80, and it is exactly the length of a content key sealed by
      box.SealAnonymous, whoever the recipient. */
  lemma KeyBoxSizeIsSealedKeyLength(p: Primitives, k3: Key, pk: Key, r: seq<byte>)
    requires SealLength(p)
    ensures KeyBoxSize == 80
    ensures p.sealAnonymous(k3, pk, r).Some? ==> |p.sealAnonymous(k3, pk, r).value| == KeyBoxSize
  {
  }

  /** The four `fmt.Errorf` sites of Box.Decrypt, in the order they are reached. */
  datatype DecryptError =
    | InvalidBox            // the box is too short to hold both key boxes and any ciphertext
    | Undecryptable         // no key box opens under the caller's key pair
    | CiphertextTooSmall    // the ciphertext cannot hold the nonce
    | AuthenticationFailed  // secretbox.Open rejected the ciphertext

  /** What Encrypt draws at random: randomKey(), randomNonce(), and what each of
      the two box.SealAnonymous calls reads from rand.Reader. */
  datatype Entropy = Entropy(contentKey: Key, nonce: Nonce, sealRandom1: seq<byte>, sealRandom2: seq<byte>)

  /** The first candidate, in order, that opened, and its position. */
  datatype Opened = Opened(index: nat, plain: seq<byte>)

  // ---------------------------------------------------------------------------
  // Encrypt

  /** Encrypt(b, k1, k2). None is the panic on a failed box.SealAnonymous: no
      envelope, not even a partial one, comes out of it. */
  function Encrypt(p: Primitives, b: seq<byte>, k1: Key, k2: Key, e: Entropy): (r: Option<seq<byte>>)
    ensures r.None? <==>
      p.sealAnonymous(e.contentKey, k1, e.sealRandom1).None? ||
      p.sealAnonymous(e.contentKey, k2, e.sealRandom2).None?
  {
    var ct := SealFramed(p, b, e.nonce, e.contentKey);
    match p.sealAnonymous(e.contentKey, k1, e.sealRandom1)
    case None => None
    case Some(k3k1) =>
      match p.sealAnonymous(e.contentKey, k2, e.sealRandom2)
      case None => None
      case Some(k3k2) => Some(k3k1 + k3k2 + ct)
  }

  // ---------------------------------------------------------------------------
  // tryDecryptAnonymous

  /** The reference definition of tryDecryptAnonymous: the first of
      candidates[from..] that box.OpenAnonymous accepts. */
  function FirstOpened(p: Primitives, pub: Key, prv: Key, candidates: seq<seq<byte>>, from: nat): (r: Option<Opened>)
    ensures r.Some? ==> from <= r.value.index < |candidates|
    ensures r.Some? ==> p.openAnonymous(candidates[r.value.index], pub, prv) == Some(r.value.plain)
    decreases |candidates| - from
  {
    if from >= |candidates| then None
    else match p.openAnonymous(candidates[from], pub, prv)
      case Some(m) => Some(Opened(from, m))
      case None => FirstOpened(p, pub, prv, candidates, from + 1)
  }

  /** The content key tryDecryptAnonymous hands back: `new([32]byte)` filled by
      `copy` from the opened bytes. */
  function ContentKey(o: Opened): (k: Key)
    ensures |o.plain| >= KeySize ==> k == o.plain[..KeySize]
    ensures |o.plain| < KeySize ==> k == o.plain + Zeros(KeySize - |o.plain|)
  {
    Padded(KeySize, o.plain)
  }

  /** FirstOpened finds the first candidate that opens, and fails exactly when
      every candidate fails. */
  lemma {:induction false} FirstOpenedIsFirst(p: Primitives, pub: Key, prv: Key, candidates: seq<seq<byte>>, from: nat, o: Opened)
    ensures FirstOpened(p, pub, prv, candidates, from) == Some(o) <==>
      from <= o.index < |candidates| &&
      p.openAnonymous(candidates[o.index], pub, prv) == Some(o.plain) &&
      forall j :: from <= j < o.index ==> p.openAnonymous(candidates[j], pub, prv).None?
    ensures FirstOpened(p, pub, prv, candidates, from).None? <==>
      forall j :: from <= j < |candidates| ==> p.openAnonymous(candidates[j], pub, prv).None?
    decreases |candidates| - from
  {
    if from < |candidates| {
      FirstOpenedIsFirst(p, pub, prv, candidates, from + 1, o);
      if p.openAnonymous(candidates[from], pub, prv).None? {
        assert forall j :: from <= j < |candidates| ==>
          (p.openAnonymous(candidates[j], pub, prv).None? <==> j == from || (from + 1 <= j && p.openAnonymous(candidates[j], pub, prv).None?));
      }
    }
  }

  /** The positions 0, 1, ..., n - 1, in order. */
  function UpTo(n: nat): (r: seq<nat>)
    ensures |r| == n && forall j :: 0 <= j < n ==> r[j] == j
  {
    if n == 0 then [] else UpTo(n - 1) + [n - 1]
  }

  /** tryDecryptAnonymous(pub, prv, candidates...): tries the candidates in order
      and stops at the first that opens. `tried` lists the positions handed to
      box.OpenAnonymous, in call order: 0, 1, ... up to the first that opened,
      and never a later one. */
  method TryDecryptAnonymous(p: Primitives, pub: Key, prv: Key, candidates: seq<seq<byte>>)
    returns (k: array?<byte>, ok: bool, ghost tried: seq<nat>)
    ensures ok <==> FirstOpened(p, pub, prv, candidates, 0).Some?
    ensures ok ==> k != null && fresh(k) && k[..] == ContentKey(FirstOpened(p, pub, prv, candidates, 0).value)
    ensures ok ==> tried == UpTo(FirstOpened(p, pub, prv, candidates, 0).value.index + 1)
    ensures !ok ==> k == null && tried == UpTo(|candidates|)
  {
    var i := 0;
    tried := [];
    while i < |candidates|
      invariant 0 <= i <= |candidates|
      invariant tried == UpTo(i)
      invariant FirstOpened(p, pub, prv, candidates, i) == FirstOpened(p, pub, prv, candidates, 0)
    {
      var b := p.openAnonymous(candidates[i], pub, prv);
      tried := tried + [i];
      if b.Some? {
        k := new byte[KeySize](_ => 0);
        var _ := Copy(k, b.value);
        assert k[..] == ContentKey(Opened(i, b.value));
        return k, true, tried;
      }
      i := i + 1;
    }
    return null, false, tried;
  }

  // ---------------------------------------------------------------------------
  // Box.Decrypt

  /** The two key boxes of an envelope, in the order they are tried. */
  function Candidates(b: seq<byte>): (c: seq<seq<byte>>)
    requires |b| >= 2 * KeyBoxSize
    ensures |c| == 2 && |c[0]| == KeyBoxSize && |c[1]| == KeyBoxSize
  {
    [b[..KeyBoxSize], b[KeyBoxSize..2 * KeyBoxSize]]
  }

  /** The reference definition of Box.Decrypt. A failure carries only an error
      kind: no plaintext, partial or not, and no key. */
  function Decryption(p: Primitives, b: seq<byte>, pub: Key, prv: Key): (r: Result<seq<byte>, DecryptError>)
    ensures |b| <= 2 * KeyBoxSize ==> r == Err(InvalidBox)
    ensures r == Err(CiphertextTooSmall) ==> 2 * KeyBoxSize < |b| < 2 * KeyBoxSize + NonceSize
    ensures r.Ok? ==> |b| >= 2 * KeyBoxSize + NonceSize
  {
    if |b| <= 2 * KeyBoxSize then Err(InvalidBox)
    else
      match FirstOpened(p, pub, prv, Candidates(b), 0)
      case None => Err(Undecryptable)
      case Some(o) =>
        var ct := b[2 * KeyBoxSize..];
        if |ct| < NonceSize then Err(CiphertextTooSmall)
        else
          match p.secretOpen(ct[NonceSize..], ct[..NonceSize], ContentKey(o))
          case None => Err(AuthenticationFailed)
          case Some(d) => Ok(d)
  }

  /** Box.Decrypt(pub, prv): the length guard, the split at fixed offsets, the
      key unwrap, the nonce copied into a fresh `[24]byte`, and secretbox.Open. */
  method Decrypt(p: Primitives, b: seq<byte>, pub: Key, prv: Key) returns (r: Result<seq<byte>, DecryptError>)
    ensures r == Decryption(p, b, pub, prv)
  {
    if |b| <= KeyBoxSize * 2 {
      return Err(InvalidBox);
    }
    var k3k1b := b[0..KeyBoxSize];
    var k3k2b := b[KeyBoxSize..KeyBoxSize * 2];
    var ct := b[KeyBoxSize * 2..];
    assert [k3k1b, k3k2b] == Candidates(b);

    var k3, ok, _ := TryDecryptAnonymous(p, pub, prv, [k3k1b, k3k2b]);
    if !ok {
      return Err(Undecryptable);
    }
    if |ct| < NonceSize {
      return Err(CiphertextTooSmall);
    }
    var nonce := new byte[NonceSize](_ => 0);
    var _ := Copy(nonce, ct[..NonceSize]);
    assert nonce[..] == ct[..NonceSize];
    var d := p.secretOpen(ct[NonceSize..], nonce[..], k3[..]);
    if d.None? {
      return Err(AuthenticationFailed);
    }
    return Ok(d.value);
  }

  // ---------------------------------------------------------------------------
  // The envelope layout

  /** Encrypt lays out [key sealed for k1 | key sealed for k2 | nonce ‖ secretbox],
      and its length is fixed by the payload's. */
  lemma EncryptLayout(p: Primitives, b: seq<byte>, k1: Key, k2: Key, e: Entropy)
    requires SealLength(p) && SecretLength(p)
    requires Encrypt(p, b, k1, k2, e).Some?
    ensures var env := Encrypt(p, b, k1, k2, e).value;
      |env| == 2 * KeyBoxSize + NonceSize + |b| + Overhead &&
      env[..KeyBoxSize] == p.sealAnonymous(e.contentKey, k1, e.sealRandom1).value &&
      env[KeyBoxSize..2 * KeyBoxSize] == p.sealAnonymous(e.contentKey, k2, e.sealRandom2).value &&
      env[2 * KeyBoxSize..] == e.nonce + p.secretSeal(b, e.nonce, e.contentKey) &&
      env[2 * KeyBoxSize..2 * KeyBoxSize + NonceSize] == e.nonce
  {
  }

  // ---------------------------------------------------------------------------
  // Who can open an envelope

  /** The key box for recipient 1 does not mislead the holder of (pub, prv): it
      either does not open for them, or opens to the content key. Recipient 2
      needs this, because segment 1 is tried first. */
  predicate SegmentOneHarmless(p: Primitives, k1: Key, e: Entropy, pub: Key, prv: Key) {
    match p.sealAnonymous(e.contentKey, k1, e.sealRandom1)
    case None => true
    case Some(s1) =>
      p.openAnonymous(s1, pub, prv).None? || p.openAnonymous(s1, pub, prv) == Some(e.contentKey)
  }

  /** (pub, prv) is a key pair the envelope Encrypt(_, k1, k2, e) was made for. */
  predicate Recipient(p: Primitives, k1: Key, k2: Key, e: Entropy, pub: Key, prv: Key) {
    Matched(p, pub, prv) && (pub == k1 || (pub == k2 && SegmentOneHarmless(p, k1, e, pub, prv)))
  }

  /** When both public keys are the same, segment 1 opens for recipient 2 to the
      content key itself. */
  lemma IdenticalRecipientsHarmless(p: Primitives, k: Key, e: Entropy, prv: Key)
    requires SealOpens(p)
    requires Matched(p, k, prv)
    ensures SegmentOneHarmless(p, k, e, k, prv)
  {
  }

  /** A recipient's key pair unwraps the content key Encrypt drew. */
  lemma UnwrapRecoversContentKey(p: Primitives, b: seq<byte>, k1: Key, k2: Key, e: Entropy, pub: Key, prv: Key)
    requires Lawful(p)
    requires Encrypt(p, b, k1, k2, e).Some?
    requires Recipient(p, k1, k2, e, pub, prv)
    ensures var env := Encrypt(p, b, k1, k2, e).value;
      |env| > 2 * KeyBoxSize &&
      FirstOpened(p, pub, prv, Candidates(env), 0).Some? &&
      ContentKey(FirstOpened(p, pub, prv, Candidates(env), 0).value) == e.contentKey
  {
    EncryptLayout(p, b, k1, k2, e);
    var env := Encrypt(p, b, k1, k2, e).value;
    var c := Candidates(env);
    var k3 := e.contentKey;
    PaddedExact(KeySize, k3);
    if pub == k1 {
      assert p.openAnonymous(c[0], pub, prv) == Some(k3);
    } else {
      assert p.openAnonymous(c[1], pub, prv) == Some(k3);
      if p.openAnonymous(c[0], pub, prv).None? {
        assert FirstOpened(p, pub, prv, c, 0) == FirstOpened(p, pub, prv, c, 1);
      }
    }
  }

  /** Decrypt(Encrypt(b, k1, k2), pub, prv) == b for either recipient. */
  lemma RoundTrip(p: Primitives, b: seq<byte>, k1: Key, k2: Key, e: Entropy, pub: Key, prv: Key)
    requires Lawful(p)
    requires Encrypt(p, b, k1, k2, e).Some?
    requires Recipient(p, k1, k2, e, pub, prv)
    ensures Decryption(p, Encrypt(p, b, k1, k2, e).value, pub, prv) == Ok(b)
  {
    EncryptLayout(p, b, k1, k2, e);
    UnwrapRecoversContentKey(p, b, k1, k2, e, pub, prv);
    var env := Encrypt(p, b, k1, k2, e).value;
    var ct := env[2 * KeyBoxSize..];
    var body := p.secretSeal(b, e.nonce, e.contentKey);
    assert ct == e.nonce + body;
    assert ct[..NonceSize] == e.nonce && ct[NonceSize..] == body;
  }

  /** The holder of k1's private key reads the payload back. */
  lemma RoundTripRecipient1(p: Primitives, b: seq<byte>, k1: Key, k2: Key, e: Entropy, prv1: Key)
    requires Lawful(p)
    requires Encrypt(p, b, k1, k2, e).Some?
    requires Matched(p, k1, prv1)
    ensures Decryption(p, Encrypt(p, b, k1, k2, e).value, k1, prv1) == Ok(b)
  {
    RoundTrip(p, b, k1, k2, e, k1, prv1);
  }

  /** The holder of k2's private key reads the payload back, provided segment 1
      does not open for them to something other than the content key. */
  lemma RoundTripRecipient2(p: Primitives, b: seq<byte>, k1: Key, k2: Key, e: Entropy, prv2: Key)
    requires Lawful(p)
    requires Encrypt(p, b, k1, k2, e).Some?
    requires Matched(p, k2, prv2)
    requires SegmentOneHarmless(p, k1, e, k2, prv2)
    ensures Decryption(p, Encrypt(p, b, k1, k2, e).value, k2, prv2) == Ok(b)
  {
    RoundTrip(p, b, k1, k2, e, k2, prv2);
  }

  /** Changing any byte of the ciphertext segment (nonce or secretbox) makes
      Decrypt fail for a recipient, when secretbox.Open rejects one-byte changes. */
  lemma TamperedCiphertextRejected(p: Primitives, b: seq<byte>, k1: Key, k2: Key, e: Entropy,
                                   pub: Key, prv: Key, i: nat, v: byte)
    requires Lawful(p) && DetectsOneByteChange(p)
    requires Encrypt(p, b, k1, k2, e).Some?
    requires Recipient(p, k1, k2, e, pub, prv)
    requires 2 * KeyBoxSize <= i < |Encrypt(p, b, k1, k2, e).value|
    requires v != Encrypt(p, b, k1, k2, e).value[i]
    ensures Decryption(p, Encrypt(p, b, k1, k2, e).value[i := v], pub, prv) == Err(AuthenticationFailed)
  {
    EncryptLayout(p, b, k1, k2, e);
    UnwrapRecoversContentKey(p, b, k1, k2, e, pub, prv);
    var env := Encrypt(p, b, k1, k2, e).value;
    var forged := env[i := v];
    assert Candidates(forged) == Candidates(env);
    var ct := SealFramed(p, b, e.nonce, e.contentKey);
    assert env[2 * KeyBoxSize..] == ct;
    var j: nat := i - 2 * KeyBoxSize;
    assert forged[2 * KeyBoxSize..] == Flip(ct, j, v);
    assert OpenFramed(p, Flip(ct, j, v), e.contentKey).None?;
  }

  // ---------------------------------------------------------------------------
  // What a result of Decrypt tells its caller

  /** Decrypt reports Undecryptable exactly when the box has room for both key
      boxes and neither of them opens under the caller's key pair. */
  lemma UndecryptableIffNoSegmentOpens(p: Primitives, b: seq<byte>, pub: Key, prv: Key)
    ensures Decryption(p, b, pub, prv) == Err(Undecryptable) <==>
      |b| > 2 * KeyBoxSize &&
      p.openAnonymous(b[..KeyBoxSize], pub, prv).None? &&
      p.openAnonymous(b[KeyBoxSize..2 * KeyBoxSize], pub, prv).None?
  {
    if |b| > 2 * KeyBoxSize {
      var c := Candidates(b);
      FirstOpenedIsFirst(p, pub, prv, c, 0, Opened(0, []));
      assert c[0] == b[..KeyBoxSize] && c[1] == b[KeyBoxSize..2 * KeyBoxSize];
    }
  }

  /** A plaintext comes out of Decrypt only if some key box opened under the
      caller's key pair, no earlier one did, and the secretbox after the first 24
      ciphertext bytes authenticated under those bytes as nonce and the opened key. */
  lemma DecryptedOnlyIfAuthentic(p: Primitives, b: seq<byte>, pub: Key, prv: Key, d: seq<byte>)
    requires Decryption(p, b, pub, prv) == Ok(d)
    ensures |b| >= 2 * KeyBoxSize + NonceSize
    ensures exists j: nat, m: seq<byte> | j < 2 ::
      p.openAnonymous(Candidates(b)[j], pub, prv) == Some(m) &&
      (j == 1 ==> p.openAnonymous(Candidates(b)[0], pub, prv).None?) &&
      p.secretOpen(b[2 * KeyBoxSize + NonceSize..], b[2 * KeyBoxSize..2 * KeyBoxSize + NonceSize],
                   Padded(KeySize, m)) == Some(d)
  {
    var c := Candidates(b);
    var o := FirstOpened(p, pub, prv, c, 0).value;
    FirstOpenedIsFirst(p, pub, prv, c, 0, o);
    var ct := b[2 * KeyBoxSize..];
    assert ct[NonceSize..] == b[2 * KeyBoxSize + NonceSize..];
    assert ct[..NonceSize] == b[2 * KeyBoxSize..2 * KeyBoxSize + NonceSize];
    assert p.openAnonymous(c[o.index], pub, prv) == Some(o.plain);
  }
}
