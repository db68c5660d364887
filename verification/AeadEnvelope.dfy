/**
 The one envelope every sealed frame uses (crates/daemonseed-core/src/aead_envelope.rs), and the
 signature scheme behind its provenance. The primitives are parameters: only their lengths and their
 correctness are assumed.
 */
module AeadEnvelope {
  import opened Wrappers
  import opened Bytes

  const NONCE_LEN := 12
  const TAG_LEN := 16
  const PK_LEN := 2592
  const SIG_LEN := 4627

  type Nonce = s: seq<Byte> | |s| == NONCE_LEN witness seq(NONCE_LEN, _ => 0)

  datatype CipherError = TagMismatch | ModeError

  /** AES-256-GCM: encryption gives ciphertext and tag or fails, decryption plaintext or a refusal. */
  datatype Aead = Aead(
    encrypt: (seq<Byte>, Nonce, seq<Byte>, seq<Byte>) -> Result<(seq<Byte>, seq<Byte>), CipherError>,
    decrypt: (seq<Byte>, Nonce, seq<Byte>, seq<Byte>, seq<Byte>) -> Result<seq<Byte>, CipherError>)
  {
    ghost predicate Correct() {
      forall key, nonce, aad, plaintext :: encrypt(key, nonce, aad, plaintext).Ok? ==>
        && |encrypt(key, nonce, aad, plaintext).value.0| == |plaintext|
        && |encrypt(key, nonce, aad, plaintext).value.1| == TAG_LEN
        && decrypt(key, nonce, aad, encrypt(key, nonce, aad, plaintext).value.0,
                   encrypt(key, nonce, aad, plaintext).value.1)
           == Ok(plaintext)
    }
  }

  /** ML-DSA-87: a keypair is named by its secret key. */
  datatype Scheme = Scheme(
    publicKey: seq<Byte> -> Blob,
    sign: (seq<Byte>, seq<Byte>) -> Blob,
    verify: (Blob, seq<Byte>, Blob) -> bool)
  {
    ghost predicate Correct() {
      forall sk, message ::
        |publicKey(sk)| == PK_LEN && |sign(sk, message)| == SIG_LEN && verify(publicKey(sk), message, sign(sk, message))
    }

    /** The length gate and the verification every opener applies to what it decoded. */
    predicate Accepts(pubkey: Blob, message: seq<Byte>, signature: Blob) {
      |pubkey| == PK_LEN && |signature| == SIG_LEN && verify(pubkey, message, signature)
    }
  }

  datatype EnvelopeError = EntropySource | Encrypt(error: CipherError) | TooShort | Decrypt(error: CipherError)

  /** nonce, ciphertext, tag. */
  function Sealed(aead: Aead, key: seq<Byte>, aad: seq<Byte>, plaintext: seq<Byte>, nonce: Nonce)
    : (r: Result<seq<Byte>, EnvelopeError>)
    ensures r.Err? ==> r.error.Encrypt?
  {
    match aead.encrypt(key, nonce, aad, plaintext)
    case Ok((ct, tag)) => Ok(nonce + ct + tag)
    case Err(e) => Err(Encrypt(e))
  }

  /** Seal under a nonce drawn from the entropy source; `None` is the source failing. */
  method SealEnvelope(aead: Aead, key: seq<Byte>, aad: seq<Byte>, plaintext: seq<Byte>, nonce: Option<Nonce>)
    returns (r: Result<seq<Byte>, EnvelopeError>)
    ensures r == if nonce.Some? then Sealed(aead, key, aad, plaintext, nonce.value) else Err(EntropySource)
  {
    if nonce == None {
      return Err(EntropySource);
    }
    var encrypted := aead.encrypt(key, nonce.value, aad, plaintext);
    if encrypted.Err? {
      return Err(Encrypt(encrypted.error));
    }
    var (ct, tag) := encrypted.value;
    var sealed := new Buffer();
    sealed.Append(nonce.value);
    sealed.Append(ct);
    sealed.Append(tag);
    assert [] + nonce.value + ct + tag == nonce.value + ct + tag;
    r := Ok(sealed.data);
  }

  function OpenEnvelope(aead: Aead, key: seq<Byte>, aad: seq<Byte>, sealed: seq<Byte>)
    : Result<seq<Byte>, EnvelopeError>
  {
    if |sealed| < NONCE_LEN + TAG_LEN then Err(TooShort)
    else
      var afterNonce := sealed[NONCE_LEN..];
      var ctLen := |afterNonce| - TAG_LEN;
      match aead.decrypt(key, sealed[..NONCE_LEN], aad, afterNonce[..ctLen], afterNonce[ctLen..])
      case Ok(plaintext) => Ok(plaintext)
      case Err(e) => Err(Decrypt(e))
  }

  /** Opening a sealed envelope gives the plaintext back, and sealing adds exactly 28 bytes. */
  lemma EnvelopeRoundTrip(aead: Aead, key: seq<Byte>, aad: seq<Byte>, plaintext: seq<Byte>, nonce: Nonce)
    requires aead.Correct()
    ensures var sealed := Sealed(aead, key, aad, plaintext, nonce);
      sealed.Ok? ==> |sealed.value| == |plaintext| + 28 && OpenEnvelope(aead, key, aad, sealed.value) == Ok(plaintext)
  {
    if Sealed(aead, key, aad, plaintext, nonce).Ok? {
      var (ct, tag) := aead.encrypt(key, nonce, aad, plaintext).value;
      var sealed := Sealed(aead, key, aad, plaintext, nonce).value;
      assert sealed[..NONCE_LEN] == nonce;
      assert sealed[NONCE_LEN..] == ct + tag;
      assert (ct + tag)[..|ct|] == ct && (ct + tag)[|ct|..] == tag;
    }
  }

  /** The sealed form: 12 bytes of nonce, the ciphertext, 16 bytes of tag. */
  lemma SealedLayout(aead: Aead, key: seq<Byte>, aad: seq<Byte>, plaintext: seq<Byte>, nonce: Nonce)
    requires aead.Correct() && aead.encrypt(key, nonce, aad, plaintext).Ok?
    ensures var (ct, tag) := aead.encrypt(key, nonce, aad, plaintext).value;
      var sealed := Sealed(aead, key, aad, plaintext, nonce);
      && sealed.Ok? && |sealed.value| == 12 + |ct| + 16
      && sealed.value[..12] == nonce && sealed.value[12..12 + |ct|] == ct && sealed.value[12 + |ct|..] == tag
  {
  }

  /** The other side splits at the same places, whoever made the bytes; less than a nonce and a tag is refused. */
  lemma OpensBySplitting(aead: Aead, key: seq<Byte>, aad: seq<Byte>, nonce: Nonce, ct: seq<Byte>, tag: seq<Byte>)
    ensures |tag| == 16 ==>
              OpenEnvelope(aead, key, aad, nonce + ct + tag)
                == match aead.decrypt(key, nonce, aad, ct, tag)
                   case Ok(plaintext) => Ok(plaintext)
                   case Err(e) => Err(Decrypt(e))
    ensures OpenEnvelope(aead, key, aad, ct) == Err(TooShort) <==> |ct| < 28
  {
    if |tag| == 16 {
      var sealed := nonce + ct + tag;
      var rest := sealed[12..];
      assert sealed[..12] == nonce && rest == ct + tag;
      assert rest[..|ct|] == ct && rest[|ct|..] == tag;
    }
  }
}
