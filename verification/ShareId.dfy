/** The receiver-verifiable share id of crates/daemonseed-core/src/share_announce.rs. */
module ShareId {
  import opened Bytes

  const ROOT_COMMITMENT_LEN := 48

  const SHARE_ROOT_COMMITMENT_DOMAIN: seq<Byte> := Ascii("daemonseed/share-root-commitment/v2")
  const SHARE_ID_V2_DOMAIN: seq<Byte> := Ascii("daemonseed/share-id/v2")

  /** A wire announcement; text fields are their UTF-8 bytes. */
  datatype Announcement = Announcement(
    room: Blob, senderPubkey: Blob, senderHandle: Blob, shareId: Blob, rootCommitment: Blob,
    name: Blob, rating: Blob, withdraw: bool, sentUnixMs: int)

  function RootCommitmentInput(root: Blob, nonce: Blob): seq<Byte> {
    Lp(8, SHARE_ROOT_COMMITMENT_DOMAIN) + Lp(8, root) + Lp(8, nonce)
  }

  function DeriveRootCommitment(sha384: seq<Byte> -> Digest, root: Blob, nonce: Blob): (commitment: Digest) {
    sha384(RootCommitmentInput(root, nonce))
  }

  function ShareIdInput(pubkey: Blob, commitment: Blob): seq<Byte> {
    Lp(8, SHARE_ID_V2_DOMAIN) + Lp(8, pubkey) + Lp(8, commitment)
  }

  /** The lower-case hex of the first 16 digest bytes. */
  function DeriveShareIdV2(sha384: seq<Byte> -> Digest, pubkey: Blob, commitment: Blob): (id: Blob)
    ensures |id| == 32
  {
    Hex(sha384(ShareIdInput(pubkey, commitment))[..16])
  }

  predicate ShareBindingIsValid(sha384: seq<Byte> -> Digest, ann: Announcement) {
    && |ann.rootCommitment| == ROOT_COMMITMENT_LEN
    && ann.shareId == DeriveShareIdV2(sha384, ann.senderPubkey, ann.rootCommitment)
  }

  /** The two hash inputs: tag, then the fields in order, each behind its 64-bit length. */
  lemma InputLayouts(root: Blob, nonce: Blob, pubkey: Blob, commitment: Blob)
    ensures RootCommitmentInput(root, nonce)
         == Lp(8, Ascii("daemonseed/share-root-commitment/v2")) + Lp(8, root) + Lp(8, nonce)
    ensures ShareIdInput(pubkey, commitment)
         == Lp(8, Ascii("daemonseed/share-id/v2")) + Lp(8, pubkey) + Lp(8, commitment)
  {
    hide Lp, Ascii;
  }

  /**
   The binding, spelled out: a commitment of 48 bytes, and as the id the lower-case hex of the first 16
   bytes of the digest of tag, key and commitment.
   */
  lemma BindingSpelledOut(sha384: seq<Byte> -> Digest, ann: Announcement)
    ensures var tag := Ascii("daemonseed/share-id/v2");
      var d := sha384(Lp(8, tag) + Lp(8, ann.senderPubkey) + Lp(8, ann.rootCommitment));
      ShareBindingIsValid(sha384, ann) <==>
        && |ann.rootCommitment| == 48 && |ann.shareId| == 32
        && forall i :: 0 <= i < 16 ==> HexOf(ann.shareId, i, d[i])
  {
    InputLayouts([], [], ann.senderPubkey, ann.rootCommitment);
    hide Ascii, ShareIdInput, Lp;
    var d := sha384(ShareIdInput(ann.senderPubkey, ann.rootCommitment))[..16];
    forall i | 0 <= i < 16
      ensures HexOf(Hex(d), i, d[i])
    {
      HexAt(d, i);
    }
    if |ann.shareId| == 32 && forall i :: 0 <= i < 16 ==> HexOf(ann.shareId, i, d[i]) {
      SameByHalves(ann.shareId, Hex(d), d);
    }
  }

  /** Digits 2i and 2i + 1 of the text spell the byte, high half first. */
  ghost predicate HexOf(text: seq<Byte>, i: nat, b: Byte)
    requires 2 * i + 1 < |text|
  {
    text[2 * i] == HEX_DIGITS[b / 16] as int && text[2 * i + 1] == HEX_DIGITS[b % 16] as int
  }

  lemma SameByHalves(a: seq<Byte>, b: seq<Byte>, d: seq<Byte>)
    requires |a| == |b| == 32 && |d| == 16
    requires forall i :: 0 <= i < 16 ==> HexOf(a, i, d[i]) && HexOf(b, i, d[i])
    ensures a == b
  {
    forall k | 0 <= k < 32
      ensures a[k] == b[k]
    {
      assert HexOf(a, k / 2, d[k / 2]) && HexOf(b, k / 2, d[k / 2]);
      assert k == 2 * (k / 2) || k == 2 * (k / 2) + 1;
    }
  }

  /** No two of these inputs share the first 16 bytes of their digests. */
  ghost predicate CollisionFree(sha384: seq<Byte> -> Digest, inputs: set<seq<Byte>>) {
    forall x, y :: x in inputs && y in inputs && sha384(x)[..16] == sha384(y)[..16] ==> x == y
  }

  lemma ShareIdInputInjective(pubkey: Blob, commitment: Blob, pubkey': Blob, commitment': Blob)
    requires ShareIdInput(pubkey, commitment) == ShareIdInput(pubkey', commitment')
    ensures pubkey == pubkey' && commitment == commitment'
  {
    hide Lp;
    LpPairInjective(Lp(8, SHARE_ID_V2_DOMAIN), pubkey, commitment, pubkey', commitment');
  }

  lemma RootCommitmentInputInjective(root: Blob, nonce: Blob, root': Blob, nonce': Blob)
    requires RootCommitmentInput(root, nonce) == RootCommitmentInput(root', nonce')
    ensures root == root' && nonce == nonce'
  {
    hide Lp;
    LpPairInjective(Lp(8, SHARE_ROOT_COMMITMENT_DOMAIN), root, nonce, root', nonce');
  }

  /** An id that passes the binding names one publisher and one commitment. */
  lemma BindingNamesPublisher(sha384: seq<Byte> -> Digest, a: Announcement, b: Announcement)
    requires ShareBindingIsValid(sha384, a) && ShareBindingIsValid(sha384, b) && a.shareId == b.shareId
    requires CollisionFree(sha384, {ShareIdInput(a.senderPubkey, a.rootCommitment),
                                    ShareIdInput(b.senderPubkey, b.rootCommitment)})
    ensures a.senderPubkey == b.senderPubkey && a.rootCommitment == b.rootCommitment
  {
    HexInjective(sha384(ShareIdInput(a.senderPubkey, a.rootCommitment))[..16],
                 sha384(ShareIdInput(b.senderPubkey, b.rootCommitment))[..16]);
    ShareIdInputInjective(a.senderPubkey, a.rootCommitment, b.senderPubkey, b.rootCommitment);
  }

  /**
   Two shares published with derived ids carry the same id exactly when the publisher, the root and
   the hiding nonce are the same: a republish folds onto its old row, and nothing else does.
   */
  lemma DerivedIdNamesShare(sha384: seq<Byte> -> Digest, pk: Blob, root: Blob, nonce: Blob, pk': Blob, root': Blob,
                            nonce': Blob)
    requires CollisionFree(sha384, {RootCommitmentInput(root, nonce), RootCommitmentInput(root', nonce'),
                                    ShareIdInput(pk, DeriveRootCommitment(sha384, root, nonce)),
                                    ShareIdInput(pk', DeriveRootCommitment(sha384, root', nonce'))})
    ensures DeriveShareIdV2(sha384, pk, DeriveRootCommitment(sha384, root, nonce))
         == DeriveShareIdV2(sha384, pk', DeriveRootCommitment(sha384, root', nonce'))
      <==> pk == pk' && root == root' && nonce == nonce'
  {
    var rc, rc' := DeriveRootCommitment(sha384, root, nonce), DeriveRootCommitment(sha384, root', nonce');
    if DeriveShareIdV2(sha384, pk, rc) == DeriveShareIdV2(sha384, pk', rc') {
      HexInjective(sha384(ShareIdInput(pk, rc))[..16], sha384(ShareIdInput(pk', rc'))[..16]);
      ShareIdInputInjective(pk, rc, pk', rc');
      RootCommitmentInputInjective(root, nonce, root', nonce');
    }
  }
}
