/**
 Key derivations of the native library: `fuego_generate_keys`,
 `fuego_private_to_public`, `fuego_generate_key_image` and `fuego_hash`.

 The private spend key is 32 random bytes; here it is a parameter (`seed`).
 The private view key is derived from it by hashing, so the spend key alone
 determines the whole wallet. Ed25519 public-key derivation is not modelled
 internally: it is the parameter `ed`, a function from private to public
 keys. The key image is not a CryptoNote key image but a truncated SHA-512
 of the two keys.
 */
module Keys {
  import opened Bytes
  import opened Ffi

  /** `fuego_hash`: the 64-byte SHA-512 digest of `data`. */
  function Hash(h: HashSuite, data: seq<byte>): (d: seq<byte>)
    ensures |d| == 64
  {
    h.sha512(data)
  }

  /** The byte string `b"view_key"` appended to the spend key before hashing. */
  function ViewKeyDomain(): (d: seq<byte>)
    ensures |d| == 8
  {
    AsciiBytes("view_key")
  }

  /** Private view key: the first 32 bytes of SHA-512(spend ‖ "view_key"). */
  function ViewPrivateKey(h: HashSuite, spend: Key): (view: Key)
    ensures view == Hash(h, spend + ViewKeyDomain())[..KeySize]
  {
    h.sha512(spend + ViewKeyDomain())[..KeySize]
  }

  /** `fuego_private_to_public`: the Ed25519 public key of a private key. */
  function PrivateToPublic(ed: Key -> Key, privateKey: Key): (publicKey: Key)
    ensures publicKey == ed(privateKey)
  {
    ed(privateKey)
  }

  /** `fuego_generate_key_image`: the first 32 bytes of SHA-512(public ‖ private). */
  function KeyImage(h: HashSuite, publicKey: Key, privateKey: Key): (image: Key)
    ensures image == Hash(h, publicKey + privateKey)[..KeySize]
  {
    h.sha512(publicKey + privateKey)[..KeySize]
  }

  /** The four keys `fuego_generate_keys` writes. */
  datatype WalletKeys = WalletKeys(privateSpend: Key, privateView: Key, publicSpend: Key, publicView: Key)

  /** Whether the four keys of a wallet are related as `fuego_generate_keys` relates them. */
  predicate Consistent(h: HashSuite, ed: Key -> Key, w: WalletKeys) {
    && w.privateView == ViewPrivateKey(h, w.privateSpend)
    && w.publicSpend == PrivateToPublic(ed, w.privateSpend)
    && w.publicView == PrivateToPublic(ed, w.privateView)
  }

  /** `fuego_generate_keys` with the random spend key supplied as `seed`. */
  function GenerateKeys(h: HashSuite, ed: Key -> Key, seed: Key): (w: WalletKeys)
    ensures w.privateSpend == seed
    ensures Consistent(h, ed, w)
  {
    var view := h.sha512(seed + ViewKeyDomain())[..KeySize];
    WalletKeys(seed, view, ed(seed), ed(view))
  }

  /**
   A wallet is determined by its private spend key: any consistent set of
   keys is the one `fuego_generate_keys` produces from that spend key, so
   restoring the spend key (for instance from a mnemonic) restores all four.
   */
  lemma RestoreFromSpendKey(h: HashSuite, ed: Key -> Key, w: WalletKeys)
    ensures Consistent(h, ed, w) <==> w == GenerateKeys(h, ed, w.privateSpend)
  {
  }
}
