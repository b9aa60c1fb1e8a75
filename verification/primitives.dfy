/** The cryptographic library calls the protocol makes — AES-256-CBC with
    PKCS#7 padding (CryptoJS in the browser, Node's `crypto` on the server),
    AES-256-GCM, RSA public-key encryption, and SHA-256-with-RSA signatures —
    kept uninterpreted.  A `Suite` supplies them as functions; the properties
    the protocol relies on are stated as predicates over a suite and taken as
    hypotheses by the theorems that need them. */
module Primitives {
  import opened Octets
  import opened Results

  /** The output of AES-GCM encryption: ciphertext and authentication tag. */
  datatype Sealed = Sealed(ciphertext: Bytes, tag: Bytes)

  /** Each function fails with the library's error message. */
  datatype Suite = Suite(
    /** key, IV, plaintext */
    cbcEncrypt: (Bytes, Bytes, Bytes) -> Result<Bytes>,
    /** key, IV, ciphertext */
    cbcDecrypt: (Bytes, Bytes, Bytes) -> Result<Bytes>,
    /** key, IV, plaintext */
    gcmEncrypt: (Bytes, Bytes, Bytes) -> Result<Sealed>,
    /** key, IV, tag, ciphertext */
    gcmDecrypt: (Bytes, Bytes, Bytes, Bytes) -> Result<Bytes>,
    /** public-key PEM, plaintext */
    rsaEncrypt: (string, Bytes) -> Result<Bytes>,
    /** private-key PEM, ciphertext */
    rsaDecrypt: (string, Bytes) -> Result<Bytes>,
    /** private-key PEM, data */
    sign: (string, Bytes) -> Result<Bytes>,
    /** public-key PEM, data, signature */
    verify: (string, Bytes, Bytes) -> Result<bool>,
    /** whether a public and a private PEM were generated as one key pair */
    pairs: (string, string) -> bool
  )

  /** AES-256-CBC takes any plaintext under a 32-byte key and a 16-byte IV,
      PKCS#7 padding adds one to sixteen bytes to a whole number of blocks,
      and decryption under the same key and IV returns the plaintext. */
  ghost predicate CbcSound(p: Suite) {
    && (forall k: Bytes, iv: Bytes, m: Bytes ::
          |k| == 32 && |iv| == 16 ==> p.cbcEncrypt(k, iv, m).Ok?)
    && (forall k: Bytes, iv: Bytes, m: Bytes ::
          p.cbcEncrypt(k, iv, m).Ok? ==> |p.cbcEncrypt(k, iv, m).value| == (|m| / 16 + 1) * 16)
    && (forall k: Bytes, iv: Bytes, m: Bytes ::
          p.cbcEncrypt(k, iv, m).Ok? ==> p.cbcDecrypt(k, iv, p.cbcEncrypt(k, iv, m).value) == Ok(m))
  }

  /** AES-256-GCM likewise, with a 16-byte tag that decryption checks. */
  ghost predicate GcmSound(p: Suite) {
    && (forall k: Bytes, iv: Bytes, m: Bytes ::
          |k| == 32 && |iv| == 16 ==> p.gcmEncrypt(k, iv, m).Ok?)
    && (forall k: Bytes, iv: Bytes, m: Bytes ::
          p.gcmEncrypt(k, iv, m).Ok? ==> |p.gcmEncrypt(k, iv, m).value.tag| == 16)
    && (forall k: Bytes, iv: Bytes, m: Bytes ::
          p.gcmEncrypt(k, iv, m).Ok? ==>
            var s := p.gcmEncrypt(k, iv, m).value;
            p.gcmDecrypt(k, iv, s.tag, s.ciphertext) == Ok(m))
  }

  /** RSA with 2048-bit keys: ciphertexts are 256 bytes, and the private key
      of a pair decrypts what its public key encrypted. */
  ghost predicate RsaSound(p: Suite) {
    && (forall pub: string, m: Bytes ::
          p.rsaEncrypt(pub, m).Ok? ==> |p.rsaEncrypt(pub, m).value| == 256)
    && (forall pub: string, priv: string, m: Bytes ::
          p.pairs(pub, priv) && p.rsaEncrypt(pub, m).Ok? ==>
            p.rsaDecrypt(priv, p.rsaEncrypt(pub, m).value) == Ok(m))
  }

  /** SHA-256-with-RSA, 2048-bit keys: signatures are 256 bytes, and the
      public key of a pair accepts what its private key signed. */
  ghost predicate SignSound(p: Suite) {
    && (forall priv: string, d: Bytes ::
          p.sign(priv, d).Ok? ==> |p.sign(priv, d).value| == 256)
    && (forall pub: string, priv: string, d: Bytes ::
          p.pairs(pub, priv) && p.sign(priv, d).Ok? ==>
            p.verify(pub, d, p.sign(priv, d).value) == Ok(true))
  }
}
