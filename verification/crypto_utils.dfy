/** The server's cryptographic helpers (`CryptoUtils`): symmetric
    encryption for storage, the tag-driven choice between AES-GCM and the
    CBC mode the browser uses, the RSA wrappers with their PEM clean-up, and
    the key and IV generators. */
module CryptoUtils {
  import opened Octets
  import opened Results
  import Hex
  import Base64
  import Utf8
  import Pem
  import Text
  import opened Primitives
  import Envelope

  const EncryptPrefix := "Error en cifrado simétrico: "
  const DecryptPrefix := "Error descifrando: "
  const AsymmetricEncryptPrefix := "Error en cifrado asimétrico: "
  const AsymmetricDecryptPrefix := "Error descifrando asimétrico: "
  const SignPrefix := "Error firmando datos: "
  const VerifyPrefix := "Error verificando firma: "

  /** The message standing for Node's lenient reading of text that is not
      canonical base64 (see README). */
  const MalformedBase64 := "malformed base64"

  /** The message standing for the engine's refusal of hex input of odd
      length (see README). */
  const OddHexLength := "odd-length hex input"

  /** What `encryptSymmetric` returns and the database stores per field. */
  datatype EncryptedField = EncryptedField(encryptedData: string, iv: string, authTag: string)

  /** The decryption mode an `authTag` argument selects. */
  datatype Mode = Cbc | Gcm(tag: string)

  /** `generateSymmetricKey`: 32 random bytes as hex. */
  function GenerateSymmetricKey(random: Key256): (key: string)
    ensures |key| == 64 && Hex.IsLowerHex(key)
    ensures Hex.Decode(key) == random
  {
    Hex.DecodeEncode(random);
    Hex.Encode(random)
  }

  /** `generateIV`: 16 random bytes as hex. */
  function GenerateIV(random: Block): (iv: string)
    ensures |iv| == 32 && Hex.IsLowerHex(iv)
    ensures Hex.Decode(iv) == random
  {
    Hex.DecodeEncode(random);
    Hex.Encode(random)
  }

  /** `encryptSymmetric(plaintext, key)` with the IV that `randomBytes(16)`
      would return: AES-256-GCM over the UTF-8 bytes, everything hex-encoded.
      The IV in the result is the one used; failures carry the prefix. */
  function EncryptSymmetric(p: Suite, plaintext: string, key: string, iv: Block): (r: Result<EncryptedField>)
    ensures r.Ok? <==> p.gcmEncrypt(Hex.Decode(key), iv, Utf8.Encode(plaintext)).Ok?
    ensures r.Ok? ==> |r.value.iv| == 32 && Hex.Decode(r.value.iv) == iv
    ensures r.Err? ==> EncryptPrefix <= r.message
  {
    Hex.DecodeEncode(iv);
    match p.gcmEncrypt(Hex.Decode(key), iv, Utf8.Encode(plaintext))
    case Ok(sealed) => Ok(EncryptedField(Hex.Encode(sealed.ciphertext), Hex.Encode(iv), Hex.Encode(sealed.tag)))
    case Err(m) => Err(EncryptPrefix + m)
  }

  /** The mode choice in `decryptSymmetric`: CBC when the tag is absent,
      empty or the sentinel, GCM with the given tag otherwise. */
  function SelectMode(authTag: Option<string>): (m: Mode)
    ensures m.Cbc? <==> authTag.None? || authTag.value == "" || authTag.value == Envelope.Sentinel
    ensures m.Gcm? ==> authTag == Some(m.tag)
  {
    match authTag
    case None => Cbc
    case Some(t) => if t == "" || t == Envelope.Sentinel then Cbc else Gcm(t)
  }

  /** `decryptSymmetric(encryptedData, key, iv, authTag)`: hex-decodes its
      inputs, decrypts in the mode the tag selects, and reads the result as
      UTF-8.  Ciphertext hex of odd length is refused (unlike the key, IV
      and tag, which are decoded leniently).  Every failure carries the
      prefix followed by the library's message. */
  function DecryptSymmetric(p: Suite, encryptedData: string, key: string, iv: string, authTag: Option<string>): (r: Result<string>)
    ensures |encryptedData| % 2 == 1 ==> r == Err(DecryptPrefix + OddHexLength)
    ensures |encryptedData| % 2 == 0 && SelectMode(authTag).Cbc? ==>
      var plain := p.cbcDecrypt(Hex.Decode(key), Hex.Decode(iv), Hex.Decode(encryptedData));
      && (r.Ok? <==> plain.Ok?)
      && (r.Ok? ==> r.value == Utf8.Decode(plain.value))
    ensures |encryptedData| % 2 == 0 && SelectMode(authTag).Gcm? ==>
      var plain := p.gcmDecrypt(Hex.Decode(key), Hex.Decode(iv), Hex.Decode(SelectMode(authTag).tag),
                                Hex.Decode(encryptedData));
      && (r.Ok? <==> plain.Ok?)
      && (r.Ok? ==> r.value == Utf8.Decode(plain.value))
    ensures r.Err? ==> DecryptPrefix <= r.message
  {
    if |encryptedData| % 2 == 1 then Err(DecryptPrefix + OddHexLength) else
    var k := Hex.Decode(key);
    var v := Hex.Decode(iv);
    var c := Hex.Decode(encryptedData);
    var plain := match SelectMode(authTag)
      case Cbc => p.cbcDecrypt(k, v, c)
      case Gcm(t) => p.gcmDecrypt(k, v, Hex.Decode(t), c);
    match plain
    case Ok(b) => Ok(Utf8.Decode(b))
    case Err(m) => Err(DecryptPrefix + m)
  }

  /** `encryptAsymmetric(plaintext, publicKey)` */
  function EncryptAsymmetric(p: Suite, plaintext: string, publicKey: string): (r: Result<string>)
    ensures var c := p.rsaEncrypt(Pem.Normalize(publicKey), Utf8.Encode(plaintext));
      && (r.Ok? <==> c.Ok?)
      && (r.Ok? ==> Base64.Decode(r.value) == Some(c.value))
    ensures r.Err? ==> AsymmetricEncryptPrefix <= r.message
  {
    match p.rsaEncrypt(Pem.Normalize(publicKey), Utf8.Encode(plaintext))
    case Ok(c) => Base64.DecodeEncode(c); Ok(Base64.Encode(c))
    case Err(m) => Err(AsymmetricEncryptPrefix + m)
  }

  /** `decryptAsymmetric(encryptedData, privateKey)` */
  function DecryptAsymmetric(p: Suite, encryptedData: string, privateKey: string): (r: Result<string>)
    ensures Base64.Decode(encryptedData).None? ==> r == Err(AsymmetricDecryptPrefix + MalformedBase64)
    ensures Base64.Decode(encryptedData).Some? ==>
      var m := p.rsaDecrypt(Pem.Normalize(privateKey), Base64.Decode(encryptedData).value);
      && (r.Ok? <==> m.Ok?)
      && (r.Ok? ==> r.value == Utf8.Decode(m.value))
    ensures r.Err? ==> AsymmetricDecryptPrefix <= r.message
  {
    match Base64.Decode(encryptedData)
    case None => Err(AsymmetricDecryptPrefix + MalformedBase64)
    case Some(c) =>
      match p.rsaDecrypt(Pem.Normalize(privateKey), c)
      case Ok(b) => Ok(Utf8.Decode(b))
      case Err(m) => Err(AsymmetricDecryptPrefix + m)
  }

  /** `signData(data, privateKey)`: a base64 SHA-256-with-RSA signature. */
  function SignData(p: Suite, data: string, privateKey: string): (r: Result<string>)
    ensures var sig := p.sign(Pem.Normalize(privateKey), Utf8.Encode(data));
      && (r.Ok? <==> sig.Ok?)
      && (r.Ok? ==> Base64.Decode(r.value) == Some(sig.value))
    ensures r.Err? ==> SignPrefix <= r.message
  {
    match p.sign(Pem.Normalize(privateKey), Utf8.Encode(data))
    case Ok(s) => Base64.DecodeEncode(s); Ok(Base64.Encode(s))
    case Err(m) => Err(SignPrefix + m)
  }

  /** `verifySignature(data, signature, publicKey)`; a signature that is not
      canonical base64 is reported as not verifying. */
  function VerifySignature(p: Suite, data: string, signature: string, publicKey: string): (r: Result<bool>)
    ensures Base64.Decode(signature).None? ==> r == Ok(false)
    ensures Base64.Decode(signature).Some? ==>
      var v := p.verify(Pem.Normalize(publicKey), Utf8.Encode(data), Base64.Decode(signature).value);
      && (r.Ok? <==> v.Ok?)
      && (r.Ok? ==> r.value == v.value)
    ensures r.Err? ==> VerifyPrefix <= r.message
  {
    match Base64.Decode(signature)
    case None => Ok(false)
    case Some(s) =>
      match p.verify(Pem.Normalize(publicKey), Utf8.Encode(data), s)
      case Ok(b) => Ok(b)
      case Err(m) => Err(VerifyPrefix + m)
  }

  /** `isValidPublicKey(publicKey)`; `None` stands for any value that is not
      a string.  It never fails: it holds exactly for a non-empty string with
      the RSA header on which the probe encryption of "test" succeeds with a
      non-empty result. */
  function IsValidPublicKey(p: Suite, publicKey: Option<string>): (ok: bool)
    ensures ok <==>
      && Truthy(publicKey)
      && Text.Includes(publicKey.value, Pem.RsaPublicKeyHeader)
      && p.rsaEncrypt(Pem.Normalize(publicKey.value), Utf8.Encode("test")).Ok?
      && |p.rsaEncrypt(Pem.Normalize(publicKey.value), Utf8.Encode("test")).value| > 0
  {
    if !Truthy(publicKey) then false
    else if !Text.Includes(publicKey.value, Pem.RsaPublicKeyHeader) then false
    else match EncryptAsymmetric(p, "test", publicKey.value)
      case Ok(e) => e != ""
      case Err(_) => false
  }

  // ---- properties ----------------------------------------------------------

  /** What storage encryption produces, under a 32-byte key, always takes the
      GCM branch when handed back to `decryptSymmetric`: its tag is 32 hex
      digits, so neither empty nor the sentinel. */
  lemma EncryptSymmetricSelectsGcm(p: Suite, plaintext: string, key: string, iv: Block)
    requires GcmSound(p) && |Hex.Decode(key)| == 32
    ensures EncryptSymmetric(p, plaintext, key, iv).Ok?
    ensures var f := EncryptSymmetric(p, plaintext, key, iv).value;
      |f.authTag| == 32 && SelectMode(Some(f.authTag)) == Gcm(f.authTag)
  {
    var f := EncryptSymmetric(p, plaintext, key, iv).value;
    assert |f.authTag| != |Envelope.Sentinel|;
  }

  /** Storage encryption round-trips: decrypting the three hex fields it
      returned, with the same key, yields the plaintext. */
  lemma SymmetricRoundTrip(p: Suite, plaintext: string, key: string, iv: Block)
    requires GcmSound(p) && EncryptSymmetric(p, plaintext, key, iv).Ok?
    ensures var f := EncryptSymmetric(p, plaintext, key, iv).value;
      DecryptSymmetric(p, f.encryptedData, key, f.iv, Some(f.authTag)) == Ok(plaintext)
  {
    var k, m := Hex.Decode(key), Utf8.Encode(plaintext);
    var sealed := p.gcmEncrypt(k, iv, m).value;
    var f := EncryptSymmetric(p, plaintext, key, iv).value;
    assert |f.authTag| != |Envelope.Sentinel|;
    Hex.DecodeEncode(sealed.ciphertext);
    Hex.DecodeEncode(sealed.tag);
    Hex.DecodeEncode(iv);
    Utf8.DecodeEncode(plaintext);
  }

  /** When the tag selects CBC, the GCM decryption function is never
      consulted. */
  lemma CbcBranchIgnoresGcm(p: Suite, g: (Bytes, Bytes, Bytes, Bytes) -> Result<Bytes>,
                            encryptedData: string, key: string, iv: string, authTag: Option<string>)
    requires SelectMode(authTag).Cbc?
    ensures DecryptSymmetric(p, encryptedData, key, iv, authTag)
         == DecryptSymmetric(p.(gcmDecrypt := g), encryptedData, key, iv, authTag)
  {
  }

  /** When the tag selects GCM, the CBC decryption function is never
      consulted. */
  lemma GcmBranchIgnoresCbc(p: Suite, c: (Bytes, Bytes, Bytes) -> Result<Bytes>,
                            encryptedData: string, key: string, iv: string, authTag: Option<string>)
    requires SelectMode(authTag).Gcm?
    ensures DecryptSymmetric(p, encryptedData, key, iv, authTag)
         == DecryptSymmetric(p.(cbcDecrypt := c), encryptedData, key, iv, authTag)
  {
  }

  /** Keeping a private key in the environment with its line breaks escaped,
      as the setup script stores it, changes nothing for decryption. */
  lemma EscapedPrivateKeyDecrypts(p: Suite, encryptedData: string, pem: string)
    requires Pem.NoEscapedNewline(pem)
    ensures DecryptAsymmetric(p, encryptedData, Pem.Escape(pem)) == DecryptAsymmetric(p, encryptedData, pem)
  {
    Pem.NormalizeEscape(pem);
  }

  /** A signature made with the private key of a pair verifies under its
      public key. */
  lemma SignThenVerify(p: Suite, data: string, privateKey: string, publicKey: string)
    requires SignSound(p) && p.pairs(Pem.Normalize(publicKey), Pem.Normalize(privateKey))
    requires SignData(p, data, privateKey).Ok?
    ensures VerifySignature(p, data, SignData(p, data, privateKey).value, publicKey) == Ok(true)
  {
    var s := p.sign(Pem.Normalize(privateKey), Utf8.Encode(data)).value;
    Base64.DecodeEncode(s);
  }

  /** A signature is 256 bytes, so its base64 text is 344 characters and can
      never be the `'unsigned'` marker. */
  lemma SignatureIsNotUnsigned(p: Suite, data: string, privateKey: string)
    requires SignSound(p) && SignData(p, data, privateKey).Ok?
    ensures |SignData(p, data, privateKey).value| == 344
  {
  }
}
