/** The browser side (`CryptoClient`): builds the hybrid envelope with
    CryptoJS.  The key exchange is the development one: the symmetric key is
    not RSA-encrypted but wrapped as base64 of `key|timestamp|salt`. */
module CryptoClient {
  import opened Octets
  import opened Results
  import Hex
  import Base64
  import Utf8
  import Text
  import Json
  import opened Primitives
  import Pem
  import opened Envelope

  const PackagePrefix := "Error creando paquete híbrido: "
  const AesPrefix := "Error en cifrado AES: "
  const IncompleteReport := "Datos del reporte incompletos"

  /** The four random bytes `WordArray.random(4)` supplies for the salt. */
  type Salt = b: Bytes | |b| == 4 witness [0, 0, 0, 0]

  /** What `encryptAES` returns. */
  datatype AesOutput = AesOutput(encryptedData: string, iv: string)

  /** `generateSymmetricKey`: 32 random bytes as 64 lower-case hex digits,
      which never contain the development delimiter. */
  function GenerateSymmetricKey(random: Key256): (key: string)
    ensures |key| == 64 && Hex.IsLowerHex(key)
    ensures Hex.Decode(key) == random
    ensures Utf8.Delimiter !in key
  {
    Hex.DecodeEncode(random);
    Hex.NoDelimiter(Hex.Encode(random));
    Hex.Encode(random)
  }

  /** `encryptAES(plaintext, key)` with the IV `WordArray.random(16)` would
      return: AES-256-CBC over the UTF-8 bytes, ciphertext and IV in hex.
      The IV in the result is the one the ciphertext was made with. */
  function EncryptAes(p: Suite, plaintext: string, key: string, iv: Block): (r: Result<AesOutput>)
    ensures r.Ok? <==> p.cbcEncrypt(Hex.Decode(key), iv, Utf8.Encode(plaintext)).Ok?
    ensures r.Ok? ==> |r.value.iv| == 32 && Hex.Decode(r.value.iv) == iv
    ensures r.Ok? ==> Hex.Decode(r.value.encryptedData) == p.cbcEncrypt(Hex.Decode(key), iv, Utf8.Encode(plaintext)).value
    ensures r.Err? ==> AesPrefix <= r.message
  {
    Hex.DecodeEncode(iv);
    match p.cbcEncrypt(Hex.Decode(key), iv, Utf8.Encode(plaintext))
    case Ok(c) =>
      Hex.DecodeEncode(c);
      Ok(AesOutput(Hex.Encode(c), Hex.Encode(iv)))
    case Err(m) => Err(AesPrefix + m)
  }

  /** The development key format `key|timestamp|salt`; splitting it at the
      delimiter gives the key back first when the key has no delimiter. */
  function DevelopmentFormat(key: string, timestamp: string, salt: string): (r: string)
    ensures Utf8.Delimiter !in key ==> Text.Split(r, Utf8.Delimiter)[0] == key
  {
    var r := key + [Utf8.Delimiter] + timestamp + [Utf8.Delimiter] + salt;
    assert Utf8.Delimiter !in key ==> Text.Split(r, Utf8.Delimiter)[0] == key by {
      if Utf8.Delimiter !in key {
        Text.SplitOfJoined(key, Utf8.Delimiter, timestamp + [Utf8.Delimiter] + salt);
        assert r == key + [Utf8.Delimiter] + (timestamp + [Utf8.Delimiter] + salt);
      }
    }
    r
  }

  /** `encryptRSA(plaintext, publicKey)` at clock reading `now` (milliseconds)
      with salt bytes `salt`: base64 of the UTF-8 bytes of
      `plaintext|now|salt`.  The public key is not used. */
  function EncryptRsa(plaintext: string, publicKey: string, now: nat, salt: Salt): (wrapped: string)
    ensures Base64.Decode(wrapped) == Some(Utf8.Encode(DevelopmentFormat(plaintext, Text.Decimal(now), Hex.Encode(salt))))
  {
    var bytes := Utf8.Encode(DevelopmentFormat(plaintext, Text.Decimal(now), Hex.Encode(salt)));
    Base64.DecodeEncode(bytes);
    Base64.Encode(bytes)
  }

  /** `createHybridPackage(data, serverPublicKey)` for the object `data`,
      with the randomness and clock reading it consumes as parameters.  It
      rejects an object without the three non-empty report members;
      otherwise the payload is the JSON of the whole object under a fresh
      key, the key is wrapped in the development format, and the tag is the
      sentinel.  Every failure carries the prefix. */
  function CreateHybridPackage(p: Suite, data: seq<Json.Member>, serverPublicKey: string,
                               keyBytes: Key256, iv: Block, now: nat, salt: Salt): (r: Result<Package>)
    ensures !Filled(Json.Obj(data)) ==> r == Err(PackagePrefix + IncompleteReport)
    ensures r.Err? ==> PackagePrefix <= r.message
    ensures r.Ok? ==> Filled(Json.Obj(data))
    ensures r.Ok? ==> r.value.authTag == Some(Sentinel)
    ensures r.Ok? ==> r.value.encryptedKey.Some? && r.value.encryptedData.Some?
    ensures r.Ok? ==> r.value.iv.Some? && |r.value.iv.value| == 32 && Hex.Decode(r.value.iv.value) == iv
    ensures r.Ok? ==>
      var c := p.cbcEncrypt(keyBytes, iv, Utf8.Encode(Json.Stringify(Json.Obj(data))));
      c.Ok? && Hex.Decode(r.value.encryptedData.value) == c.value
  {
    if !Filled(Json.Obj(data)) then Err(PackagePrefix + IncompleteReport)
    else
      var key := GenerateSymmetricKey(keyBytes);
      match EncryptAes(p, Json.Stringify(Json.Obj(data)), key, iv)
      case Err(m) => Err(PackagePrefix + m)
      case Ok(aes) =>
        Ok(Package(Some(EncryptRsa(key, serverPublicKey, now, salt)), Some(aes.encryptedData), Some(aes.iv),
                   Some(Sentinel)))
  }

  /** `validatePublicKey(publicKey)`; `None` stands for any value that is not
      a string.  A key passes when it is a non-empty string containing
      either header. */
  function ValidatePublicKey(publicKey: Option<string>): (ok: bool)
    ensures ok <==> publicKey.Some? && publicKey.value != ""
                    && (Text.Occurs(publicKey.value, Pem.RsaPublicKeyHeader)
                        || Text.Occurs(publicKey.value, Pem.PublicKeyHeader))
  {
    && Truthy(publicKey)
    && (Text.Includes(publicKey.value, Pem.RsaPublicKeyHeader)
        || Text.Includes(publicKey.value, Pem.PublicKeyHeader))
  }

  /** With a working CBC cipher, an object with the three report members
      filled in always yields an envelope. */
  lemma CompleteReportPacks(p: Suite, data: seq<Json.Member>, serverPublicKey: string,
                            keyBytes: Key256, iv: Block, now: nat, salt: Salt)
    requires CbcSound(p) && Filled(Json.Obj(data))
    ensures CreateHybridPackage(p, data, serverPublicKey, keyBytes, iv, now, salt).Ok?
  {
    var key := GenerateSymmetricKey(keyBytes);
    assert |Hex.Decode(key)| == 32;
    assert p.cbcEncrypt(Hex.Decode(key), iv, Utf8.Encode(Json.Stringify(Json.Obj(data)))).Ok?;
  }
}
