/** The protocol as a whole: what the browser builds, the server unpacks,
    stores and lists. */
module Protocol {
  import opened Octets
  import opened Results
  import Hex
  import Base64
  import Utf8
  import Text
  import Json
  import Pem
  import opened Primitives
  import CryptoUtils
  import opened Envelope
  import CryptoClient
  import ReportController

  /** The text inside a development-wrapped key is the `key|timestamp|salt`
      string itself. */
  lemma WrappedText(key: string, publicKey: string, now: nat, salt: CryptoClient.Salt)
    ensures var wrapped := CryptoClient.EncryptRsa(key, publicKey, now, salt);
      && Base64.Decode(wrapped).Some?
      && Utf8.Decode(Base64.Decode(wrapped).value)
         == CryptoClient.DevelopmentFormat(key, Text.Decimal(now), Hex.Encode(salt))
  {
    Utf8.DecodeEncode(CryptoClient.DevelopmentFormat(key, Text.Decimal(now), Hex.Encode(salt)));
  }

  /** Development round trip: the server classifies a wrapped key as
      development mode and recovers exactly the key, whatever the clock
      reading and salt, for any key without the delimiter. */
  lemma DevelopmentRoundTrip(key: string, publicKey: string, now: nat, salt: CryptoClient.Salt)
    requires Utf8.Delimiter !in key
    ensures var wrapped := CryptoClient.EncryptRsa(key, publicKey, now, salt);
      && wrapped != ""
      && ReportController.IsDevelopmentMode(wrapped)
      && ReportController.DecryptDevelopmentKey(wrapped) == Ok(key)
  {
    WrappedText(key, publicKey, now, salt);
    FormatCarriesKey(CryptoClient.EncryptRsa(key, publicKey, now, salt), key, Text.Decimal(now), Hex.Encode(salt));
  }

  lemma FormatCarriesKey(wrapped: string, key: string, timestamp: string, salt: string)
    requires Utf8.Delimiter !in key
    requires Base64.Decode(wrapped).Some?
    requires Utf8.Decode(Base64.Decode(wrapped).value) == CryptoClient.DevelopmentFormat(key, timestamp, salt)
    ensures wrapped != ""
    ensures ReportController.IsDevelopmentMode(wrapped)
    ensures ReportController.DecryptDevelopmentKey(wrapped) == Ok(key)
  {
    var text := CryptoClient.DevelopmentFormat(key, timestamp, salt);
    assert text[|key|] == Utf8.Delimiter;
    Utf8.DelimiterInDecode(Base64.Decode(wrapped).value);
    assert Text.Split(text, Utf8.Delimiter)[0] == key;
  }

  /** The browser's keys qualify for the development round trip. */
  lemma GeneratedKeyRoundTrips(keyBytes: Key256, publicKey: string, now: nat, salt: CryptoClient.Salt)
    ensures var key := CryptoClient.GenerateSymmetricKey(keyBytes);
      ReportController.DecryptDevelopmentKey(CryptoClient.EncryptRsa(key, publicKey, now, salt)) == Ok(key)
  {
    DevelopmentRoundTrip(CryptoClient.GenerateSymmetricKey(keyBytes), publicKey, now, salt);
  }

  /** Envelopes from the browser always take the CBC branch on the server:
      their tag is the sentinel. */
  lemma ClientEnvelopeSelectsCbc(p: Suite, data: seq<Json.Member>, serverPublicKey: string,
                                 keyBytes: Key256, iv: Block, now: nat, salt: CryptoClient.Salt)
    requires CryptoClient.CreateHybridPackage(p, data, serverPublicKey, keyBytes, iv, now, salt).Ok?
    ensures var pkg := CryptoClient.CreateHybridPackage(p, data, serverPublicKey, keyBytes, iv, now, salt).value;
      CryptoUtils.SelectMode(pkg.authTag).Cbc?
  {
  }

  /** The server parses the browser's payload back into the object that was
      sent, and reads from it the report the object carries. */
  lemma PayloadParses(data: seq<Json.Member>, report: Report)
    requires Carries(Json.Obj(data), report) && report.Complete()
    ensures Json.Parse(Json.Stringify(Json.Obj(data))) == Some(Json.Obj(data))
    ensures ReportController.ReportOf(Json.Obj(data)) == Ok(report)
  {
    Json.ParseStringify(Json.Obj(data));
  }

  /** The server's CBC decryption of the hex fields the browser produced
      returns the payload text. */
  lemma PayloadDecrypts(p: Suite, keyBytes: Key256, iv: Block, payload: string)
    requires CbcSound(p)
    ensures var key := CryptoClient.GenerateSymmetricKey(keyBytes);
      var aes := CryptoClient.EncryptAes(p, payload, key, iv);
      && aes.Ok?
      && CryptoUtils.DecryptSymmetric(p, aes.value.encryptedData, key, aes.value.iv, Some("")) == Ok(payload)
      && aes.value.encryptedData != ""
  {
    var key := CryptoClient.GenerateSymmetricKey(keyBytes);
    var m := Utf8.Encode(payload);
    var c := p.cbcEncrypt(keyBytes, iv, m).value;
    var aes := CryptoClient.EncryptAes(p, payload, key, iv).value;
    assert Hex.Decode(aes.encryptedData) == c;
    assert Hex.Decode(aes.iv) == iv;
    assert p.cbcDecrypt(keyBytes, iv, c) == Ok(m);
    Utf8.DecodeEncode(payload);
    assert aes.encryptedData != "" by {
      assert |c| > 0;
    }
  }

  /** The envelope the browser builds for an object with the report members
      filled in, field by field. */
  lemma ClientPackage(p: Suite, data: seq<Json.Member>, serverPublicKey: string,
                      keyBytes: Key256, iv: Block, now: nat, salt: CryptoClient.Salt)
    requires CbcSound(p) && Filled(Json.Obj(data))
    ensures var key := CryptoClient.GenerateSymmetricKey(keyBytes);
      var aes := CryptoClient.EncryptAes(p, Json.Stringify(Json.Obj(data)), key, iv);
      && aes.Ok?
      && CryptoClient.CreateHybridPackage(p, data, serverPublicKey, keyBytes, iv, now, salt)
         == Ok(Package(Some(CryptoClient.EncryptRsa(key, serverPublicKey, now, salt)),
                       Some(aes.value.encryptedData), Some(aes.value.iv), Some(Sentinel)))
  {
    PayloadDecrypts(p, keyBytes, iv, Json.Stringify(Json.Obj(data)));
  }

  /** The server accepts an envelope made of a development-wrapped key and
      the CBC encryption, under that key, of the JSON of an object carrying
      a complete report, and recovers that report. */
  lemma ServerUnpacks(p: Suite, serverPrivateKey: string, data: seq<Json.Member>, report: Report,
                      keyBytes: Key256, iv: Block, serverPublicKey: string, now: nat, salt: CryptoClient.Salt)
    requires CbcSound(p) && Carries(Json.Obj(data), report) && report.Complete()
    ensures var key := CryptoClient.GenerateSymmetricKey(keyBytes);
      var aes := CryptoClient.EncryptAes(p, Json.Stringify(Json.Obj(data)), key, iv);
      && aes.Ok?
      && ReportController.DecryptHybridPackage(p, serverPrivateKey,
           Package(Some(CryptoClient.EncryptRsa(key, serverPublicKey, now, salt)),
                   Some(aes.value.encryptedData), Some(aes.value.iv), Some(Sentinel)))
         == Ok(report)
  {
    var key := CryptoClient.GenerateSymmetricKey(keyBytes);
    var payload := Json.Stringify(Json.Obj(data));
    PayloadDecrypts(p, keyBytes, iv, payload);
    var aes := CryptoClient.EncryptAes(p, payload, key, iv).value;
    var wrapped := CryptoClient.EncryptRsa(key, serverPublicKey, now, salt);
    var pkg := Package(Some(wrapped), Some(aes.encryptedData), Some(aes.iv), Some(Sentinel));
    DevelopmentRoundTrip(key, serverPublicKey, now, salt);
    Json.ParseStringify(Json.Obj(data));
    ReportController.Accepts(p, serverPrivateKey, pkg, key, payload, Json.Obj(data), report);
  }

  /** End to end: with a working CBC cipher, the envelope the browser builds
      for an object carrying a complete report (whatever other members it
      has) is accepted by the server, which recovers exactly that report,
      whatever its own private key is. */
  lemma EndToEnd(p: Suite, data: seq<Json.Member>, report: Report, serverPublicKey: string,
                 serverPrivateKey: string, keyBytes: Key256, iv: Block, now: nat, salt: CryptoClient.Salt)
    requires CbcSound(p) && Carries(Json.Obj(data), report) && report.Complete()
    ensures CryptoClient.CreateHybridPackage(p, data, serverPublicKey, keyBytes, iv, now, salt).Ok?
    ensures var pkg := CryptoClient.CreateHybridPackage(p, data, serverPublicKey, keyBytes, iv, now, salt).value;
      ReportController.DecryptHybridPackage(p, serverPrivateKey, pkg) == Ok(report)
  {
    CarriesFilled(Json.Obj(data), report);
    ClientPackage(p, data, serverPublicKey, keyBytes, iv, now, salt);
    ServerUnpacks(p, serverPrivateKey, data, report, keyBytes, iv, serverPublicKey, now, salt);
  }

  /** The form's own submission: its data object, attachments included,
      goes through whenever the three fields are filled in. */
  lemma FormEndToEnd(p: Suite, report: Report, files: seq<Json.Value>, serverPublicKey: string,
                     serverPrivateKey: string, keyBytes: Key256, iv: Block, now: nat, salt: CryptoClient.Salt)
    requires CbcSound(p) && report.Complete()
    ensures var data := FormData(report, files).members;
      var pkg := CryptoClient.CreateHybridPackage(p, data, serverPublicKey, keyBytes, iv, now, salt);
      pkg.Ok? && ReportController.DecryptHybridPackage(p, serverPrivateKey, pkg.value) == Ok(report)
  {
    EndToEnd(p, FormData(report, files).members, report, serverPublicKey, serverPrivateKey, keyBytes, iv, now, salt);
  }

  /** The two completeness checks differ: an object whose report members
      are truthy but not all strings passes the browser's check and is
      rejected by the server. */
  lemma NonStringFieldRejected(name: Json.Value, id: string, text: string)
    requires Json.Truthy(Some(name)) && !name.Str?
    requires id != "" && text != ""
    ensures var v := Json.Obj([Json.Member(NameMember, name), Json.Member(IdMember, Json.Str(id)),
                               Json.Member(TextMember, Json.Str(text))]);
      Filled(v) && ReportController.ReportOf(v) == Err(ReportController.NotAString)
  {
    Json.GetThree(NameMember, name, IdMember, Json.Str(id), TextMember, Json.Str(text));
  }

  /** Production round trip: a key RSA-encrypted under the server's public
      key is recovered with the paired private key, whether or not the
      private key is kept with escaped line breaks — provided the ciphertext
      holds no 0x7C byte, which would make it look like a development key. */
  lemma ProductionRoundTrip(p: Suite, key: string, serverPublicKey: string, serverPrivateKey: string)
    requires RsaSound(p)
    requires p.pairs(Pem.Normalize(serverPublicKey), Pem.Normalize(serverPrivateKey))
    requires CryptoUtils.EncryptAsymmetric(p, key, serverPublicKey).Ok?
    requires Utf8.DelimiterByte !in p.rsaEncrypt(Pem.Normalize(serverPublicKey), Utf8.Encode(key)).value
    ensures var wrapped := CryptoUtils.EncryptAsymmetric(p, key, serverPublicKey).value;
      && !ReportController.IsDevelopmentMode(wrapped)
      && ReportController.RecoverKey(p, serverPrivateKey, wrapped) == Ok(key)
  {
    var c := p.rsaEncrypt(Pem.Normalize(serverPublicKey), Utf8.Encode(key)).value;
    var wrapped := CryptoUtils.EncryptAsymmetric(p, key, serverPublicKey).value;
    assert wrapped == Base64.Encode(c);
    Base64.DecodeEncode(c);
    assert !ReportController.IsDevelopmentMode(wrapped);
    Pem.NormalizeIdempotent(serverPrivateKey);
    assert p.rsaDecrypt(Pem.Normalize(Pem.Normalize(serverPrivateKey)), c) == Ok(Utf8.Encode(key));
    Utf8.DecodeEncode(key);
    assert ReportController.RecoverKey(p, serverPrivateKey, wrapped)
        == CryptoUtils.DecryptAsymmetric(p, wrapped, Pem.Normalize(serverPrivateKey));
  }

  /** Mode detection on a production key: an RSA-encrypted key is taken
      for a development key exactly when its ciphertext holds a 0x7C byte. */
  lemma ProductionModeDetection(p: Suite, key: string, serverPublicKey: string)
    requires CryptoUtils.EncryptAsymmetric(p, key, serverPublicKey).Ok?
    ensures var wrapped := CryptoUtils.EncryptAsymmetric(p, key, serverPublicKey).value;
      var c := p.rsaEncrypt(Pem.Normalize(serverPublicKey), Utf8.Encode(key)).value;
      ReportController.IsDevelopmentMode(wrapped) <==> Utf8.DelimiterByte in c
  {
    Base64.DecodeEncode(p.rsaEncrypt(Pem.Normalize(serverPublicKey), Utf8.Encode(key)).value);
  }

  /** The storage column of a field decrypts, by way of the GCM branch, to
      the plaintext that was stored. */
  lemma StoredColumnDecrypts(p: Suite, plaintext: string, key: string, iv: Block)
    requires GcmSound(p) && CryptoUtils.EncryptSymmetric(p, plaintext, key, iv).Ok?
    ensures var f := CryptoUtils.EncryptSymmetric(p, plaintext, key, iv).value;
      ReportController.DecryptColumn(p, key, ReportController.FieldColumn(f)) == Ok(plaintext)
  {
    ReportController.ColumnOfField(p, key, CryptoUtils.EncryptSymmetric(p, plaintext, key, iv).value);
    CryptoUtils.SymmetricRoundTrip(p, plaintext, key, iv);
  }

  /** Create then list: a report the server stored is listed, to a
      privileged reader, with the fields it was submitted with, pending, and
      with the receipt the submitter got. */
  lemma CreateThenList(p: Suite, config: ReportController.Config, userId: nat, pkg: Package,
                       users: seq<ReportController.UserRow>, draws: ReportController.Draws,
                       role: string, createdAt: string, username: string)
    requires GcmSound(p) && role != ReportController.UserRole
    requires ReportController.CreateReport(p, config, userId, Some(pkg), users, draws).0.Success?
    ensures var out := ReportController.CreateReport(p, config, userId, Some(pkg), users, draws);
      var report := ReportController.DecryptHybridPackage(p, config.serverPrivateKey, pkg).value;
      var row := ReportController.Row(draws.insertId, out.1.value, createdAt, username);
      ReportController.Listing(p, config.storageKey, role, [row])
        == [ReportController.Full(draws.insertId, report.complainantName, report.complainantId, report.reportText,
                                  "pending", createdAt, out.0.body.digitalReceipt.signature, username)]
  {
    var report := ReportController.DecryptHybridPackage(p, config.serverPrivateKey, pkg).value;
    StoredColumnDecrypts(p, report.complainantName, config.storageKey, draws.nameIv);
    StoredColumnDecrypts(p, report.complainantId, config.storageKey, draws.idIv);
    StoredColumnDecrypts(p, report.reportText, config.storageKey, draws.textIv);
  }

  /** A signed receipt verifies under the submitter's public key. */
  lemma ReceiptVerifies(p: Suite, config: ReportController.Config, userId: nat, pkg: Package,
                        users: seq<ReportController.UserRow>, draws: ReportController.Draws, userPublicKey: string)
    requires SignSound(p)
    requires ReportController.CreateReport(p, config, userId, Some(pkg), users, draws).0.Success?
    requires ReportController.CanSign(users)
    requires p.pairs(Pem.Normalize(userPublicKey), Pem.Normalize(users[0].privateKey.value))
    ensures var out := ReportController.CreateReport(p, config, userId, Some(pkg), users, draws);
      var report := ReportController.DecryptHybridPackage(p, config.serverPrivateKey, pkg).value;
      CryptoUtils.VerifySignature(p, ReportController.ReceiptData(report, draws.signedAt),
                                  out.0.body.digitalReceipt.signature, userPublicKey) == Ok(true)
  {
    var report := ReportController.DecryptHybridPackage(p, config.serverPrivateKey, pkg).value;
    CryptoUtils.SignThenVerify(p, ReportController.ReceiptData(report, draws.signedAt),
                               users[0].privateKey.value, userPublicKey);
  }

  /** The receipt a submitter gets is `'unsigned'` exactly when they have no
      private key. */
  lemma ReceiptUnsignedWithoutKey(p: Suite, config: ReportController.Config, userId: nat, pkg: Package,
                                  users: seq<ReportController.UserRow>, draws: ReportController.Draws)
    requires SignSound(p)
    requires ReportController.CreateReport(p, config, userId, Some(pkg), users, draws).0.Success?
    ensures var out := ReportController.CreateReport(p, config, userId, Some(pkg), users, draws);
      out.0.body.digitalReceipt.signature == ReportController.Unsigned <==> !ReportController.CanSign(users)
  {
    var report := ReportController.DecryptHybridPackage(p, config.serverPrivateKey, pkg).value;
    ReportController.UnsignedExactlyWithoutKey(p, ReportController.ReceiptData(report, draws.signedAt), users);
  }

  /** A report whose envelope unpacks is stored and answered with success
      when the storage key is 32 bytes and the submitter has no private key:
      the three field encryptions cannot fail and the receipt is
      `'unsigned'`. */
  lemma UnsignedSubmissionSucceeds(p: Suite, config: ReportController.Config, userId: nat, pkg: Package,
                                   users: seq<ReportController.UserRow>, draws: ReportController.Draws)
    requires GcmSound(p) && |Hex.Decode(config.storageKey)| == 32
    requires ReportController.DecryptHybridPackage(p, config.serverPrivateKey, pkg).Ok?
    requires !ReportController.CanSign(users)
    ensures ReportController.CreateReport(p, config, userId, Some(pkg), users, draws).0.Success?
  {
  }

  /** The same with a private key: success then also needs the signing
      primitive to accept the key and the receipt data. */
  lemma SignedSubmissionSucceeds(p: Suite, config: ReportController.Config, userId: nat, pkg: Package,
                                 users: seq<ReportController.UserRow>, draws: ReportController.Draws)
    requires GcmSound(p) && |Hex.Decode(config.storageKey)| == 32
    requires ReportController.DecryptHybridPackage(p, config.serverPrivateKey, pkg).Ok?
    requires ReportController.CanSign(users)
    requires var report := ReportController.DecryptHybridPackage(p, config.serverPrivateKey, pkg).value;
      p.sign(Pem.Normalize(users[0].privateKey.value),
             Utf8.Encode(ReportController.ReceiptData(report, draws.signedAt))).Ok?
    ensures ReportController.CreateReport(p, config, userId, Some(pkg), users, draws).0.Success?
  {
  }

  /** Every key the server accepts passes the browser's check. */
  lemma ServerAcceptedKeysPass(p: Suite, publicKey: Option<string>)
    requires CryptoUtils.IsValidPublicKey(p, publicKey)
    ensures CryptoClient.ValidatePublicKey(publicKey)
  {
  }

  /** The browser's check is strictly weaker: a key with only the
      SubjectPublicKeyInfo header passes it but never the server's. */
  lemma BrowserCheckIsWeaker(p: Suite)
    ensures CryptoClient.ValidatePublicKey(Some(Pem.PublicKeyHeader))
    ensures !CryptoUtils.IsValidPublicKey(p, Some(Pem.PublicKeyHeader))
  {
    assert |Pem.PublicKeyHeader| < |Pem.RsaPublicKeyHeader|;
    assert Pem.PublicKeyHeader <= Pem.PublicKeyHeader;
  }
}
