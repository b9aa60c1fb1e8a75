/** The server's report controller (`ReportController`): unpacks the hybrid
    envelope, re-encrypts the fields for storage, signs the receipt, lists
    stored reports by role, and validates status updates.  HTTP requests and
    SQL statements are replaced by their inputs and results. */
module ReportController {
  import opened Octets
  import opened Results
  import Base64
  import Utf8
  import Text
  import Json
  import Pem
  import opened Primitives
  import CryptoUtils
  import opened Envelope

  const HybridPrefix := "Error descifrando paquete híbrido: "
  const IncompletePackage := "Paquete cifrado incompleto. Faltan: "
  const IncompleteData := "Datos descifrados incompletos. " + "Campos requeridos: complainantName, complainantId, reportText"
  const DevelopmentKeyPrefix := "Error descifrando clave desarrollo: "
  const DevelopmentKeyFormat := "Formato de clave desarrollo inválido"
  const PackageRequired := "Paquete cifrado requerido"
  const InternalErrorPrefix := "Error interno del servidor: "
  const CreatedMessage := "Reporte creado exitosamente"
  const RowDecryptError := "Error descifrando datos"
  const InvalidStatus := "Estado inválido"
  const ReportNotFound := "Reporte no encontrado"
  const StatusUpdatedPrefix := "Estado del reporte actualizado a: "
  /** The message a storage decryption gets when a stored field lacks a
      member: `Buffer.from(undefined, 'hex')` throws a `TypeError`. */
  const MissingMember := "undefined member"

  /** The receipt value stored when no signature could be made. */
  const Unsigned := "unsigned"
  /** The role whose listing carries no report contents. */
  const UserRole := "user"

  // ---- envelope unpacking --------------------------------------------------

  /** The three envelope members the server requires, in the order its
      message names them. */
  datatype Required = EncryptedKey | EncryptedData | Iv
  {
    function Rank(): nat {
      match this
      case EncryptedKey => 0
      case EncryptedData => 1
      case Iv => 2
    }

    /** The text naming the member in the message, separator included. */
    function Label(): string {
      match this
      case EncryptedKey => "encryptedKey "
      case EncryptedData => "encryptedData "
      case Iv => "iv"
    }

    function Of(pkg: Package): Option<string> {
      match this
      case EncryptedKey => pkg.encryptedKey
      case EncryptedData => pkg.encryptedData
      case Iv => pkg.iv
    }
  }

  /** The required members that are missing or empty, in message order. */
  function Missing(pkg: Package): (fs: seq<Required>)
    ensures forall f: Required :: f in fs <==> !Truthy(f.Of(pkg))
    ensures forall i, j :: 0 <= i < j < |fs| ==> fs[i].Rank() < fs[j].Rank()
  {
    (if Truthy(pkg.encryptedKey) then [] else [EncryptedKey])
    + (if Truthy(pkg.encryptedData) then [] else [EncryptedData])
    + (if Truthy(pkg.iv) then [] else [Iv])
  }

  function Labels(fs: seq<Required>): (r: string)
    ensures r == "" <==> fs == []
  {
    if |fs| == 0 then "" else fs[0].Label() + Labels(fs[1..])
  }

  /** `isDevelopmentMode(encryptedKey)`: the key decodes as base64 to text
      containing the delimiter — equivalently, to bytes containing 0x7C. */
  function IsDevelopmentMode(encryptedKey: string): (dev: bool)
    ensures dev <==> Base64.Decode(encryptedKey).Some? && Utf8.DelimiterByte in Base64.Decode(encryptedKey).value
  {
    match Base64.Decode(encryptedKey)
    case None => false
    case Some(b) =>
      Utf8.DelimiterInDecode(b);
      Utf8.Delimiter in Utf8.Decode(b)
  }

  /** The development key carried by a decoded text: the text before the
      first delimiter, or all of it when there is none. */
  function KeyBeforeDelimiter(text: string): (key: string)
    ensures Utf8.Delimiter !in key
    ensures key <= text
    ensures key == text || key + [Utf8.Delimiter] <= text
  {
    if Utf8.Delimiter in text then
      var i := Text.IndexOf(text, Utf8.Delimiter);
      assert text[..i] + [Utf8.Delimiter] == text[..i + 1];
      text[..i]
    else text
  }

  /** `decryptDevelopmentKey(encryptedKey)`: the first part of the decoded
      text split at the delimiter.  The source's format error cannot occur,
      since splitting always yields a first part. */
  function DecryptDevelopmentKey(encryptedKey: string): (r: Result<string>)
    ensures r.Ok? <==> Base64.Decode(encryptedKey).Some?
    ensures r.Ok? ==> r.value == KeyBeforeDelimiter(Utf8.Decode(Base64.Decode(encryptedKey).value))
    ensures r.Err? ==> DevelopmentKeyPrefix <= r.message
  {
    match Base64.Decode(encryptedKey)
    case None => Err(DevelopmentKeyPrefix + CryptoUtils.MalformedBase64)
    case Some(b) =>
      var text := Utf8.Decode(b);
      var parts := Text.Split(text, Utf8.Delimiter);
      Text.SplitHead(text, Utf8.Delimiter);
      if |parts| >= 1 then Ok(parts[0])
      else Err(DevelopmentKeyPrefix + DevelopmentKeyFormat)
  }

  /** A key whose decoded text is `key`, the delimiter, then anything, is a
      development key carrying `key`. */
  lemma DevelopmentKeyOf(encryptedKey: string, key: string, tail: string)
    requires Utf8.Delimiter !in key
    requires Base64.Decode(encryptedKey).Some?
    requires Utf8.Decode(Base64.Decode(encryptedKey).value) == key + [Utf8.Delimiter] + tail
    ensures encryptedKey != ""
    ensures IsDevelopmentMode(encryptedKey)
    ensures DecryptDevelopmentKey(encryptedKey) == Ok(key)
  {
    var text := key + [Utf8.Delimiter] + tail;
    assert text[|key|] == Utf8.Delimiter;
    Utf8.DelimiterInDecode(Base64.Decode(encryptedKey).value);
    Text.SplitOfJoined(key, Utf8.Delimiter, tail);
  }

  /** The symmetric key of an envelope, by the detected mode.  Production
      mode reads the server's private key with its escaped newlines
      restored, and the asymmetric helper restores them once more. */
  function RecoverKey(p: Suite, serverPrivateKey: string, encryptedKey: string): (r: Result<string>)
    ensures IsDevelopmentMode(encryptedKey) ==> r == DecryptDevelopmentKey(encryptedKey)
    ensures !IsDevelopmentMode(encryptedKey) ==>
      r == CryptoUtils.DecryptAsymmetric(p, encryptedKey, Pem.Normalize(serverPrivateKey))
    ensures r.Err? ==> KeyFailure(r.message)
  {
    if IsDevelopmentMode(encryptedKey) then
      DecryptDevelopmentKey(encryptedKey)
    else
      CryptoUtils.DecryptAsymmetric(p, encryptedKey, Pem.Normalize(serverPrivateKey))
  }

  /** A failure of key recovery: the development unwrap's or the RSA
      helper's. */
  predicate KeyFailure(m: string)
  {
    DevelopmentKeyPrefix <= m || CryptoUtils.AsymmetricDecryptPrefix <= m
  }

  /** A failure of one of the unpacking steps after the structural check:
      key recovery, payload decryption, parsing, or the field check. */
  predicate UnpackFailure(m: string)
  {
    || KeyFailure(m)
    || CryptoUtils.DecryptPrefix <= m
    || m == Json.MalformedJson
    || m == IncompleteData || m == NullPayload || m == NotAString
  }

  /** No unpacking failure reads as the incomplete-package message, so that
      message is reserved for missing members. */
  lemma UnpackFailureNotIncomplete(m: string)
    requires UnpackFailure(m)
    ensures !(IncompletePackage <= m)
  {
    assert IncompletePackage[0] == 'P';
    if KeyFailure(m) {
      assert DevelopmentKeyPrefix[0] == 'E' && CryptoUtils.AsymmetricDecryptPrefix[0] == 'E';
      assert m[0] == 'E';
    } else if CryptoUtils.DecryptPrefix <= m {
      assert m[0] == CryptoUtils.DecryptPrefix[0] == 'E';
    } else {
      assert m[0] in {'m', 'D', 'n'} by {
        assert Json.MalformedJson[0] == 'm' && IncompleteData[0] == 'D';
        assert NullPayload[0] == 'n' && NotAString[0] == 'n';
      }
    }
  }

  /** The payload field values that are not strings when they are
      truthy, and `null`, throw a `TypeError` (reading a member of `null`,
      or calling `substring` on a non-string); its wording belongs to the
      JavaScript engine. */
  const NullPayload := "null payload"
  const NotAString := "not a string"

  /** The report in a parsed payload.  `null` cannot be read; any other
      value needs all three report members truthy, and then strings. */
  function ReportOf(v: Json.Value): (r: Result<Report>)
    ensures v.Null? ==> r == Err(NullPayload)
    ensures !v.Null? && !Filled(v) ==> r == Err(IncompleteData)
    ensures r.Ok? ==> Carries(v, r.value) && r.value.Complete()
    ensures forall report :: Carries(v, report) && report.Complete() ==> r == Ok(report)
    ensures Filled(v) && !(exists report :: Carries(v, report)) ==> r == Err(NotAString)
    ensures r.Err? ==> r.message == NullPayload || r.message == IncompleteData || r.message == NotAString
  {
    if v.Null? then Err(NullPayload)
    else if !Filled(v) then Err(IncompleteData)
    else
      var name := Json.Field(v, NameMember).value;
      var id := Json.Field(v, IdMember).value;
      var text := Json.Field(v, TextMember).value;
      if name.Str? && id.Str? && text.Str? then
        assert Carries(v, Report(name.s, id.s, text.s));
        Ok(Report(name.s, id.s, text.s))
      else Err(NotAString)
  }

  /** `decryptHybridPackage(encryptedPackage)`: checks the three required
      members, recovers the key by mode, decrypts the payload with an empty
      tag, parses it and checks the report fields.  Every failure carries the
      prefix, and the incomplete-package failure, naming exactly the missing
      members in order, happens exactly when a member is missing; otherwise
      the outcome is that of the remaining steps. */
  function DecryptHybridPackage(p: Suite, serverPrivateKey: string, pkg: Package): (r: Result<Report>)
    ensures r.Ok? ==> r.value.Complete()
    ensures r.Err? ==> HybridPrefix <= r.message
    ensures |Missing(pkg)| > 0 <==> r == Err(HybridPrefix + IncompletePackage + Labels(Missing(pkg)))
    ensures |Missing(pkg)| == 0 ==>
      r == Unpack(p, serverPrivateKey, pkg.encryptedKey.value, pkg.encryptedData.value, pkg.iv.value).WithPrefix(HybridPrefix)
  {
    var missing := Missing(pkg);
    if |missing| > 0 then Err(HybridPrefix + IncompletePackage + Labels(missing))
    else
      assert Truthy(pkg.encryptedKey) && Truthy(pkg.encryptedData) && Truthy(pkg.iv) by {
        assert EncryptedKey !in missing && EncryptedData !in missing && Iv !in missing;
      }
      var r := Unpack(p, serverPrivateKey, pkg.encryptedKey.value, pkg.encryptedData.value, pkg.iv.value);
      var q := r.WithPrefix(HybridPrefix);
      if r.Err? then
        PrefixedUnpackFailure(r.message, Labels(missing));
        q
      else q
  }

  /** The steps after the structural check, with their messages unprefixed:
      the result is a report exactly when the key is recovered, the payload
      decrypts under it, parses, and holds the three string members, and
      the report is the one the payload holds. */
  function Unpack(p: Suite, serverPrivateKey: string, encryptedKey: string, encryptedData: string, iv: string): (r: Result<Report>)
    ensures r.Ok? ==> r.value.Complete()
    ensures r.Ok? <==>
      var key := RecoverKey(p, serverPrivateKey, encryptedKey);
      && key.Ok?
      && CryptoUtils.DecryptSymmetric(p, encryptedData, key.value, iv, Some("")).Ok?
      && Json.Parse(CryptoUtils.DecryptSymmetric(p, encryptedData, key.value, iv, Some("")).value).Some?
      && ReportOf(Json.Parse(CryptoUtils.DecryptSymmetric(p, encryptedData, key.value, iv, Some("")).value).value).Ok?
    ensures r.Ok? ==>
      var text := CryptoUtils.DecryptSymmetric(p, encryptedData, RecoverKey(p, serverPrivateKey, encryptedKey).value, iv, Some("")).value;
      Carries(Json.Parse(text).value, r.value)
    ensures r.Err? ==> UnpackFailure(r.message)
  {
    match RecoverKey(p, serverPrivateKey, encryptedKey)
    case Err(m) => Err(m)
    case Ok(key) =>
      match CryptoUtils.DecryptSymmetric(p, encryptedData, key, iv, Some(""))
      case Err(m) => Err(m)
      case Ok(text) =>
        match Json.Parse(text)
        case None => Err(Json.MalformedJson)
        case Some(v) => ReportOf(v)
  }

  /** With the hybrid prefix in front, an unpacking failure still differs
      from every incomplete-package message. */
  lemma PrefixedUnpackFailure(m: string, labels: string)
    requires UnpackFailure(m)
    ensures HybridPrefix + m != HybridPrefix + IncompletePackage + labels
  {
    UnpackFailureNotIncomplete(m);
    DistinctAfterPrefix(HybridPrefix, m, IncompletePackage, labels);
  }

  /** Two texts with a common front stay distinct when what follows it in
      the first does not start with `b`. */
  lemma DistinctAfterPrefix(a: string, m: string, b: string, labels: string)
    requires !(b <= m)
    ensures a + m != a + b + labels
  {
    assert (a + m)[|a|..] == m;
    assert (a + b + labels)[|a|..] == b + labels;
    assert b <= b + labels;
  }

  /** What it takes for an envelope to be accepted: its key is recovered,
      its payload decrypts under that key to JSON carrying a complete
      report, and that report is the result. */
  lemma Accepts(p: Suite, serverPrivateKey: string, pkg: Package, key: string, payload: string,
                v: Json.Value, report: Report)
    requires Truthy(pkg.encryptedKey) && Truthy(pkg.encryptedData) && Truthy(pkg.iv)
    requires RecoverKey(p, serverPrivateKey, pkg.encryptedKey.value) == Ok(key)
    requires CryptoUtils.DecryptSymmetric(p, pkg.encryptedData.value, key, pkg.iv.value, Some("")) == Ok(payload)
    requires Json.Parse(payload) == Some(v) && Carries(v, report) && report.Complete()
    ensures DecryptHybridPackage(p, serverPrivateKey, pkg) == Ok(report)
  {
    assert Missing(pkg) == [];
  }

  // ---- report creation -----------------------------------------------------

  /** The member names of a stored field and of the receipt data. */
  const DataMember := "encryptedData"
  const IvMember := "iv"
  const TagMember := "authTag"
  const TimestampMember := "timestamp"
  const SummaryMember := "summary"

  /** What the storage encryption of a field becomes in its column:
      `JSON.stringify` of the `{encryptedData, iv, authTag}` object. */
  function FieldColumn(f: CryptoUtils.EncryptedField): (column: string)
    ensures Json.Parse(column) == Some(Json.Obj(FieldMembers(f)))
  {
    Json.ParseStringify(Json.Obj(FieldMembers(f)));
    Json.Stringify(Json.Obj(FieldMembers(f)))
  }

  function FieldMembers(f: CryptoUtils.EncryptedField): seq<Json.Member>
  {
    [Json.Member(DataMember, Json.Str(f.encryptedData)), Json.Member(IvMember, Json.Str(f.iv)),
     Json.Member(TagMember, Json.Str(f.authTag))]
  }

  /** The columns a new report is inserted with; `status` is `'pending'`. */
  datatype Stored = Stored(
    userId: nat,
    nameEncrypted: string,
    idEncrypted: string,
    textEncrypted: string,
    iv: string,
    digitalReceipt: string,
    status: string)

  /** The `SELECT private_key FROM users WHERE id = ?` row; `None` stands for
      SQL NULL. */
  datatype UserRow = UserRow(privateKey: Option<string>)

  /** Configuration read from the environment. */
  datatype Config = Config(storageKey: string, serverPrivateKey: string)

  /** The random and clock values one creation consumes: the three storage
      IVs, the two `toISOString()` readings (receipt data, then response) and
      the id the database assigns. */
  datatype Draws = Draws(nameIv: Block, idIv: Block, textIv: Block,
                         signedAt: string, respondedAt: string, insertId: nat)

  datatype Receipt = Receipt(receiptId: nat, timestamp: string, signature: string, status: string)

  /** The body of a successful creation. */
  datatype Created = Created(success: bool, digitalReceipt: Receipt, message: string)

  /** An HTTP answer: a JSON body, or an error status with `{error}`. */
  datatype Answer<+T> = Success(body: T) | Failure(code: nat, error: string)

  /** The receipt text that gets signed. */
  function ReceiptData(report: Report, timestamp: string): (data: string)
    ensures Json.Parse(data) == Some(Json.Obj(ReceiptMembers(report, timestamp)))
  {
    Json.ParseStringify(Json.Obj(ReceiptMembers(report, timestamp)));
    Json.Stringify(Json.Obj(ReceiptMembers(report, timestamp)))
  }

  function ReceiptMembers(report: Report, timestamp: string): seq<Json.Member>
  {
    [Json.Member(TimestampMember, Json.Str(timestamp)), Json.Member(IdMember, Json.Str(report.complainantId)),
     Json.Member(SummaryMember, Json.Str(Text.Take(report.reportText, 100) + "..."))]
  }

  /** Whether the submitter has a key to sign with. */
  predicate CanSign(users: seq<UserRow>) {
    |users| > 0 && Truthy(users[0].privateKey)
  }

  /** The receipt's signature: made with the first user row's private key when it has one, otherwise `'unsigned'`. */
  function Signature(p: Suite, data: string, users: seq<UserRow>): (r: Result<string>)
    ensures !CanSign(users) ==> r == Ok(Unsigned)
    ensures CanSign(users) ==> r == CryptoUtils.SignData(p, data, users[0].privateKey.value)
    ensures r.Err? ==> CanSign(users) && CryptoUtils.SignPrefix <= r.message
  {
    if CanSign(users) then CryptoUtils.SignData(p, data, users[0].privateKey.value) else Ok(Unsigned)
  }

  /** `createReport(req, res)` for the authenticated `userId`: the envelope
      in the body (`None` when absent), the submitter's user rows and the
      fresh values; the answer and, on success, the inserted columns.  A
      stored report is always answered with `success: true`, its id, the
      stored receipt signature and status `'pending'`; any failure after the
      presence check is a 500 whose message carries the cause. */
  function CreateReport(p: Suite, config: Config, userId: nat, body: Option<Package>,
                        users: seq<UserRow>, draws: Draws): (out: (Answer<Created>, Option<Stored>))
    ensures body.None? ==> out == (Failure(400, PackageRequired), None)
    ensures out.0.Success? <==> body.Some? && Store(p, config, userId, body.value, users, draws).Ok?
    ensures out.0.Success? <==> out.1.Some?
    ensures out.0.Success? ==>
      && out.1 == Some(Store(p, config, userId, body.value, users, draws).value)
      && out.0.body == Created(true, Receipt(draws.insertId, draws.respondedAt, out.1.value.digitalReceipt, "pending"),
                               CreatedMessage)
    ensures out.0.Failure? && body.Some? ==>
      out.0 == Failure(500, InternalErrorPrefix + Store(p, config, userId, body.value, users, draws).message)
  {
    if body.None? then (Failure(400, PackageRequired), None)
    else match Store(p, config, userId, body.value, users, draws)
      case Err(m) => (Failure(500, InternalErrorPrefix + m), None)
      case Ok(row) =>
        (Success(Created(true, Receipt(draws.insertId, draws.respondedAt, row.digitalReceipt, "pending"), CreatedMessage)),
         Some(row))
  }

  /** `row` is what gets inserted for `report`: each of the three fields
      encrypted for storage by a call of its own with its own IV, the `iv`
      column repeating the name field's IV, the receipt signature (or
      `'unsigned'`), and status `'pending'`. */
  predicate StoredFor(p: Suite, config: Config, userId: nat, report: Report,
                      users: seq<UserRow>, draws: Draws, row: Stored)
  {
    var name := CryptoUtils.EncryptSymmetric(p, report.complainantName, config.storageKey, draws.nameIv);
    var id := CryptoUtils.EncryptSymmetric(p, report.complainantId, config.storageKey, draws.idIv);
    var text := CryptoUtils.EncryptSymmetric(p, report.reportText, config.storageKey, draws.textIv);
    && name.Ok? && id.Ok? && text.Ok?
    && row.userId == userId && row.status == "pending"
    && row.nameEncrypted == FieldColumn(name.value) && row.iv == name.value.iv
    && row.idEncrypted == FieldColumn(id.value)
    && row.textEncrypted == FieldColumn(text.value)
    && Signature(p, ReceiptData(report, draws.signedAt), users) == Ok(row.digitalReceipt)
  }

  /** Steps 1 to 4 of `createReport`: unpack, then store.  A rejected
      envelope fails with the unpacking message; otherwise the row is the
      one stored for the unpacked report. */
  function Store(p: Suite, config: Config, userId: nat, pkg: Package,
                 users: seq<UserRow>, draws: Draws): (r: Result<Stored>)
    ensures r.Ok? ==>
      && DecryptHybridPackage(p, config.serverPrivateKey, pkg).Ok?
      && StoredFor(p, config, userId, DecryptHybridPackage(p, config.serverPrivateKey, pkg).value, users, draws, r.value)
    ensures DecryptHybridPackage(p, config.serverPrivateKey, pkg).Err? ==>
      r == Err(DecryptHybridPackage(p, config.serverPrivateKey, pkg).message)
    ensures DecryptHybridPackage(p, config.serverPrivateKey, pkg).Ok? ==>
      r == StoreReport(p, config, userId, DecryptHybridPackage(p, config.serverPrivateKey, pkg).value, users, draws)
  {
    match DecryptHybridPackage(p, config.serverPrivateKey, pkg)
    case Err(m) => Err(m)
    case Ok(report) => StoreReport(p, config, userId, report, users, draws)
  }

  /** Steps 2 to 4 of `createReport` for an unpacked report: encrypt each
      field by its own call, sign the receipt, and produce the row. */
  function StoreReport(p: Suite, config: Config, userId: nat, report: Report,
                       users: seq<UserRow>, draws: Draws): (r: Result<Stored>)
    ensures r.Ok? ==> StoredFor(p, config, userId, report, users, draws, r.value)
    ensures r.Err? ==> CryptoUtils.EncryptPrefix <= r.message || CryptoUtils.SignPrefix <= r.message
    ensures
      var name := CryptoUtils.EncryptSymmetric(p, report.complainantName, config.storageKey, draws.nameIv);
      var id := CryptoUtils.EncryptSymmetric(p, report.complainantId, config.storageKey, draws.idIv);
      var text := CryptoUtils.EncryptSymmetric(p, report.reportText, config.storageKey, draws.textIv);
      r.Ok? <==> name.Ok? && id.Ok? && text.Ok? && Signature(p, ReceiptData(report, draws.signedAt), users).Ok?
  {
    var key := config.storageKey;
    match CryptoUtils.EncryptSymmetric(p, report.complainantName, key, draws.nameIv)
    case Err(m) => Err(m)
    case Ok(name) =>
      match CryptoUtils.EncryptSymmetric(p, report.complainantId, key, draws.idIv)
      case Err(m) => Err(m)
      case Ok(id) =>
        match CryptoUtils.EncryptSymmetric(p, report.reportText, key, draws.textIv)
        case Err(m) => Err(m)
        case Ok(text) =>
          match Signature(p, ReceiptData(report, draws.signedAt), users)
          case Err(m) => Err(m)
          case Ok(signature) =>
            Ok(Stored(userId, FieldColumn(name), FieldColumn(id), FieldColumn(text), name.iv, signature, "pending"))
  }

  // ---- listing -------------------------------------------------------------

  /** A row of `SELECT r.*, u.username FROM reports r JOIN users u`. */
  datatype Row = Row(id: nat, stored: Stored, createdAt: string, username: string)

  /** One element of the listing. */
  datatype Entry =
    | Basic(id: nat, status: string, createdAt: string, hasSignature: bool)
    | Full(id: nat, complainantName: string, complainantId: string, reportText: string,
           status: string, createdAt: string, signature: string, submittedBy: string)
    | Failed(id: nat, error: string, status: string, createdAt: string)

  /** A stored member as the tag argument of a decryption: a string as it
      is, a falsy value as no tag, and any other value is refused.  Node's
      `Buffer.from` would also take an array of byte values or a
      `{"type": "Buffer", "data": [...]}` object as a tag (see README). */
  function TagOf(v: Option<Json.Value>): (r: Result<Option<string>>)
    ensures !Json.Truthy(v) ==> r == Ok(None)
    ensures r.Ok? && r.value.Some? ==> v == Some(Json.Str(r.value.value))
    ensures r.Err? <==> Json.Truthy(v) && !v.value.Str?
  {
    if !Json.Truthy(v) then Ok(None)
    else if v.value.Str? then Ok(Some(v.value.s))
    else Err(NotAString)
  }

  /** The storage decryption of one column: parse it, then
      `decryptSymmetric(data.encryptedData, storageKey, data.iv, data.authTag)`.
      It fails unless the column is an object whose data and IV members are
      strings and whose tag is a string or falsy. */
  function DecryptColumn(p: Suite, storageKey: string, column: string): (r: Result<string>)
    ensures Json.Parse(column).None? ==> r.Err?
    ensures r.Ok? ==>
      && Json.Parse(column).Some?
      && var v := Json.Parse(column).value;
      && Json.Field(v, DataMember).Some? && Json.Field(v, DataMember).value.Str?
      && Json.Field(v, IvMember).Some? && Json.Field(v, IvMember).value.Str?
      && TagOf(Json.Field(v, TagMember)).Ok?
      && r == CryptoUtils.DecryptSymmetric(p, Json.Field(v, DataMember).value.s, storageKey,
                                           Json.Field(v, IvMember).value.s, TagOf(Json.Field(v, TagMember)).value)
  {
    match Json.Parse(column)
    case None => Err(Json.MalformedJson)
    case Some(v) =>
      var data := Json.Field(v, DataMember);
      var iv := Json.Field(v, IvMember);
      if data.None? || iv.None? then Err(MissingMember)
      else if !data.value.Str? || !iv.value.Str? then Err(NotAString)
      else match TagOf(Json.Field(v, TagMember))
        case Err(m) => Err(m)
        case Ok(tag) => CryptoUtils.DecryptSymmetric(p, data.value.s, storageKey, iv.value.s, tag)
  }

  /** A column that parses to an object with string data and IV members and
      a usable tag decrypts as those members say. */
  lemma DecryptColumnOf(p: Suite, storageKey: string, column: string, ms: seq<Json.Member>,
                        data: string, iv: string, tag: Option<string>)
    requires Json.Parse(column) == Some(Json.Obj(ms))
    requires Json.Get(ms, DataMember) == Some(Json.Str(data)) && Json.Get(ms, IvMember) == Some(Json.Str(iv))
    requires TagOf(Json.Get(ms, TagMember)) == Ok(tag)
    ensures DecryptColumn(p, storageKey, column) == CryptoUtils.DecryptSymmetric(p, data, storageKey, iv, tag)
  {
  }

  /** Reading back a stored column decrypts the members it was written
      with, the tag selecting the mode. */
  lemma ColumnOfField(p: Suite, storageKey: string, f: CryptoUtils.EncryptedField)
    ensures DecryptColumn(p, storageKey, FieldColumn(f))
         == CryptoUtils.DecryptSymmetric(p, f.encryptedData, storageKey, f.iv, Some(f.authTag))
  {
    Json.GetThree(DataMember, Json.Str(f.encryptedData), IvMember, Json.Str(f.iv), TagMember, Json.Str(f.authTag));
    var tag := if f.authTag == "" then None else Some(f.authTag);
    DecryptColumnOf(p, storageKey, FieldColumn(f), FieldMembers(f), f.encryptedData, f.iv, tag);
    assert CryptoUtils.SelectMode(tag) == CryptoUtils.SelectMode(Some(f.authTag));
  }

  /** The entry a privileged reader gets for one row: the decrypted report,
      or, when any of the three decryptions fails, the error entry. */
  function DecryptRow(p: Suite, storageKey: string, row: Row): (e: Entry)
    ensures e.id == row.id && e.status == row.stored.status && e.createdAt == row.createdAt
    ensures e.Full? || e.Failed?
    ensures e.Full? <==>
      && DecryptColumn(p, storageKey, row.stored.nameEncrypted).Ok?
      && DecryptColumn(p, storageKey, row.stored.idEncrypted).Ok?
      && DecryptColumn(p, storageKey, row.stored.textEncrypted).Ok?
    ensures e.Full? ==>
      && Ok(e.complainantName) == DecryptColumn(p, storageKey, row.stored.nameEncrypted)
      && Ok(e.complainantId) == DecryptColumn(p, storageKey, row.stored.idEncrypted)
      && Ok(e.reportText) == DecryptColumn(p, storageKey, row.stored.textEncrypted)
      && e.signature == row.stored.digitalReceipt && e.submittedBy == row.username
    ensures e.Failed? ==> e.error == RowDecryptError
  {
    var name := DecryptColumn(p, storageKey, row.stored.nameEncrypted);
    var id := DecryptColumn(p, storageKey, row.stored.idEncrypted);
    var text := DecryptColumn(p, storageKey, row.stored.textEncrypted);
    if name.Ok? && id.Ok? && text.Ok? then
      Full(row.id, name.value, id.value, text.value, row.stored.status, row.createdAt,
           row.stored.digitalReceipt, row.username)
    else Failed(row.id, RowDecryptError, row.stored.status, row.createdAt)
  }

  /** The entry an ordinary user gets for one row. */
  function BasicEntry(row: Row): (e: Entry)
    ensures e.Basic? && e.id == row.id && e.status == row.stored.status && e.createdAt == row.createdAt
    ensures e.hasSignature <==> row.stored.digitalReceipt != Unsigned
  {
    Basic(row.id, row.stored.status, row.createdAt, row.stored.digitalReceipt != Unsigned)
  }

  /** The entry for one row, by role. */
  function EntryFor(p: Suite, storageKey: string, role: string, row: Row): (e: Entry)
    ensures e.id == row.id && e.status == row.stored.status && e.createdAt == row.createdAt
    ensures e.Basic? <==> role == UserRole
  {
    if role == UserRole then BasicEntry(row) else DecryptRow(p, storageKey, row)
  }

  /** `getReports(req, res)` over the joined rows in query order: one entry
      per row, in the same order, each depending on its own row alone. */
  function Listing(p: Suite, storageKey: string, role: string, rows: seq<Row>): (es: seq<Entry>)
    ensures |es| == |rows|
    ensures forall i :: 0 <= i < |rows| ==> es[i] == EntryFor(p, storageKey, role, rows[i])
  {
    if |rows| == 0 then []
    else [EntryFor(p, storageKey, role, rows[0])] + Listing(p, storageKey, role, rows[1..])
  }

  // ---- status update -------------------------------------------------------

  datatype Status = Pending | UnderReview | Resolved
  {
    function Name(): string {
      match this
      case Pending => "pending"
      case UnderReview => "under_review"
      case Resolved => "resolved"
    }
  }

  /** `['pending', 'under_review', 'resolved'].includes(status)`; `None`
      stands for a body value that is not a string. */
  function ParseStatus(status: Option<string>): (r: Option<Status>)
    ensures r.Some? <==> status.Some? && status.value in {"pending", "under_review", "resolved"}
    ensures r.Some? ==> r.value.Name() == status.value
  {
    match status
    case None => None
    case Some(s) =>
      if s == "pending" then Some(Pending)
      else if s == "under_review" then Some(UnderReview)
      else if s == "resolved" then Some(Resolved)
      else None
  }

  /** The body of a successful update. */
  datatype Updated = Updated(success: bool, message: string)

  /** `row` with its status replaced when it is report `id`. */
  function SetStatus(row: Row, id: nat, status: string): (r: Row)
    ensures r.id == row.id && r.createdAt == row.createdAt && r.username == row.username
    ensures row.id == id ==> r.stored == row.stored.(status := status)
    ensures row.id != id ==> r == row
  {
    if row.id == id then row.(stored := row.stored.(status := status)) else row
  }

  /** `updateReportStatus(req, res)` against the table `rows`: the answer and
      the table afterwards.  A report is not found when no row has the id;
      the update does not look at the current status. */
  function UpdateReportStatus(rows: seq<Row>, id: nat, status: Option<string>): (out: (Answer<Updated>, seq<Row>))
    ensures ParseStatus(status).None? ==> out == (Failure(400, InvalidStatus), rows)
    ensures ParseStatus(status).Some? && (forall i :: 0 <= i < |rows| ==> rows[i].id != id) ==>
      out == (Failure(404, ReportNotFound), rows)
    ensures out.0.Success? <==> ParseStatus(status).Some? && exists i :: 0 <= i < |rows| && rows[i].id == id
    ensures out.0.Success? ==> out.0.body == Updated(true, StatusUpdatedPrefix + status.value)
    ensures |out.1| == |rows|
    ensures forall i :: 0 <= i < |rows| ==> out.1[i].id == rows[i].id && out.1[i].createdAt == rows[i].createdAt
    ensures forall i :: 0 <= i < |rows| && (rows[i].id != id || out.0.Failure?) ==> out.1[i] == rows[i]
    ensures forall i :: 0 <= i < |rows| && rows[i].id == id && out.0.Success? ==>
      out.1[i].stored == rows[i].stored.(status := status.value) && out.1[i].username == rows[i].username
  {
    if ParseStatus(status).None? then (Failure(400, InvalidStatus), rows)
    else
      var updated := seq(|rows|, i requires 0 <= i < |rows| => SetStatus(rows[i], id, status.value));
      if forall i :: 0 <= i < |rows| ==> rows[i].id != id then (Failure(404, ReportNotFound), rows)
      else (Success(Updated(true, StatusUpdatedPrefix + status.value)), updated)
  }

  // ---- properties ----------------------------------------------------------

  /** The package's `authTag` is never read. */
  lemma AuthTagIgnored(p: Suite, serverPrivateKey: string, pkg: Package, authTag: Option<string>)
    ensures DecryptHybridPackage(p, serverPrivateKey, pkg)
         == DecryptHybridPackage(p, serverPrivateKey, pkg.(authTag := authTag))
  {
    assert Missing(pkg) == Missing(pkg.(authTag := authTag));
  }

  /** The payload always goes down the CBC branch: the GCM decryption
      function is never consulted, whatever the envelope carries. */
  lemma PayloadAlwaysCbc(p: Suite, g: (Bytes, Bytes, Bytes, Bytes) -> Result<Bytes>,
                         serverPrivateKey: string, pkg: Package)
    ensures CryptoUtils.SelectMode(Some("")).Cbc?
    ensures DecryptHybridPackage(p, serverPrivateKey, pkg)
         == DecryptHybridPackage(p.(gcmDecrypt := g), serverPrivateKey, pkg)
  {
    var q := p.(gcmDecrypt := g);
    if |Missing(pkg)| == 0 {
      assert Truthy(pkg.encryptedKey) && Truthy(pkg.encryptedData) && Truthy(pkg.iv) by {
        assert EncryptedKey !in Missing(pkg) && EncryptedData !in Missing(pkg) && Iv !in Missing(pkg);
      }
      var k := pkg.encryptedKey.value;
      assert RecoverKey(p, serverPrivateKey, k) == RecoverKey(q, serverPrivateKey, k);
      match RecoverKey(p, serverPrivateKey, k)
      case Err(_) =>
      case Ok(key) =>
        CryptoUtils.CbcBranchIgnoresGcm(p, g, pkg.encryptedData.value, key, pkg.iv.value, Some(""));
    }
  }

  /** In development mode the key is always recovered. */
  lemma DevelopmentKeyRecovered(encryptedKey: string)
    requires IsDevelopmentMode(encryptedKey)
    ensures DecryptDevelopmentKey(encryptedKey).Ok?
    ensures Utf8.Delimiter !in DecryptDevelopmentKey(encryptedKey).value
  {
  }

  /** The missing-members message names each missing member once, in the
      fixed order, and nothing else: it is the labels of exactly the members
      for which the package has no non-empty value. */
  lemma {:induction false} MissingMessage(pkg: Package)
    ensures Labels(Missing(pkg))
         == (if Truthy(pkg.encryptedKey) then "" else "encryptedKey ")
          + (if Truthy(pkg.encryptedData) then "" else "encryptedData ")
          + (if Truthy(pkg.iv) then "" else "iv")
  {
    var a := if Truthy(pkg.encryptedKey) then [] else [EncryptedKey];
    var b := if Truthy(pkg.encryptedData) then [] else [EncryptedData];
    var c := if Truthy(pkg.iv) then [] else [Iv];
    LabelsConcat(a, b + c);
    LabelsConcat(b, c);
    assert Missing(pkg) == a + (b + c);
    assert Labels(c) == (if Truthy(pkg.iv) then "" else "iv");
    assert Labels(b) == (if Truthy(pkg.encryptedData) then "" else "encryptedData ");
    assert Labels(a) == (if Truthy(pkg.encryptedKey) then "" else "encryptedKey ");
  }

  lemma {:induction false} LabelsConcat(a: seq<Required>, b: seq<Required>)
    ensures Labels(a + b) == Labels(a) + Labels(b)
  {
    if |a| > 0 {
      assert (a + b)[0] == a[0] && (a + b)[1..] == a[1..] + b;
      LabelsConcat(a[1..], b);
      assert Labels(a + b) == a[0].Label() + Labels(a[1..] + b);
    } else {
      assert a + b == b;
    }
  }

  /** The receipt is `'unsigned'` exactly when the submitter has no private
      key, provided real signatures are base64 of 256 bytes. */
  lemma UnsignedExactlyWithoutKey(p: Suite, data: string, users: seq<UserRow>)
    requires SignSound(p) && Signature(p, data, users).Ok?
    ensures Signature(p, data, users).value == Unsigned <==> !CanSign(users)
  {
    if CanSign(users) {
      CryptoUtils.SignatureIsNotUnsigned(p, data, users[0].privateKey.value);
    }
  }

  /** The signed receipt data carries the first 100 characters of the report
      text followed by `'...'`, the submitter's id and the timestamp. */
  lemma ReceiptSummary(report: Report, timestamp: string)
    ensures var v := Json.Parse(ReceiptData(report, timestamp)).value;
      && Json.Field(v, SummaryMember) == Some(Json.Str(Text.Take(report.reportText, 100) + "..."))
      && Json.Field(v, IdMember) == Some(Json.Str(report.complainantId))
      && Json.Field(v, TimestampMember) == Some(Json.Str(timestamp))
  {
    Json.GetThree(TimestampMember, Json.Str(timestamp), IdMember, Json.Str(report.complainantId),
                  SummaryMember, Json.Str(Text.Take(report.reportText, 100) + "..."));
  }

  /** Listing distributes over concatenation of the rows. */
  lemma {:induction false} ListingAppend(p: Suite, storageKey: string, role: string, a: seq<Row>, b: seq<Row>)
    ensures Listing(p, storageKey, role, a + b) == Listing(p, storageKey, role, a) + Listing(p, storageKey, role, b)
  {
    var l, la, lb := Listing(p, storageKey, role, a + b), Listing(p, storageKey, role, a), Listing(p, storageKey, role, b);
    forall i | 0 <= i < |l|
      ensures l[i] == (la + lb)[i]
    {
      if i < |a| {
        assert (a + b)[i] == a[i];
      } else {
        assert (a + b)[i] == b[i - |a|];
      }
    }
  }

  /** Failure isolation: replacing one row, however broken, changes no other
      entry of the listing. */
  lemma ListingIsolation(p: Suite, storageKey: string, role: string, rows: seq<Row>, k: nat, row: Row)
    requires k < |rows|
    ensures var before, after := Listing(p, storageKey, role, rows), Listing(p, storageKey, role, rows[k := row]);
      |after| == |before| && forall i :: 0 <= i < |rows| && i != k ==> after[i] == before[i]
  {
  }

  /** An ordinary user's listing reveals no report contents, and its
      `hasSignature` flags follow the stored receipts. */
  lemma UserListingIsBasic(p: Suite, storageKey: string, rows: seq<Row>)
    ensures var es := Listing(p, storageKey, UserRole, rows);
      forall i :: 0 <= i < |rows| ==>
        es[i].Basic? && es[i].id == rows[i].id
        && (es[i].hasSignature <==> rows[i].stored.digitalReceipt != Unsigned)
  {
  }

  /** A privileged listing never holds a basic entry, and each entry is
      either the full report or the error entry for its own row. */
  lemma PrivilegedListingDecrypts(p: Suite, storageKey: string, role: string, rows: seq<Row>)
    requires role != UserRole
    ensures var es := Listing(p, storageKey, role, rows);
      forall i :: 0 <= i < |rows| ==>
        && es[i].id == rows[i].id
        && (es[i].Full? || (es[i].Failed? && es[i].error == RowDecryptError))
  {
  }

  /** The status names are exactly what the validator accepts. */
  lemma StatusRoundTrip(s: Status)
    ensures ParseStatus(Some(s.Name())) == Some(s)
  {
  }

  /** No transition is forbidden: any accepted status replaces any current
      one on an existing report. */
  lemma AnyTransition(rows: seq<Row>, k: nat, s: Status)
    requires k < |rows|
    ensures var out := UpdateReportStatus(rows, rows[k].id, Some(s.Name()));
      out.0.Success? && out.1[k].stored.status == s.Name()
  {
    StatusRoundTrip(s);
  }
}
