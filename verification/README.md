# Hybrid-envelope report protocol, in Dafny

This project models the cryptographic core of a secure whistle-blowing
report system. The core has three parts:

- **The browser** (`CryptoClient`). It packs a data object (the report form's
  complainant name, complainant id, report text and attachments) into a
  four-field *hybrid envelope*. The object's JSON is encrypted with AES-256-CBC under a fresh 256-bit key. The
  key itself is "wrapped" in the development format: base64 of
  `key|timestamp|salt`. The `authTag` is the sentinel `not-used-in-crypto-js`.
- **The server helpers** (`CryptoUtils`). These cover:
  - AES-256-GCM encryption for storage;
  - decryption that picks CBC or GCM from the tag it is given;
  - the RSA encryption and signing wrappers, which first restore escaped line
    breaks in PEM keys;
  - the key, IV and public-key checks.
- **The report controller** (`ReportController`). It:
  - unpacks an envelope, detecting development or production mode from the
    wrapped key;
  - re-encrypts each of the three fields with a call of its own for storage;
  - signs a receipt with the submitter's private key, or stores `'unsigned'`;
  - lists stored reports, either basic or decrypted depending on the role;
  - validates status updates.

The cipher functions themselves are left uninterpreted. A `Primitives.Suite`
value supplies them. The few facts the protocol relies on are stated as
predicates on a suite and taken as hypotheses only by the theorems that need
them:

| predicate | what it assumes |
|---|---|
| `CbcSound` | CBC takes any input under a 32-byte key and 16-byte IV; PKCS#7 output length; decryption inverts encryption |
| `GcmSound` | the same for GCM, plus a 16-byte tag |
| `RsaSound` | 256-byte ciphertexts; the paired private key decrypts |
| `SignSound` | 256-byte signatures; the paired public key verifies |

Randomness (key, IV and salt bytes), clock readings and database ids are
parameters. HTTP requests, responses and SQL statements are replaced by their
inputs and outputs:

- `Answer` is a JSON body or an error status with its message.
- `Stored` is the inserted row.
- `Row` is a joined row of the listing query.

The text encodings the protocol passes through are modelled as functions,
and their round trips are proved. The differences from the JavaScript
runtime are listed under "## Left out":

- hex (`Hex`);
- base64 per section 4 of RFC 4648 (`Base64`);
- UTF-8 (`Utf8`);
- `JSON.stringify` and `JSON.parse` of null, booleans, strings, arrays and
  objects (`Json`). A member read returns the last member of that name, as
  JavaScript property access does;
- PEM line-break escaping (`Pem`).

Module layout follows the program: `crypto_utils.dfy`, `crypto_client.dfy`
and `report_controller.dfy` model the three source files. `envelope.dfy`
holds the shared wire types and the browser form's data object.
`protocol.dfy` holds the theorems that cross files:

- the end-to-end envelope round trip, both for any object carrying the three
  report fields and for the form's object with its `attachments` array;
- the development and production key round trips;
- create-then-list;
- receipt verification.

Some behaviour of the code is worth stating up front:

- **The payload is always decrypted in CBC mode.** The server passes an empty
  tag (`reportController.js:130-135`), so the envelope's `authTag` is never
  read (`AuthTagIgnored`, `PayloadAlwaysCbc`).
- **The payload check is truthiness.** The decrypted object passes when its
  three report members are truthy (`reportController.js:142`); other members,
  such as the form's `attachments`, are ignored. The resulting error message
  always lists all three fields (`reportController.js:143`). A truthy member
  that is not a string then fails, because `substring` is called on it
  (`reportController.js:147-148`).
- **The signed receipt is JSON.** It is
  `JSON.stringify({timestamp, complainantId, summary})`. It holds no
  submission id, since signing happens before the insert
  (`reportController.js:39-53`).
- **A field decryption failure fails the whole row.** The row becomes one
  error entry (`reportController.js:245-252`). Rows stay isolated from each
  other (`ListingIsolation`).
- **The browser never RSA-encrypts the key.** It always uses the
  development encoding (`cryptoClient.js:32-52`).

## Model

| member | source | states |
|---|---|---|
| Results.Result.WithPrefix | backend/utils/cryptoUtils.js:36-38 | a caught error is rethrown with the prefix in front of its message; success passes through unchanged |
| Text.Split | backend/controllers/reportController.js:175 | `split('|')` yields at least one piece, no piece contains the separator, and joining the pieces restores the text |
| Text.SplitOfJoined | backend/controllers/reportController.js:175-179 | the first piece of `key|rest` is `key` when `key` has no separator |
| Text.Includes | backend/utils/cryptoUtils.js:143 | `includes` holds exactly when the text occurs at some position |
| Text.Take | backend/controllers/reportController.js:42 | `substring(0, n)` is a prefix of length min(n, length) |
| Hex.Encode | backend/utils/cryptoUtils.js:136 | hex output has two lower-case digits per byte |
| Hex.DecodeEncode | backend/utils/cryptoUtils.js:43-44 | reading back hex that was written from bytes yields those bytes |
| Hex.EncodeDecode | backend/utils/cryptoUtils.js:43-44 | well-formed lower-case hex decodes to half as many bytes and re-encodes to itself |
| Hex.NoDelimiter | frontend/src/utils/cryptoClient.js:7 | a hex key never contains the `|` delimiter |
| Hex.Decode | backend/utils/cryptoUtils.js:43-44 | decoding stops at the first pair that is not two hex digits, and each decoded byte is the value of its pair |
| Base64.Encode | frontend/src/utils/cryptoClient.js:44 | `btoa` output has 4 characters per started 3-byte group and never contains `|` |
| Base64.DecodeEncode | backend/controllers/reportController.js:163 | base64 decoding inverts encoding for every byte sequence |
| Base64.Decode | backend/controllers/reportController.js:163 | decodable text has a multiple of four characters and gives 3 bytes per group, less up to 2 for padding |
| Utf8.DecodeStep | backend/controllers/reportController.js:163 | one decoding step consumes 1 to 4 bytes, maps exactly the ASCII bytes to ASCII characters, and only consumes continuation bytes after the first |
| Utf8.DecodeEncode | frontend/src/utils/cryptoClient.js:44 | decoding the UTF-8 bytes of a string gives back the string |
| Utf8.DelimiterInDecode | backend/controllers/reportController.js:163-164 | the decoded text contains `|` exactly when the bytes contain 0x7C, even for malformed UTF-8 |
| Utf8.Encode | frontend/src/utils/cryptoClient.js:44 | a string encodes to 1 to 4 bytes per character, and contains `|` exactly when its bytes contain 0x7C |
| Utf8.Decode | backend/controllers/reportController.js:163 | decoding never yields more characters than bytes and is empty exactly for no bytes |
| Json.Get | backend/controllers/reportController.js:142 | a member is found exactly when some member has that name, and its value is that of the last member with the name, as JavaScript property access gives |
| Json.GetThree | backend/controllers/reportController.js:216-218 | each member of a three-member object with distinct names reads back as written |
| Json.ParseStringify | backend/controllers/reportController.js:139 | `JSON.parse` of `JSON.stringify` of any value (null, boolean, string, array or object, nested) gives back that value |
| Json.Stringify | frontend/src/utils/cryptoClient.js:69 | the text starts a JSON value |
| Json.Parse | backend/controllers/reportController.js:139 | a parsed text starts, after whitespace, with a character that begins a JSON value |
| Json.Field | backend/controllers/reportController.js:216-218 | a member read succeeds only on an object, and then reads its members |
| Json.GetAppend | backend/controllers/reportController.js:142 | a later member of a name overrides earlier ones |
| Json.GetUnique | backend/controllers/reportController.js:142 | a member whose name occurs once reads back as written |
| Pem.Normalize | backend/utils/cryptoUtils.js:100 | the result has no escaped line break left, is never longer, is non-empty exactly when the input is, and equals the input when it had no escaped line break |
| Pem.NormalizeIdempotent | backend/controllers/reportController.js:122-123 | restoring line breaks twice, as production key recovery does, is the same as once |
| Pem.NormalizeEscape | backend/setupAndVerify.js:33-34 | restoring line breaks undoes the setup script's escaping of a PEM key |
| CryptoUtils.GenerateSymmetricKey | backend/utils/cryptoUtils.js:135-137 | the key is 64 lower-case hex digits that decode to the 32 random bytes |
| CryptoUtils.GenerateIV | backend/utils/cryptoUtils.js:155-157 | the IV is 32 lower-case hex digits that decode to the 16 random bytes |
| CryptoUtils.EncryptSymmetric | backend/utils/cryptoUtils.js:20-39 | succeeds exactly when GCM encryption of the UTF-8 plaintext succeeds; the returned IV decodes to the IV used; failures carry the symmetric-encryption prefix |
| CryptoUtils.SelectMode | backend/utils/cryptoUtils.js:47 | CBC exactly when the tag is absent, empty or the sentinel; otherwise GCM with that tag |
| CryptoUtils.DecryptSymmetric | backend/utils/cryptoUtils.js:41-70 | ciphertext hex of odd length is an error; otherwise the call succeeds exactly when the decryption the tag selects (CBC or GCM with the decoded tag) succeeds on the hex-decoded key, IV and ciphertext, and returns its UTF-8 reading; every failure carries the `Error descifrando: ` prefix |
| CryptoUtils.EncryptAsymmetric | backend/utils/cryptoUtils.js:87-96 | succeeds exactly when RSA encryption under the normalised key succeeds, and the result decodes as base64 to its ciphertext; failures carry the prefix |
| CryptoUtils.DecryptAsymmetric | backend/utils/cryptoUtils.js:98-107 | text that does not decode as base64 is an error; otherwise succeeds exactly when RSA decryption under the normalised key succeeds, giving the UTF-8 reading; failures carry the prefix |
| CryptoUtils.SignData | backend/utils/cryptoUtils.js:110-120 | succeeds exactly when signing the UTF-8 data under the normalised key succeeds, and the result decodes as base64 to that signature; failures carry the prefix |
| CryptoUtils.VerifySignature | backend/utils/cryptoUtils.js:122-132 | a signature that is not base64 gives false; otherwise the result is the verifier's verdict on the normalised key, the UTF-8 data and the decoded signature, and verifier failures carry their prefix |
| CryptoUtils.IsValidPublicKey | backend/utils/cryptoUtils.js:140-152 | holds exactly for a non-empty string with the RSA public-key header on which encrypting "test" succeeds with a non-empty result |
| CryptoUtils.EncryptSymmetricSelectsGcm | backend/utils/cryptoUtils.js:29-59 | under a 32-byte key, storage encryption succeeds and its 32-digit tag sends decryption down the GCM branch |
| CryptoUtils.SymmetricRoundTrip | backend/utils/cryptoUtils.js:20-70 | decrypting the three hex fields that storage encryption returned, under the same key, yields the plaintext |
| CryptoUtils.CbcBranchIgnoresGcm | backend/utils/cryptoUtils.js:47-54 | on the CBC branch the GCM decryption is never consulted |
| CryptoUtils.GcmBranchIgnoresCbc | backend/utils/cryptoUtils.js:55-66 | on the GCM branch the CBC decryption is never consulted |
| CryptoUtils.EscapedPrivateKeyDecrypts | backend/utils/cryptoUtils.js:98-103 | a private key stored with escaped line breaks decrypts exactly as the PEM key does |
| CryptoUtils.SignThenVerify | backend/utils/cryptoUtils.js:110-132 | a signature made with the private key of a pair verifies under its public key |
| CryptoUtils.SignatureIsNotUnsigned | backend/utils/cryptoUtils.js:110-116 | a real signature is 344 base64 characters, so never the `'unsigned'` marker |
| CryptoClient.GenerateSymmetricKey | frontend/src/utils/cryptoClient.js:6-8 | the key is 64 lower-case hex digits that decode to the random bytes, with no `|` |
| CryptoClient.EncryptAes | frontend/src/utils/cryptoClient.js:11-29 | succeeds exactly when CBC encryption succeeds; the hex ciphertext and IV decode to the CBC output and the IV used; failures carry the AES prefix |
| CryptoClient.EncryptRsa | frontend/src/utils/cryptoClient.js:32-52 | the wrapped key is base64 of the UTF-8 bytes of `key|timestamp|salt` |
| CryptoClient.DevelopmentFormat | frontend/src/utils/cryptoClient.js:41 | the first `|`-piece of `key|timestamp|salt` is the key when the key has no `|` |
| CryptoClient.CreateHybridPackage | frontend/src/utils/cryptoClient.js:55-86 | a data object whose three report members are not all truthy fails with the fixed message; on success the tag is the sentinel, the IV has 32 digits decoding to the IV used, and the hex data decodes to the CBC encryption of the UTF-8 `JSON.stringify` of the whole object |
| CryptoClient.CompleteReportPacks | frontend/src/utils/cryptoClient.js:59-81 | with a working CBC cipher, every data object whose report members are truthy is packed |
| CryptoClient.ValidatePublicKey | frontend/src/utils/cryptoClient.js:89-94 | accepts exactly a non-empty string containing one of the two public-key headers |
| ReportController.Missing | backend/controllers/reportController.js:104-109 | lists exactly the required members that are missing or empty, in message order |
| ReportController.MissingMessage | backend/controllers/reportController.js:105-108 | the message names each missing member once, in the fixed order |
| ReportController.Labels | backend/controllers/reportController.js:105-108 | the list of missing names is empty exactly when no member is missing |
| ReportController.LabelsConcat | backend/controllers/reportController.js:105-108 | the names of two lists of members are the concatenation of each list's names |
| ReportController.IsDevelopmentMode | backend/controllers/reportController.js:160-169 | development mode exactly when the key decodes as base64 to bytes containing 0x7C |
| ReportController.KeyBeforeDelimiter | backend/controllers/reportController.js:175-179 | the key is the longest delimiter-free prefix of the decoded text |
| ReportController.DecryptDevelopmentKey | backend/controllers/reportController.js:172-188 | succeeds exactly when the key decodes as base64, giving the text before the first delimiter; failures carry the development-key prefix |
| ReportController.DevelopmentKeyOf | backend/controllers/reportController.js:160-181 | a key whose text is `key|…` is non-empty, in development mode, and yields `key` |
| ReportController.DevelopmentKeyRecovered | backend/controllers/reportController.js:117-119 | in development mode key recovery always succeeds, with a delimiter-free key |
| ReportController.RecoverKey | backend/controllers/reportController.js:114-124 | a development-format key is unwrapped, any other is RSA-decrypted with the server key's escaped newlines restored; failures carry the development-key or RSA-decryption prefix |
| ReportController.ReportOf | backend/controllers/reportController.js:139-148 | a null payload and a payload without three truthy members are rejected; a payload carrying three non-empty strings gives exactly that report; a truthy member that is not a string is rejected |
| ReportController.DecryptHybridPackage | backend/controllers/reportController.js:98-157 | success gives a complete report; failures carry the hybrid prefix; the incomplete-package message happens exactly when a member is missing, naming those members; otherwise the result is the unpacked result with the prefix added to errors |
| ReportController.Unpack | backend/controllers/reportController.js:114-152 | succeeds exactly when the key is recovered, the payload decrypts, parses as JSON and passes the field check; the report is the one the payload carries; each failure is a key-recovery, decryption, parse or field error, never the incomplete-package message |
| ReportController.UnpackFailureNotIncomplete | backend/controllers/reportController.js:104-110 | no failure of the later unpacking steps starts with the incomplete-package message, so that message means a missing member |
| ReportController.Accepts | backend/controllers/reportController.js:98-152 | a recovered key, a payload decrypting to JSON and three non-empty string members there together make the envelope accepted with that report |
| ReportController.AuthTagIgnored | backend/controllers/reportController.js:102-135 | the envelope's `authTag` has no effect on unpacking |
| ReportController.PayloadAlwaysCbc | backend/controllers/reportController.js:130-135 | unpacking never consults GCM decryption |
| ReportController.ReceiptData | backend/controllers/reportController.js:39-43 | the signed receipt text parses to the object of timestamp, complainant id and a summary of the first 100 characters plus `'...'` |
| ReportController.FieldColumn | backend/controllers/reportController.js:67-69 | a stored column is JSON that parses back to the object of the field's data, IV and tag |
| ReportController.ReceiptSummary | backend/controllers/reportController.js:39-43 | each receipt member reads back as written |
| ReportController.Signature | backend/controllers/reportController.js:51-57 | without a private key the signature is `'unsigned'`; with one it is the signature of the receipt; only signing can fail |
| ReportController.UnsignedExactlyWithoutKey | backend/controllers/reportController.js:51-57 | the stored receipt is `'unsigned'` exactly when the submitter has no private key |
| ReportController.StoreReport | backend/controllers/reportController.js:23-73 | a row is produced exactly when the three field encryptions and the receipt signature all succeed; it has each field encrypted by its own call and IV, the name field's IV in the `iv` column, the receipt signature and status `'pending'`; failures carry the encryption or signing prefix |
| ReportController.Store | backend/controllers/reportController.js:18-73 | a row is stored only for an accepted envelope; a rejected envelope's error is passed on unchanged, and an accepted one's report is stored as `StoreReport` stores it |
| ReportController.CreateReport | backend/controllers/reportController.js:7-95 | no envelope gives 400; success exactly when storing succeeds and exactly when a row is inserted, answered with its id, stored signature and `'pending'`; other failures are 500 with the cause |
| ReportController.DecryptColumn | backend/controllers/reportController.js:216-239 | an unparseable column fails; a column decrypts only when it parses to an object with string data and IV members and a usable tag, and then exactly as those members say |
| ReportController.DecryptColumnOf | backend/controllers/reportController.js:216-239 | a parsed column with string data and IV members decrypts with them and its tag |
| ReportController.ColumnOfField | backend/controllers/reportController.js:67-69 | a stored column decrypts with the data, IV and tag it was written with |
| ReportController.TagOf | backend/controllers/reportController.js:226 | a falsy tag member selects no tag, a string member is used as the tag, and any other truthy member is refused |
| ReportController.DecryptRow | backend/controllers/reportController.js:214-253 | a full entry exactly when all three columns decrypt, carrying them, the receipt and the username; otherwise the error entry; id, status and date always kept |
| ReportController.BasicEntry | backend/controllers/reportController.js:202-207 | a basic entry keeps id, status and date; `hasSignature` exactly when the receipt is not `'unsigned'` |
| ReportController.EntryFor | backend/controllers/reportController.js:200-253 | every entry keeps the row's id, status and date; it is basic exactly for the `'user'` role |
| ReportController.Listing | backend/controllers/reportController.js:211-257 | one entry per row, in order, each determined by its own row |
| ReportController.ListingAppend | backend/controllers/reportController.js:213-255 | the listing of concatenated rows is the concatenation of the listings |
| ReportController.ListingIsolation | backend/controllers/reportController.js:214-253 | replacing one row changes no other entry |
| ReportController.UserListingIsBasic | backend/controllers/reportController.js:201-208 | the `'user'` role sees only basic entries, with no report contents |
| ReportController.PrivilegedListingDecrypts | backend/controllers/reportController.js:211-255 | other roles get, per row, the full report or the error entry, never a basic one |
| ReportController.ParseStatus | backend/controllers/reportController.js:299 | a status is accepted exactly when it is one of the three names |
| ReportController.StatusRoundTrip | backend/controllers/reportController.js:299 | every status name is accepted as that status |
| ReportController.SetStatus | backend/controllers/reportController.js:303-306 | the matching row gets the new status with everything else kept; other rows are unchanged |
| ReportController.UpdateReportStatus | backend/controllers/reportController.js:294-316 | invalid status gives 400, an unknown id gives 404, with the table unchanged; success sets the new status on the matching rows only and keeps everything else |
| ReportController.AnyTransition | backend/controllers/reportController.js:303-306 | any accepted status replaces any current one on an existing report |
| Protocol.WrappedText | frontend/src/utils/cryptoClient.js:37-44 | the wrapped key decodes to the text `key|timestamp|salt` |
| Protocol.DevelopmentRoundTrip | frontend/src/utils/cryptoClient.js:37-47 | the server classifies a wrapped key as development mode and recovers exactly the key, whatever the clock and salt |
| Protocol.FormatCarriesKey | backend/controllers/reportController.js:172-181 | any base64 text decoding to `key|timestamp|salt` is non-empty, counts as development mode and yields `key` |
| Protocol.GeneratedKeyRoundTrips | frontend/src/utils/cryptoClient.js:64-73 | every key the browser generates survives wrapping and unwrapping |
| Protocol.ClientEnvelopeSelectsCbc | frontend/src/utils/cryptoClient.js:76-81 | the browser's sentinel tag selects the CBC branch |
| Protocol.PayloadParses | frontend/src/utils/cryptoClient.js:69 | the server parses the browser's payload back into the same object, and reads from it the report it carries, whatever other members it has |
| Protocol.PayloadDecrypts | backend/controllers/reportController.js:130-135 | the server's CBC decryption of the browser's hex fields returns the payload text |
| Protocol.ClientPackage | frontend/src/utils/cryptoClient.js:55-81 | for a data object with truthy report members, the envelope is the wrapped key, the AES output of its JSON and the sentinel |
| Protocol.ServerUnpacks | backend/controllers/reportController.js:98-152 | the server accepts such an envelope and recovers the report the object carries |
| Protocol.EndToEnd | frontend/src/utils/cryptoClient.js:55-86 | with a working CBC cipher, the browser's envelope for any object carrying a complete report unpacks on the server to that report |
| Protocol.FormEndToEnd | frontend/src/components/SecureReportForm.js:6-37 | the form's object, with its `attachments` array of any contents, packs and unpacks on the server to its report |
| Protocol.NonStringFieldRejected | backend/controllers/reportController.js:142-148 | a truthy non-string member passes the truthiness check but the payload is rejected |
| Protocol.ProductionRoundTrip | backend/controllers/reportController.js:116-124 | an RSA-encrypted key is recovered with the paired private key, escaped or not, when its ciphertext has no 0x7C byte |
| Protocol.ProductionModeDetection | backend/controllers/reportController.js:160-169 | an RSA-encrypted key is taken for a development key exactly when its ciphertext contains 0x7C |
| Protocol.StoredColumnDecrypts | backend/controllers/reportController.js:216-239 | a stored column decrypts, by the GCM branch, to the plaintext stored |
| Protocol.CreateThenList | backend/controllers/reportController.js:59-73 | a created report lists, to a privileged reader, with its submitted fields, `'pending'` and the receipt the submitter got |
| Protocol.ReceiptVerifies | backend/controllers/reportController.js:51-53 | a signed receipt verifies under the submitter's public key |
| Protocol.ReceiptUnsignedWithoutKey | backend/controllers/reportController.js:78-83 | the returned receipt is `'unsigned'` exactly when the submitter has no private key |
| Protocol.UnsignedSubmissionSucceeds | backend/controllers/reportController.js:18-73 | with a working GCM cipher and a 32-byte storage key, an accepted envelope from a submitter without a private key is stored and answered with success |
| Protocol.SignedSubmissionSucceeds | backend/controllers/reportController.js:18-73 | the same for a submitter with a private key, when signing the receipt succeeds |
| Protocol.ServerAcceptedKeysPass | frontend/src/utils/cryptoClient.js:89-94 | every key the server's check accepts passes the browser's check |
| Protocol.BrowserCheckIsWeaker | frontend/src/utils/cryptoClient.js:93 | a key with only the `BEGIN PUBLIC KEY` header passes the browser's check but never the server's |

## Left out

- The cipher implementations are left out: AES-CBC, AES-GCM, RSA and
  SHA-256-with-RSA are uninterpreted `Suite` functions. Their correctness
  enters only as the `CbcSound`, `GcmSound`, `RsaSound` and `SignSound`
  hypotheses.
- `hashPassword`, `verifyPassword` and `generateKeyPair` (bcrypt and key-pair
  generation) are not used by the protocol.
- Base64 decoding is strict. Node's `Buffer.from(s, 'base64')` is lenient: it
  skips invalid characters and accepts missing padding. Non-canonical input is
  therefore "not decodable" in the model. It counts as production mode, and
  its decryption fails with the `MalformedBase64` placeholder message.
- VerifySignature: a signature that is not canonical base64 gives `false`.
  Node decodes it leniently and passes the bytes to the verifier, which may
  accept them. Signatures produced by `SignData` are canonical, so the
  receipts the controller stores are unaffected.
- UTF-8 decoding replaces each offending byte by U+FFFD. Node uses
  maximal-subpart replacement, so on malformed input the number of U+FFFD
  characters can differ. The delimiter test is unaffected.
- JSON numbers are not modelled: a payload or column containing one gives
  the `MalformedJson` placeholder. The browser form holds no numbers.
- Stringify: members are written in their sequence order. `JSON.stringify`
  writes an object's integer-like keys (`"0"`, `"17"`) first, in ascending
  order, and then the other keys in insertion order. The keys of the report
  form, of the stored columns and of the receipt are not integer-like, so
  their texts agree; an object nested in `attachments` with integer-like keys
  would be written in a different order by the browser.
- Unit: an escaped lone surrogate (`\uD800` without its low half) is rejected,
  whereas `JSON.parse` accepts it into a UTF-16 string; a Dafny string holds
  only Unicode scalar values. Surrogate pairs are decoded.
- Engine error texts are placeholders: `MalformedJson` for a `SyntaxError`
  from `JSON.parse`, `NullPayload` for the `TypeError` of reading a member of
  `null`, and `NotAString` for the `TypeError` of calling `substring` on a
  non-string.
- ReportOf: a truthy `reportText` that is not a string is rejected at
  unpacking. The code only calls `length` on it there
  (reportController.js:149) and fails later, when storage encryption is given
  a non-string (reportController.js:33-36). Either way the answer is a 500
  with no row stored; only the message differs.
- DecryptColumn and TagOf: a column whose data or IV member is not a string,
  or whose tag member is truthy and not a string, is rejected. `Buffer.from`
  would accept an array of byte values or a `{"type": "Buffer", "data": [...]}`
  object as the IV or the tag (the data member goes to `decipher.update`,
  which refuses both). Columns written by the controller always hold
  strings.
- DecryptSymmetric: the refusal of odd-length ciphertext hex carries the
  `OddHexLength` placeholder after the prefix. Node raises it from
  `decipher.update`, after creating the decipher, so when the key, IV or tag
  is also rejected Node reports that error instead; both carry the prefix.
- `Text.Take` counts Unicode scalar values, whereas JavaScript's `substring`
  counts UTF-16 code units. The receipt summary differs only for text outside
  the Basic Multilingual Plane.
- Environment variables are assumed set. An unset `SERVER_PRIVATE_KEY` makes
  `.replace` throw a `TypeError`.
- An `encryptedPackage` that is a non-object truthy value is not modelled.
  The envelope is a record whose members may be absent.
- DecryptHybridPackage: the envelope's `encryptedKey`, `encryptedData` and
  `iv` members are modelled as strings. The request body is parsed JSON, so a
  member can be any value, and a truthy non-string member is not modelled.
  `Buffer.from` ignores the encoding for an array of byte values, so such an
  array is accepted as the `iv` (cryptoUtils.js:44) and as the
  `encryptedKey` (reportController.js:163 and :174), and the source can
  unpack such an envelope. A truthy number or boolean `encryptedKey` makes
  `isDevelopmentMode` return false, and `decryptAsymmetric` then fails in
  `Buffer.from` (cryptoUtils.js:101).
- Database, HTTP and authentication are replaced by parameters and results.
  The first user row stands for `users[0]`, insertion ids are naturals, and
  the roles gate of `routes/reports.js` is not modelled.
- That gate means the `'user'` branch of `getReports` is unreachable in the
  deployed routes (backend/routes/reports.js:14). It is modelled anyway.
- The listing query's failure (its 500 answer) and `ORDER BY` are not
  modelled. The rows arrive in query order.
- `Promise.all` over the rows is modelled as a sequential map, since the
  per-row tasks are independent.
- UpdateReportStatus assumes `affectedRows` counts matched rows: an existing
  report updated to its current status answers success. This holds because
  the `mysql2` driver used by backend/config/database.js sets the
  `CLIENT_FOUND_ROWS` connection flag by default; a server answering with
  changed rows only would give 404 there.
- `getReportStatus` is a plain database lookup with no cryptography, and is
  not part of this model.
- Console logging is left out. The `symmetricKey.substring` call in the log
  line (reportController.js:126) cannot fail on a string.
- `MissingMember` is a placeholder message. It stands for the `TypeError`
  raised when a stored column lacks its `encryptedData` or `iv` member.
