# FlashVault one-time secrets in Dafny

FlashVault shares a secret (a text or a file) through a link that works
once. The browser encrypts the secret and puts the key in the link's
fragment, which never reaches the server. The server holds only ciphertext:

- an in-memory registry of metadata records (`server/store.js`);
- one ciphertext file per secret under `server/temp/<id>.enc`;
- a sweeper that removes expired or accessed secrets (`server/cleanup.js`).

A GET of a secret returns it and destroys it in the same handler.

This project models that lifecycle and proves its properties:

- **Registry and directory.** These are two classes, `Store.SecretStore`
  (a `map` from id to record) and `Blobs.TempDir` (a `map` from id to
  bytes). They share one ghost `Journal.Log` of side effects. Contracts use
  the log to state ordering: the file is written before the metadata is
  registered, and unlinked before the metadata is deleted.
- **Route handlers.** The Express handlers (`TextRoutes`, `FileRoutes`) are
  methods that follow the source's chain of early returns, one `ensures`
  per outcome. Each handler and the sweeper are proved to preserve two
  invariants: every record has its file (`Cleanup.Paired`), and no record
  is flagged accessed (`Cleanup.NoneAccessed`). The converse of `Paired`
  is not claimed: the directory is on disk and outlives the in-memory
  registry, so a file can lack a record after a restart.
- **Serverless copy.** The create path of `api/text` and `api/file`
  (`Serverless`) runs over its own global maps.
- **Client helpers.** These are the base64url conversion and its
  byte/binary-string loops (`CryptoText`), the file-size check and
  MIME-type icon chain (`CryptoFile`), and the expiry label (`ShareLink`).
- **Reveal page.** The page that opens a link (`ViewSecret`) is a class whose
  status moves through loading, confirm, password, decrypting, success and
  error. A ghost effect trace shows that the consuming fetch happens only
  after the password check passed.
- **Lifecycle scenarios.** `Lifecycle` runs whole scenarios on fresh
  state: a secret is delivered once, byte for byte, and a second read
  finds nothing.

### Modelling decisions

- **Time and ids.** The current time (`Date.now()`) and the new id
  (`uuidv4()`) are parameters. `setSecret` reads the clock twice; the model
  uses one instant for both readings.
- **No lazy expiry on read.** No read path checks `expiresAt`: an expired
  secret is still delivered until the sweeper removes it
  (`Lifecycle.SweepThenRead` shows both sides). The home page's promise
  that secrets "automatically expire after 10 minutes, even if never
  accessed" (`client/src/pages/Home.jsx:32`) is kept only up to the
  sweeper's interval.
- **`markAccessed` is never called by a route.** The 410 "already
  accessed" branch is therefore unreachable from routes alone.
  `NoneAccessed` is proved to be preserved by every handler and by the
  sweeper.
- **HTTP replies.** A reply is a status plus a `Body` datatype with one
  variant per JSON shape the handlers send.
- **JavaScript truthiness.** It is modelled explicitly: `Wrappers.Truthy`,
  `x || null` as `OrNull`, and `x || default` as `OrDefault`.
- **Upload limit.** The multer 20 MB limit and the 413 reply of
  `server/index.js:81-92` are modelled as the first step of the file upload
  handler.
- **Probe failure skips the password gate.** If the existence probe throws,
  the reveal page never learns that a password is set. The first reveal then
  goes straight to the consuming fetch (`ViewSecret.FailedProbeSkipsPassword`).
  Whether this is intended is not clear from the code. The model keeps the
  behaviour as written.

## Model

| member | source | states |
|---|---|---|
| Store.ExpiryMs | server/store.js:9-27 | any option outside the five choices gets the 10-minute default; the result is the default exactly when the option is unknown or "10m"; every duration lies between 5 minutes and 24 hours and is a whole number of minutes |
| Store.ExpiryTable | server/store.js:12-18 | "5m", "10m", "30m", "1h", "24h" last 300000, 600000, 1800000, 3600000 and 86400000 ms |
| Store.FreshRecordLifetime | server/store.js:91 | a freshly stamped record is selected by the expiry scan exactly when `now` is strictly past `createdAt + TTL`; at the expiry instant itself it is kept |
| Store.SecretStore.SetSecret | server/store.js:35-44 | the entry for the id becomes the caller's fields with `accessed = false` and `expiresAt = now + TTL`, replacing any earlier entry; all other entries are unchanged; one record-set event |
| Store.SecretStore.GetSecret | server/store.js:51-53 | returns the stored record exactly when the id is present, whatever its `expiresAt`, and changes nothing |
| Store.SecretStore.MarkAccessed | server/store.js:59-64 | sets `accessed` on an existing record and changes no other record or field; on an unknown id nothing changes |
| Store.SecretStore.DeleteSecret | server/store.js:70-72 | removes exactly that id and keeps every other entry; deleting an absent id leaves the map as it was |
| Store.SecretStore.GetExpiredSecrets | server/store.js:86-97 | returns each id once, and an id is returned exactly when its record has `expiresAt < now` or is accessed; the registry is unchanged |
| Store.SecretStore.TotalSecrets | server/store.js:103-106 | the count equals the number of registered ids |
| Blobs.TempDir.Exists | server/routes/text.routes.js:111 | true exactly when the directory holds a file for the id |
| Blobs.TempDir.Write | server/routes/text.routes.js:52 | the file for the id becomes the given bytes, other files unchanged; one file-written event |
| Blobs.TempDir.Read | server/routes/text.routes.js:118 | returns the stored bytes of the id and changes nothing |
| Blobs.TempDir.Unlink | server/cleanup.js:22 | removes exactly the file of the id; one file-unlinked event |
| Blobs.AsciiBytes | server/routes/text.routes.js:52 | writing base64 text in 'utf8' stores one byte per character |
| Blobs.Utf8Text | server/routes/text.routes.js:118 | reading in 'utf8' yields one character per byte |
| Blobs.AsciiRoundTrip | server/routes/text.routes.js:52-118 | text written with 'utf8' and read back with 'utf8' is unchanged when it is ASCII |
| Cleanup.DeleteEncryptedFile | server/cleanup.js:17-28 | removes the file when it exists; a missing file is not an error and changes nothing |
| Cleanup.DeleteSecretNow | server/cleanup.js:74-78 | removes both the file and the record of the id, the file first; a second call changes neither map |
| Cleanup.RunCleanup | server/cleanup.js:34-50 | removes exactly the records and files of the ids that were expired or accessed at the start, keeps every other record and file, and for each swept id deletes its file before its record; both invariants are preserved |
| Cleanup.SweepDeletesEach | server/cleanup.js:40-46 | every id handed to the sweep has its record deleted |
| Cleanup.SweepUnlinksFirst | server/cleanup.js:40-46 | in a sweep, each record deletion of an id that had a file comes immediately after that file's deletion |
| Cleanup.StartCleanupScheduler | server/cleanup.js:55-68 | the immediate first run sweeps exactly the expired or accessed secrets, records and files alike, file before record, preserving both invariants |
| Http.NormaliseExpiry | server/routes/text.routes.js:44-45 | the option is always one of the five choices, and a valid choice is kept as given |
| Http.NormaliseKeepsDuration | server/routes/text.routes.js:44-45 | normalising never changes the duration the registry assigns, since unknown options already get the 10-minute default |
| Http.ExpirySeconds | server/routes/text.routes.js:68 | the reply's `expiresIn` times 1000 is the registry's TTL in ms |
| Wrappers.OrNull | server/routes/text.routes.js:59-61 | `x \|\| null` is present exactly when `x` is a non-empty string, and then equals it |
| Wrappers.OrDefault | server/routes/file.routes.js:66-67 | `x \|\| d` is `x` when it is a non-empty string, otherwise `d` |
| TextRoutes.TextFields | server/routes/text.routes.js:55-62 | the stored metadata is of type text with the given iv; `hasPassword` holds exactly when `passwordHash` is truthy, and only then is a hash stored |
| TextRoutes.Create | server/routes/text.routes.js:25-75 | missing or empty fields give 400, and a character outside `[A-Za-z0-9+/=]` gives the other 400, both leaving all state unchanged; otherwise the file is written before the record is set, and the reply is 201 with the TTL in seconds; both invariants are preserved |
| TextRoutes.Retrieve | server/routes/text.routes.js:81-138 | 404 with no change on an unknown id; 410 with file and record deleted on an accessed record; 400 with no change on a file record; 404 with the record deleted when the file is missing; otherwise 200 with the stored ciphertext and iv, file and record deleted in that order; no check of `expiresAt`; both invariants are preserved |
| TextRoutes.Exists | server/routes/text.routes.js:145-163 | reads only; reports absence exactly for an unknown or accessed id, otherwise the type, `expiresAt` and the password triple |
| FileRoutes.FileFields | server/routes/file.routes.js:63-73 | the stored metadata carries the iv, the name defaulting to "unknown", the MIME type defaulting to "application/octet-stream" and the uploaded byte count |
| FileRoutes.Create | server/routes/file.routes.js:22-87 | an upload over 20 MB gives 413, no file gives 400 and a missing iv gives 400, each leaving all state unchanged; otherwise the file is written before the record is set, and the reply is 201 with the TTL in seconds and the byte count |
| FileRoutes.Retrieve | server/routes/file.routes.js:93-153 | the same decision chain as for text with the type test reversed; on success the stored bytes with iv, name and MIME type, file and record deleted |
| FileRoutes.Exists | server/routes/file.routes.js:159-180 | reads only; reports absence exactly for an unknown or accessed id, otherwise name, type, size, expiry and the password triple |
| Serverless.ExpiryMs | api/text/index.js:20-22 | an option outside the five choices gets the '10m' duration; every duration lies between 5 minutes and 24 hours |
| Serverless.ExpiryAgreesWithServer | api/text/index.js:20-22 | the serverless TTL table agrees with the server's for every option, and falls back to the '10m' value exactly for unknown options |
| Serverless.TextRecord | api/text/index.js:65-76 | the stored record keeps the posted ciphertext and iv, is not accessed, expires at `now + TTL`, has a password exactly when `passwordHash` is truthy, and stores absent password fields as null |
| Serverless.HandleText | api/text/index.js:29-92 | OPTIONS gives 200 and other non-POST methods give 405, both leaving the map unchanged; missing fields or non-base64 text give 400 with nothing stored; otherwise exactly one record is added and the reply is 201 with the TTL in seconds |
| Serverless.FileRecord | api/file/index.js:63-77 | the stored size is the length of the posted data; the name and type defaults apply; the record is not accessed and expires at `now + TTL` |
| Serverless.HandleFile | api/file/index.js:35-94 | OPTIONS gives 200 and other non-POST methods give 405; missing fields give 400 with nothing stored; there is no base64 check; otherwise one record is added and the reply carries the TTL in seconds and the data length |
| CryptoText.ToUrlSafeBase64 | client/src/utils/cryptoText.js:134-136 | the result contains no '+', '/' or '=' and is no longer than the input |
| CryptoText.ToUrlSafeAlphabet | client/src/utils/cryptoText.js:135 | '+' becomes '-', '/' becomes '_', every other character is kept, position by position |
| CryptoText.FromUrlSafeAlphabet | client/src/utils/cryptoText.js:144 | '-' becomes '+', '_' becomes '/', every other character is kept, position by position |
| CryptoText.PadCount | client/src/utils/cryptoText.js:146-148 | at most three pad characters are added, and they bring the length to a multiple of 4 |
| CryptoText.FromUrlSafeBase64 | client/src/utils/cryptoText.js:143-150 | the loop yields the alphabet-mapped input followed only by '=' characters, with a length that is a multiple of 4 and less than 4 longer than the input |
| CryptoText.UrlSafeRoundTrip | client/src/utils/cryptoText.js:134-150 | for padded standard base64, converting to base64url and back restores the original string |
| CryptoText.AlphabetRoundTrip | client/src/utils/cryptoText.js:135-144 | mapping a string without '-' or '_' into the URL-safe alphabet and back is the identity |
| CryptoText.BytesToBinary | client/src/utils/cryptoText.js:106-113 | the binary string has one character per byte, with character code i equal to byte i |
| CryptoText.BinaryToBytes | client/src/utils/cryptoText.js:120-127 | a fresh byte array of the string's length, with byte i equal to character code i modulo 256 |
| CryptoText.RawKeyRoundTrip | client/src/utils/cryptoText.js:106-127 | with `atob` undoing `btoa`, bytes sent through the encoding loop and back through the decoding loop are unchanged |
| CryptoFile.ValidateFileSize | client/src/utils/cryptoFile.js:131-142 | valid exactly when the size is at most `maxSizeMB * 1024 * 1024`, so a file at the limit passes; a valid result has an empty message and an invalid one a non-empty message |
| CryptoFile.DefaultLimitMatchesServer | client/src/utils/cryptoFile.js:131-132 | the default 20 MB limit is 20971520 bytes and accepts exactly what the server's upload limit accepts |
| CryptoFile.GetFileIcon | client/src/utils/cryptoFile.js:113-123 | the default icon is chosen exactly when the MIME type matches none of the tests; a type given the text icon names neither a document nor a spreadsheet, as those tests come first |
| CryptoFile.MediaPrefixWins | client/src/utils/cryptoFile.js:113-116 | the 'image/', 'video/' and 'audio/' prefixes decide before any substring test, in that order |
| CryptoFile.DocumentBeforeSpreadsheet | client/src/utils/cryptoFile.js:119-120 | a type containing both 'document' and 'spreadsheet', and matching no earlier test, gets the document icon |
| ShareLink.FormatExpiry | client/src/components/ShareLink.jsx:18-24 | under a minute "n seconds"; below an hour the count of whole minutes; from an hour on the count of whole hours, `seconds / 3600`, which equals rounding down to minutes and then to hours |
| ShareLink.FormatExpiryRoundsDown | client/src/components/ShareLink.jsx:18-24 | under a minute the label is "n seconds", never singular; below an hour it counts whole minutes, singular exactly for 1; beyond, whole hours, singular exactly for 1 |
| ShareLink.ServerDurations | client/src/components/ShareLink.jsx:18-24 | the server's five durations read "5 minutes", "10 minutes", "30 minutes", "1 hour" and "24 hours" |
| ShareLink.ReplyDurationLabel | client/src/components/ShareLink.jsx:18-24 | whatever `expiresIn` a client posts, the label of the server's reply is one of those five |
| ShareLink.HoursAreUnbounded | client/src/components/ShareLink.jsx:22-23 | there is no unit above hours: two days read "48 hours" |
| ViewSecret.ParseHash | client/src/pages/ViewSecret.jsx:27-34 | the type is never empty, since a missing or empty `type` becomes "text"; a fragment with nothing after '#' has no key and type "text" |
| ViewSecret.QuestionMarkIgnored | client/src/pages/ViewSecret.jsx:29 | a '?' right after the '#' is dropped, as `URLSearchParams` drops a leading '?' |
| ViewSecret.ParseShareFragment | client/src/pages/ViewSecret.jsx:27-34 | the fragment `#key=<key>&type=text` or `&type=file` that the create pages build parses back to the same key and type |
| ViewSecret.TypeDefaultsToText | client/src/pages/ViewSecret.jsx:32 | a fragment with a key and no type is read as a text secret |
| ViewSecret.KeyThroughShareLink | client/src/pages/ViewSecret.jsx:101 | an exported key in padded base64 survives the URL-safe conversion, the link fragment, parsing and the conversion back, unchanged |
| ViewSecret.RevealPage.CheckSecret | client/src/pages/ViewSecret.jsx:36-75 | without a key: 'error' and no probe; a probe answering "absent" gives 'error'; a thrown probe or a present secret gives 'confirm'; password data is kept only when the probe reports a password |
| ViewSecret.RevealPage.HandleReveal | client/src/pages/ViewSecret.jsx:77-129 | from 'confirm' with a password it only moves to 'password'; a failed password check sets the error, keeps the status and fetches nothing; otherwise 'decrypting', then the consuming fetch, then 'success' or 'error'; a fetch happens only once the password check, if any, has passed |
| ViewSecret.RevealPage.Decrypt | client/src/pages/ViewSecret.jsx:97-128 | the fetch comes after 'decrypting' and only once the key converted and imported; text type selects the text endpoint and any other type the file endpoint; the error message falls back to "Failed to decrypt secret" |
| ViewSecret.WrongPasswordFetchesNothing | client/src/pages/ViewSecret.jsx:79-94 | for a password-protected secret, reveal and then a wrong password leave the page at 'password' with "Incorrect password"; the page's effects include the failed check and no fetch |
| ViewSecret.FailedProbeSkipsPassword | client/src/pages/ViewSecret.jsx:70-72 | when the probe throws, the first reveal fetches and succeeds with no password check |
| Lifecycle.TextReadOnce | server/routes/text.routes.js:25-138 | a posted text secret is returned once with its exact ciphertext and iv; a second GET answers 404 |
| Lifecycle.FileReadOnce | server/routes/file.routes.js:35-153 | an uploaded file secret is returned once with its exact bytes, iv and name; a second GET answers 404 |
| Lifecycle.SweepThenRead | server/cleanup.js:34-50 | a sweep after the expiry instant makes the secret unreadable (404); a sweep at or before it leaves the secret readable |

## Left out

- Store.SecretStore.GetExpiredSecrets: the ids come back in an unspecified order, not the Map's insertion order; the sweep's result does not depend on that order.
- Store.ExpiryMs: a lookup of an inherited property name such as "constructor" or "toString" in `EXPIRY_OPTIONS` yields a function, not a number. It is modelled as the default. The handlers normalise the option first, so it never happens through a route.
- Blobs.Utf8Text: a non-ASCII byte reads as one U+FFFD character, not as a full UTF-8 decode. The text POST only writes base64 characters, which are ASCII.
- FileRoutes.Retrieve: the reply carries the stored bytes, not their `Buffer.toString('base64')` text; the base64 encoder is a library call.
- CryptoText.RawKeyRoundTrip: `btoa` and `atob` are taken to be inverse (section 4 of RFC 4648), so the two loops are composed directly.
- ViewSecret.ParseHash: `URLSearchParams` percent-decoding is not modelled; '+' as a space, '&' splitting, the first '=' and dropping a leading '?' are.
- ViewSecret.RevealPage.HandleReveal: `verifyPassword`, `importKey`, the fetch and the decryption are oracles whose outcomes are parameters. The decrypted text and the file blob are not kept.
- Web Crypto (AES-GCM encryption and decryption, PBKDF2 password hashing, key generation and export) is a foreign call and is not modelled.
- Blobs.TempDir.constructor: the directory starts empty, as on a first start. On disk `server/temp` outlives a restart while the registry does not, and the sweeper visits registry ids only, so files left by an earlier process are never removed; `Cleanup.Paired` therefore claims only that every record has its file.
- Filesystem failures are left out: the `try`/`catch` 500 replies of the handlers, errors swallowed by `deleteEncryptedFile`, and creating the temp directory. The directory is a map that does not fail.
- `setInterval` re-running the sweep every minute is not modelled; only the immediate first run is.
- Concurrency is not modelled: the handlers run to completion on Node's single thread, so each handler is one atomic step.
- Express, multer and serverless framing are not modelled: CORS headers, helmet, rate limiting, the JSON body-size limits and the `sizeLimit: '20mb'` of the serverless file route.
- `getStats().memoryUsage` and `formatFileSize` rely on the process heap and floating point; only `totalSecrets` is modelled.
- Request fields are strings or absent. A JSON field of another type, such as a number or an array, is not modelled.
- String lengths are counted in characters, not UTF-16 code units. `encryptedData.length` in `api/file/index.js` is the same for base64 text.
- CryptoFile.GetFileIcon: the icons are named by the test that selects them, not by their emoji. In the available text of `cryptoFile.js` the emoji are mis-decoded bytes, and the document icon (line 119) and the default icon (line 122) read the same; the model keeps the nine results distinct.
- The other modules of the application are not part of this model: the serverless GET and access routes, `api/health.js`, the fetch wrappers, the create pages and the presentation components.
