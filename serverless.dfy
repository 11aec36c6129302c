/**
 * The serverless copy of the creation path (`api/text/index.js` and
 * `api/file/index.js`): each function keeps its records, ciphertext
 * included, in a process-global map and only handles OPTIONS and POST.
 */
module Serverless {
  import opened Wrappers
  import opened Journal
  import Store
  import opened Http
  import TextRoutes

  /**
   * `getExpiryTime` of the serverless functions (`EXPIRY_OPTIONS[option] ||
   * EXPIRY_OPTIONS['10m']`), written out on its own table.
   */
  function ExpiryMs(option: string): (ms: nat)
    ensures option !in Store.ExpiryChoices ==> ms == 10 * 60 * 1000
    ensures 5 * 60 * 1000 <= ms <= 24 * 60 * 60 * 1000
  {
    if option == "5m" then 5 * 60 * 1000
    else if option == "10m" then 10 * 60 * 1000
    else if option == "30m" then 30 * 60 * 1000
    else if option == "1h" then 60 * 60 * 1000
    else if option == "24h" then 24 * 60 * 60 * 1000
    else 10 * 60 * 1000
  }

  /** The serverless table and the Express server's table agree on every option. */
  lemma ExpiryAgreesWithServer(option: string)
    ensures ExpiryMs(option) == Store.ExpiryMs(option)
    ensures ExpiryMs(option) == ExpiryMs("10m") <==> option !in Store.ExpiryChoices || option == "10m"
  {
  }

  const MethodNotAllowed := "Method not allowed"
  const MissingFields := "Missing required fields: encryptedData and iv"
  const InvalidFormat := "Invalid data format. Expected base64 encoded strings."

  datatype StoredText = StoredText(
    encryptedData: string, iv: string, hasPassword: bool,
    passwordHash: Option<string>, passwordSalt: Option<string>, passwordIv: Option<string>,
    createdAt: int, expiresAt: int, accessed: bool)

  datatype StoredFile = StoredFile(
    encryptedData: string, iv: string, originalName: string, mimeType: string, size: nat,
    hasPassword: bool, passwordHash: Option<string>, passwordSalt: Option<string>, passwordIv: Option<string>,
    createdAt: int, expiresAt: int, accessed: bool)

  /** `global.textSecrets` */
  class TextSecrets {
    var secrets: map<Id, StoredText>
    constructor ()
      ensures secrets == map[]
    {
      secrets := map[];
    }
  }

  /** `global.fileSecrets` */
  class FileSecrets {
    var secrets: map<Id, StoredFile>
    constructor ()
      ensures secrets == map[]
    {
      secrets := map[];
    }
  }

  /** The record `POST /api/text` stores for an accepted body. */
  function TextRecord(body: TextRoutes.TextBody, now: int): (s: StoredText)
    requires TextRoutes.Accepted(body)
    ensures s.encryptedData == body.encryptedData.value && s.iv == body.iv.value
    ensures !s.accessed && s.createdAt == now
    ensures s.expiresAt == now + ExpiryMs(NormaliseExpiry(body.expiresIn))
    ensures s.hasPassword <==> Truthy(body.passwordHash)
    ensures s.passwordHash.Some? <==> s.hasPassword
    ensures s.passwordSalt.None? <==> !Truthy(body.passwordSalt)
    ensures s.passwordIv.None? <==> !Truthy(body.passwordIv)
  {
    StoredText(body.encryptedData.value, body.iv.value, Truthy(body.passwordHash),
               OrNull(body.passwordHash), OrNull(body.passwordSalt), OrNull(body.passwordIv),
               now, now + ExpiryMs(NormaliseExpiry(body.expiresIn)), false)
  }

  /**
   * `api/text/index.js`: OPTIONS answers 200 and any method other than
   * OPTIONS and POST answers 405, both without touching the map. POST
   * applies the same checks as the Express handler and stores the
   * ciphertext with its metadata under the new id.
   */
  method HandleText(global: TextSecrets, httpMethod: string, id: Id, body: TextRoutes.TextBody, now: int)
    returns (r: Reply)
    modifies global
    ensures httpMethod == "OPTIONS" ==> r == Reply(200, NoContent) && unchanged(global)
    ensures httpMethod != "OPTIONS" && httpMethod != "POST" ==>
      r == Reply(405, ErrorBody(MethodNotAllowed)) && unchanged(global)
    ensures httpMethod == "POST" && (!Truthy(body.encryptedData) || !Truthy(body.iv)) ==>
      r == Reply(400, ErrorBody(MissingFields)) && unchanged(global)
    ensures httpMethod == "POST" && Truthy(body.encryptedData) && Truthy(body.iv) && !TextRoutes.Accepted(body) ==>
      r == Reply(400, ErrorBody(InvalidFormat)) && unchanged(global)
    ensures httpMethod == "POST" && TextRoutes.Accepted(body) ==>
      && r == Reply(201, CreatedText(id, ExpiryMs(NormaliseExpiry(body.expiresIn)) / 1000))
      && global.secrets == old(global.secrets)[id := TextRecord(body, now)]
  {
    if httpMethod == "OPTIONS" {
      return Reply(200, NoContent);
    }
    if httpMethod == "POST" {
      if !Truthy(body.encryptedData) || !Truthy(body.iv) {
        return Reply(400, ErrorBody(MissingFields));
      }
      if !IsBase64Text(body.encryptedData.value) || !IsBase64Text(body.iv.value) {
        return Reply(400, ErrorBody(InvalidFormat));
      }
      var expiryOption := NormaliseExpiry(body.expiresIn);
      global.secrets := global.secrets[id := TextRecord(body, now)];
      return Reply(201, CreatedText(id, ExpiryMs(expiryOption) / 1000));
    }
    r := Reply(405, ErrorBody(MethodNotAllowed));
  }

  /** The JSON body of `POST /api/file`; the ciphertext arrives as a string. */
  datatype FileBody = FileBody(
    encryptedData: Option<string>,
    iv: Option<string>,
    originalName: Option<string>,
    mimeType: Option<string>,
    expiresIn: Option<string>,
    passwordHash: Option<string>,
    passwordSalt: Option<string>,
    passwordIv: Option<string>)

  /** The record `POST /api/file` stores; no base64 check is made on this path. */
  function FileRecord(body: FileBody, now: int): (s: StoredFile)
    requires Truthy(body.encryptedData) && Truthy(body.iv)
    ensures s.encryptedData == body.encryptedData.value && s.iv == body.iv.value
    ensures s.size == |body.encryptedData.value|
    ensures s.originalName == OrDefault(body.originalName, "unknown")
    ensures s.mimeType == OrDefault(body.mimeType, "application/octet-stream")
    ensures !s.accessed && s.createdAt == now
    ensures s.expiresAt == now + ExpiryMs(NormaliseExpiry(body.expiresIn))
    ensures s.hasPassword <==> Truthy(body.passwordHash)
  {
    StoredFile(body.encryptedData.value, body.iv.value,
               OrDefault(body.originalName, "unknown"), OrDefault(body.mimeType, "application/octet-stream"),
               |body.encryptedData.value|, Truthy(body.passwordHash),
               OrNull(body.passwordHash), OrNull(body.passwordSalt), OrNull(body.passwordIv),
               now, now + ExpiryMs(NormaliseExpiry(body.expiresIn)), false)
  }

  /**
   * `api/file/index.js`: OPTIONS answers 200, other methods but POST 405.
   * POST rejects a missing or empty `encryptedData` or `iv` with 400 and
   * otherwise stores the record and replies with the id, the duration in
   * seconds and the ciphertext's length.
   */
  method HandleFile(global: FileSecrets, httpMethod: string, id: Id, body: FileBody, now: int)
    returns (r: Reply)
    modifies global
    ensures httpMethod == "OPTIONS" ==> r == Reply(200, NoContent) && unchanged(global)
    ensures httpMethod != "OPTIONS" && httpMethod != "POST" ==>
      r == Reply(405, ErrorBody(MethodNotAllowed)) && unchanged(global)
    ensures httpMethod == "POST" && (!Truthy(body.encryptedData) || !Truthy(body.iv)) ==>
      r == Reply(400, ErrorBody(MissingFields)) && unchanged(global)
    ensures httpMethod == "POST" && Truthy(body.encryptedData) && Truthy(body.iv) ==>
      && r == Reply(201, CreatedFile(id, ExpiryMs(NormaliseExpiry(body.expiresIn)) / 1000, |body.encryptedData.value|))
      && global.secrets == old(global.secrets)[id := FileRecord(body, now)]
      && global.secrets[id].size == |body.encryptedData.value|
  {
    if httpMethod == "OPTIONS" {
      return Reply(200, NoContent);
    }
    if httpMethod == "POST" {
      if !Truthy(body.encryptedData) || !Truthy(body.iv) {
        return Reply(400, ErrorBody(MissingFields));
      }
      var expiryOption := NormaliseExpiry(body.expiresIn);
      global.secrets := global.secrets[id := FileRecord(body, now)];
      return Reply(201, CreatedFile(id, ExpiryMs(expiryOption) / 1000, |body.encryptedData.value|));
    }
    r := Reply(405, ErrorBody(MethodNotAllowed));
  }
}
