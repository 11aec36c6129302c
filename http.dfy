/**
 * HTTP replies of the route handlers (status code and JSON body), and the
 * request checks the creation handlers share.
 */
module Http {
  import opened Wrappers
  import opened Blobs
  import Store

  datatype Body =
    | ErrorBody(error: string)
    | NoContent
    | CreatedText(id: string, expiresIn: nat)
    | CreatedFile(id: string, expiresIn: nat, size: nat)
    | TextPayload(
        encryptedData: string, iv: string, hasPassword: bool,
        passwordSalt: Option<string>, passwordIv: Option<string>)
      /** `encryptedData` is sent as the base64 text of `data`. */
    | FilePayload(
        data: seq<byte>, iv: string, originalName: string, mimeType: string, hasPassword: bool,
        passwordSalt: Option<string>, passwordIv: Option<string>)
    | NotExists
    | TextProbe(
        typeName: string, expiresAt: int, hasPassword: bool,
        passwordHash: Option<string>, passwordSalt: Option<string>, passwordIv: Option<string>)
      /** `originalName`, `mimeType` and `size`; a text record has none of them (`undefined`). */
    | FileProbe(
        typeName: string, fileName: Option<string>, fileType: Option<string>, fileSize: Option<nat>,
        expiresAt: int, hasPassword: bool,
        passwordHash: Option<string>, passwordSalt: Option<string>, passwordIv: Option<string>)

  datatype Reply = Reply(status: int, body: Body)

  predicate IsBase64Char(c: char)
  {
    ('A' <= c <= 'Z') || ('a' <= c <= 'z') || ('0' <= c <= '9') || c == '+' || c == '/' || c == '='
  }

  /** The test `/^[A-Za-z0-9+/=]+$/.test(s)`. */
  predicate IsBase64Text(s: string)
  {
    |s| > 0 && forall i :: 0 <= i < |s| ==> IsBase64Char(s[i])
  }

  /** The handlers' `validExpiry.includes(expiresIn) ? expiresIn : '10m'`. */
  function NormaliseExpiry(expiresIn: Option<string>): (option: string)
    ensures option in Store.ExpiryChoices
    ensures expiresIn.Some? && expiresIn.value in Store.ExpiryChoices ==> option == expiresIn.value
  {
    if expiresIn.Some? && expiresIn.value in Store.ExpiryChoices then expiresIn.value else "10m"
  }

  /**
   * Normalising first does not change the duration the store derives from
   * the option: an unknown option and "10m" both mean ten minutes.
   */
  lemma NormaliseKeepsDuration(expiresIn: string)
    ensures Store.ExpiryMs(NormaliseExpiry(Some(expiresIn))) == Store.ExpiryMs(expiresIn)
  {
  }

  /** The reply's `expiresIn`: the duration in whole seconds. */
  function ExpirySeconds(option: string): (seconds: nat)
    ensures seconds * 1000 == Store.ExpiryMs(option)
  {
    Store.ExpiryMs(option) / 1000
  }
}
