/**
 * The pure helpers of `client/src/utils/cryptoFile.js` that the viewer and
 * the upload form use: the size check and the icon choice by MIME type.
 */
module CryptoFile {
  import opened Strings
  import FileRoutes

  datatype Validation = Validation(valid: bool, message: string)

  /** The default of the `maxSizeMB` parameter. */
  const DefaultMaxSizeMB: nat := 20

  /**
   * `validateFileSize`: a file is accepted when its size is at most the
   * limit in bytes (so a file exactly at the limit is accepted); a refusal
   * carries a message naming the limit, an acceptance an empty message.
   */
  function ValidateFileSize(size: nat, maxSizeMB: nat): (v: Validation)
    ensures v.valid <==> size <= maxSizeMB * 1024 * 1024
    ensures v.valid ==> v.message == ""
    ensures !v.valid ==> v.message != ""
  {
    var maxBytes := maxSizeMB * 1024 * 1024;
    if size > maxBytes then
      Validation(false, "File too large. Maximum size is " + NatToString(maxSizeMB) + " MB.")
    else
      Validation(true, "")
  }

  /** With the default limit the client accepts exactly what the server's upload limit accepts. */
  lemma DefaultLimitMatchesServer(size: nat)
    ensures ValidateFileSize(size, DefaultMaxSizeMB).valid <==> size <= FileRoutes.MaxUploadBytes
    ensures FileRoutes.MaxUploadBytes == 20971520
  {
  }

  /**
   * The emoji `getFileIcon` returns, named by the test that selects each.
   * The available text of `cryptoFile.js` holds the emoji as mis-decoded
   * bytes, and the document and default emoji read the same there; the
   * model keeps the nine results apart as the nine return statements do.
   */
  datatype Icon =
    | ImageIcon
    | VideoIcon
    | AudioIcon
    | PdfIcon
    | ArchiveIcon
    | DocumentIcon
    | SpreadsheetIcon
    | TextIcon
    | DefaultIcon

  /**
   * `getFileIcon`: the first test that matches decides, so the default icon
   * goes exactly to MIME types no test matches.
   */
  function GetFileIcon(mimeType: string): (icon: Icon)
    ensures icon == DefaultIcon <==> !Recognised(mimeType)
    ensures Contains(mimeType, "text") && icon == TextIcon ==>
      !Contains(mimeType, "document") && !Contains(mimeType, "spreadsheet")
  {
    if StartsWith(mimeType, "image/") then ImageIcon
    else if StartsWith(mimeType, "video/") then VideoIcon
    else if StartsWith(mimeType, "audio/") then AudioIcon
    else if Contains(mimeType, "pdf") then PdfIcon
    else if Contains(mimeType, "zip") || Contains(mimeType, "rar") || Contains(mimeType, "7z") then ArchiveIcon
    else if Contains(mimeType, "word") || Contains(mimeType, "document") then DocumentIcon
    else if Contains(mimeType, "excel") || Contains(mimeType, "spreadsheet") then SpreadsheetIcon
    else if Contains(mimeType, "text") then TextIcon
    else DefaultIcon
  }

  /** Some test of `getFileIcon` matches the MIME type. */
  predicate Recognised(m: string)
  {
    || StartsWith(m, "image/") || StartsWith(m, "video/") || StartsWith(m, "audio/")
    || Contains(m, "pdf") || Contains(m, "zip") || Contains(m, "rar") || Contains(m, "7z")
    || Contains(m, "word") || Contains(m, "document") || Contains(m, "excel") || Contains(m, "spreadsheet")
    || Contains(m, "text")
  }

  /**
   * The media prefixes are tested before any substring: an image, video or
   * audio type keeps its media icon whatever else it contains.
   */
  lemma MediaPrefixWins(m: string)
    ensures StartsWith(m, "image/") ==> GetFileIcon(m) == ImageIcon
    ensures StartsWith(m, "video/") && !StartsWith(m, "image/") ==> GetFileIcon(m) == VideoIcon
    ensures StartsWith(m, "audio/") && !StartsWith(m, "image/") && !StartsWith(m, "video/") ==> GetFileIcon(m) == AudioIcon
  {
  }

  /**
   * A type naming both a document and a spreadsheet gets the document icon,
   * because that test comes first.
   */
  lemma {:induction false} DocumentBeforeSpreadsheet(m: string)
    requires Contains(m, "document") && Contains(m, "spreadsheet")
    requires !StartsWith(m, "image/") && !StartsWith(m, "video/") && !StartsWith(m, "audio/")
    requires !Contains(m, "pdf") && !Contains(m, "zip") && !Contains(m, "rar") && !Contains(m, "7z")
    ensures GetFileIcon(m) == DocumentIcon
  {
  }
}
