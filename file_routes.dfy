/**
 * The Express handlers for file secrets (`server/routes/file.routes.js`):
 * multipart upload, consume-once retrieval and a read-only existence probe.
 */
module FileRoutes {
  import opened Wrappers
  import opened Journal
  import opened Blobs
  import opened Store
  import opened Http
  import opened Cleanup

  /** The text fields of the multipart form; an absent field is `None`. */
  datatype FileForm = FileForm(
    iv: Option<string>,
    originalName: Option<string>,
    mimeType: Option<string>,
    expiresIn: Option<string>,
    passwordHash: Option<string>,
    passwordSalt: Option<string>,
    passwordIv: Option<string>)

  /** The upload limit given to multer: 20 MB. */
  const MaxUploadBytes: nat := 20 * 1024 * 1024

  const TooLarge := "File too large. Maximum size is 20 MB."
  const NoFile := "No file uploaded"
  const MissingIv := "Missing required field: iv"
  const NotFoundOrAccessed := "Secret not found or already accessed"
  const AlreadyAccessed := "Secret has already been accessed and destroyed"
  const WrongType := "Invalid secret type. Expected file."
  const FileNotFound := "Encrypted file not found"
  const DefaultName := "unknown"
  const DefaultMimeType := "application/octet-stream"

  /** The metadata the upload handler registers for an upload of `size` bytes. */
  function FileFields(form: FileForm, size: nat): (f: Fields)
    requires Truthy(form.iv)
    ensures f.iv == form.iv.value
    ensures f.kind == File(OrDefault(form.originalName, DefaultName), OrDefault(form.mimeType, DefaultMimeType), size)
    ensures f.hasPassword <==> Truthy(form.passwordHash)
    ensures f.passwordHash.Some? <==> f.hasPassword
  {
    Fields(File(OrDefault(form.originalName, DefaultName), OrDefault(form.mimeType, DefaultMimeType), size),
           form.iv.value, Truthy(form.passwordHash),
           OrNull(form.passwordHash), OrNull(form.passwordSalt), OrNull(form.passwordIv))
  }

  /**
   * `POST /`: an upload over the multer limit is refused with 413 by the
   * server's error handler; no upload or a missing `iv` gives 400; in these
   * cases nothing is written. Otherwise the uploaded bytes are written, then
   * the metadata is registered, and the reply carries the id, the duration
   * in seconds and the byte count.
   */
  method Create(store: SecretStore, dir: TempDir, id: Id, upload: Option<seq<byte>>, form: FileForm, now: int)
    returns (r: Reply)
    requires store.log == dir.log
    modifies store, dir, store.log
    ensures upload.Some? && |upload.value| > MaxUploadBytes ==>
      r == Reply(413, ErrorBody(TooLarge)) && unchanged(store, dir, store.log)
    ensures upload.None? ==> r == Reply(400, ErrorBody(NoFile)) && unchanged(store, dir, store.log)
    ensures upload.Some? && |upload.value| <= MaxUploadBytes && !Truthy(form.iv) ==>
      r == Reply(400, ErrorBody(MissingIv)) && unchanged(store, dir, store.log)
    ensures upload.Some? && |upload.value| <= MaxUploadBytes && Truthy(form.iv) ==>
      && r == Reply(201, CreatedFile(id, ExpirySeconds(NormaliseExpiry(form.expiresIn)), |upload.value|))
      && dir.files == old(dir.files)[id := upload.value]
      && store.secrets == old(store.secrets)[id := Stamp(FileFields(form, |upload.value|), NormaliseExpiry(form.expiresIn), now)]
      && store.log.events == old(store.log.events) + [FileWritten(id), RecordSet(id)]
    ensures old(Paired(store, dir)) ==> Paired(store, dir)
    ensures old(NoneAccessed(store)) ==> NoneAccessed(store)
  {
    if upload.Some? && |upload.value| > MaxUploadBytes {
      return Reply(413, ErrorBody(TooLarge));
    }
    if upload.None? {
      return Reply(400, ErrorBody(NoFile));
    }
    if !Truthy(form.iv) {
      return Reply(400, ErrorBody(MissingIv));
    }
    var expiryOption := NormaliseExpiry(form.expiresIn);
    var size := |upload.value|;
    dir.Write(id, upload.value);
    store.SetSecret(id, FileFields(form, size), expiryOption, now);
    r := Reply(201, CreatedFile(id, ExpirySeconds(expiryOption), size));
  }

  /**
   * `GET /:id`: the one-time retrieval. Unknown id: 404, nothing changes.
   * Accessed record: 410, file and record deleted. A text record: 400,
   * nothing deleted. File missing: 404, record deleted. Otherwise the stored
   * bytes, iv, name and MIME type are returned and file and record deleted.
   */
  method Retrieve(store: SecretStore, dir: TempDir, id: Id) returns (r: Reply)
    requires store.log == dir.log
    modifies store, dir, store.log
    ensures id !in old(store.secrets) ==>
      r == Reply(404, ErrorBody(NotFoundOrAccessed)) && unchanged(store, dir, store.log)
    ensures id in old(store.secrets) && old(store.secrets)[id].accessed ==>
      && r == Reply(410, ErrorBody(AlreadyAccessed))
      && store.secrets == old(store.secrets) - {id} && dir.files == old(dir.files) - {id}
      && store.log.events == old(store.log.events) + DeletionEvents(id, old(dir.files.Keys))
    ensures id in old(store.secrets) && !old(store.secrets)[id].accessed && !old(store.secrets)[id].fields.kind.File? ==>
      r == Reply(400, ErrorBody(WrongType)) && unchanged(store, dir, store.log)
    ensures id in old(store.secrets) && !old(store.secrets)[id].accessed && old(store.secrets)[id].fields.kind.File?
            && id !in old(dir.files) ==>
      && r == Reply(404, ErrorBody(FileNotFound))
      && store.secrets == old(store.secrets) - {id} && dir.files == old(dir.files)
      && store.log.events == old(store.log.events) + [RecordDeleted(id)]
    ensures id in old(store.secrets) && !old(store.secrets)[id].accessed && old(store.secrets)[id].fields.kind.File?
            && id in old(dir.files) ==>
      && r == Reply(200, FilePayload(
                old(dir.files)[id], old(store.secrets)[id].fields.iv,
                old(store.secrets)[id].fields.kind.originalName, old(store.secrets)[id].fields.kind.mimeType,
                old(store.secrets)[id].fields.hasPassword,
                OrNull(old(store.secrets)[id].fields.passwordSalt), OrNull(old(store.secrets)[id].fields.passwordIv)))
      && store.secrets == old(store.secrets) - {id} && dir.files == old(dir.files) - {id}
      && store.log.events == old(store.log.events) + [FileUnlinked(id), RecordDeleted(id)]
    ensures r.status == 200 ==> id !in store.secrets && id !in dir.files
    ensures old(Paired(store, dir)) ==> Paired(store, dir)
    ensures old(NoneAccessed(store)) ==> NoneAccessed(store)
  {
    var metadata := store.GetSecret(id);
    if metadata.None? {
      return Reply(404, ErrorBody(NotFoundOrAccessed));
    }
    var record := metadata.value;
    if record.accessed {
      DeleteSecretNow(store, dir, id);
      return Reply(410, ErrorBody(AlreadyAccessed));
    }
    if !record.fields.kind.File? {
      return Reply(400, ErrorBody(WrongType));
    }
    var present := dir.Exists(id);
    if !present {
      store.DeleteSecret(id);
      return Reply(404, ErrorBody(FileNotFound));
    }
    var data := dir.Read(id);
    DeleteSecretNow(store, dir, id);
    r := Reply(200, FilePayload(data, record.fields.iv, record.fields.kind.originalName, record.fields.kind.mimeType,
                                record.fields.hasPassword, OrNull(record.fields.passwordSalt),
                                OrNull(record.fields.passwordIv)));
  }

  /** The descriptive fields of a record, `undefined` for a text record. */
  function NameOf(kind: Kind): Option<string> { if kind.File? then Some(kind.originalName) else None }
  function MimeTypeOf(kind: Kind): Option<string> { if kind.File? then Some(kind.mimeType) else None }
  function SizeOf(kind: Kind): Option<nat> { if kind.File? then Some(kind.size) else None }

  /**
   * `GET /:id/exists`: reads only. An unknown or accessed id is reported as
   * absent; otherwise the record's type, name, MIME type, size, expiry and
   * password triple. The record's type is not checked.
   */
  method Exists(store: SecretStore, id: Id) returns (r: Reply)
    ensures id !in store.secrets || store.secrets[id].accessed <==> r == Reply(200, NotExists)
    ensures id in store.secrets && !store.secrets[id].accessed ==>
      var f := store.secrets[id].fields;
      r == Reply(200, FileProbe(
             TypeName(f.kind), NameOf(f.kind), MimeTypeOf(f.kind), SizeOf(f.kind),
             store.secrets[id].expiresAt, f.hasPassword,
             OrNull(f.passwordHash), OrNull(f.passwordSalt), OrNull(f.passwordIv)))
  {
    var metadata := store.GetSecret(id);
    if metadata.None? || metadata.value.accessed {
      return Reply(200, NotExists);
    }
    var record := metadata.value;
    var f := record.fields;
    r := Reply(200, FileProbe(TypeName(f.kind), NameOf(f.kind), MimeTypeOf(f.kind), SizeOf(f.kind),
                              record.expiresAt, f.hasPassword,
                              OrNull(f.passwordHash), OrNull(f.passwordSalt), OrNull(f.passwordIv)));
  }
}
