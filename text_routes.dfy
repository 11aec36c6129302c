/**
 * The Express handlers for text secrets (`server/routes/text.routes.js`):
 * create, consume-once retrieval and a read-only existence probe, as
 * decision procedures over the registry and the ciphertext directory.
 */
module TextRoutes {
  import opened Wrappers
  import opened Journal
  import opened Blobs
  import opened Store
  import opened Http
  import opened Cleanup

  /** The JSON body of `POST /api/text`; an absent field is `None`. */
  datatype TextBody = TextBody(
    encryptedData: Option<string>,
    iv: Option<string>,
    expiresIn: Option<string>,
    passwordHash: Option<string>,
    passwordSalt: Option<string>,
    passwordIv: Option<string>)

  const MissingFields := "Missing required fields: encryptedData and iv"
  const InvalidFormat := "Invalid data format. Expected base64 encoded strings."
  const NotFoundOrAccessed := "Secret not found or already accessed"
  const AlreadyAccessed := "Secret has already been accessed and destroyed"
  const WrongType := "Invalid secret type. Expected text."
  const DataNotFound := "Encrypted data not found"

  /** A body that passes both checks of the creation handler. */
  predicate Accepted(body: TextBody)
  {
    && Truthy(body.encryptedData) && Truthy(body.iv)
    && IsBase64Text(body.encryptedData.value) && IsBase64Text(body.iv.value)
  }

  /** The metadata the creation handler registers for an accepted body. */
  function TextFields(body: TextBody): (f: Fields)
    requires Truthy(body.iv)
    ensures f.kind == Text && f.iv == body.iv.value
    ensures f.hasPassword <==> Truthy(body.passwordHash)
    ensures f.passwordHash.Some? <==> f.hasPassword
  {
    Fields(Text, body.iv.value, Truthy(body.passwordHash),
           OrNull(body.passwordHash), OrNull(body.passwordSalt), OrNull(body.passwordIv))
  }

  /**
   * `POST /`: rejects a missing, empty or non-base64 `encryptedData` or `iv`
   * with 400 and writes nothing; otherwise writes the ciphertext file, then
   * registers the metadata under the normalised expiry option, and replies
   * 201 with the id and the duration in seconds.
   */
  method Create(store: SecretStore, dir: TempDir, id: Id, body: TextBody, now: int) returns (r: Reply)
    requires store.log == dir.log
    modifies store, dir, store.log
    ensures !Truthy(body.encryptedData) || !Truthy(body.iv) ==>
      r == Reply(400, ErrorBody(MissingFields)) && unchanged(store, dir, store.log)
    ensures Truthy(body.encryptedData) && Truthy(body.iv) && !Accepted(body) ==>
      r == Reply(400, ErrorBody(InvalidFormat)) && unchanged(store, dir, store.log)
    ensures Accepted(body) ==>
      && r == Reply(201, CreatedText(id, ExpirySeconds(NormaliseExpiry(body.expiresIn))))
      && dir.files == old(dir.files)[id := AsciiBytes(body.encryptedData.value)]
      && store.secrets == old(store.secrets)[id := Stamp(TextFields(body), NormaliseExpiry(body.expiresIn), now)]
      && store.log.events == old(store.log.events) + [FileWritten(id), RecordSet(id)]
    ensures old(Paired(store, dir)) ==> Paired(store, dir)
    ensures old(NoneAccessed(store)) ==> NoneAccessed(store)
  {
    if !Truthy(body.encryptedData) || !Truthy(body.iv) {
      return Reply(400, ErrorBody(MissingFields));
    }
    if !IsBase64Text(body.encryptedData.value) || !IsBase64Text(body.iv.value) {
      return Reply(400, ErrorBody(InvalidFormat));
    }
    var expiryOption := NormaliseExpiry(body.expiresIn);
    dir.Write(id, AsciiBytes(body.encryptedData.value));
    store.SetSecret(id, TextFields(body), expiryOption, now);
    r := Reply(201, CreatedText(id, ExpirySeconds(expiryOption)));
  }

  /**
   * `GET /:id`: the one-time retrieval. Unknown id: 404, nothing changes.
   * Accessed record: 410, file and record deleted. A file record: 400,
   * nothing deleted. File missing: 404, record deleted. Otherwise the stored
   * ciphertext and iv are returned and file and record are deleted. The
   * record's `expiresAt` is not consulted.
   */
  method Retrieve(store: SecretStore, dir: TempDir, id: Id) returns (r: Reply)
    requires store.log == dir.log
    modifies store, dir, store.log
    ensures id !in old(store.secrets) ==>
      r == Reply(404, ErrorBody(NotFoundOrAccessed)) && unchanged(store, dir, store.log)
    ensures id in old(store.secrets) && old(store.secrets)[id].accessed ==>
      && r == Reply(410, ErrorBody(AlreadyAccessed))
      && store.secrets == old(store.secrets) - {id} && dir.files == old(dir.files) - {id}
      && store.log.events == old(store.log.events) + DeletionEvents(id, old(dir.files.Keys))
    ensures id in old(store.secrets) && !old(store.secrets)[id].accessed && !old(store.secrets)[id].fields.kind.Text? ==>
      r == Reply(400, ErrorBody(WrongType)) && unchanged(store, dir, store.log)
    ensures id in old(store.secrets) && !old(store.secrets)[id].accessed && old(store.secrets)[id].fields.kind.Text?
            && id !in old(dir.files) ==>
      && r == Reply(404, ErrorBody(DataNotFound))
      && store.secrets == old(store.secrets) - {id} && dir.files == old(dir.files)
      && store.log.events == old(store.log.events) + [RecordDeleted(id)]
    ensures id in old(store.secrets) && !old(store.secrets)[id].accessed && old(store.secrets)[id].fields.kind.Text?
            && id in old(dir.files) ==>
      && r == Reply(200, TextPayload(
                Utf8Text(old(dir.files)[id]), old(store.secrets)[id].fields.iv,
                old(store.secrets)[id].fields.hasPassword,
                OrNull(old(store.secrets)[id].fields.passwordSalt), OrNull(old(store.secrets)[id].fields.passwordIv)))
      && store.secrets == old(store.secrets) - {id} && dir.files == old(dir.files) - {id}
      && store.log.events == old(store.log.events) + [FileUnlinked(id), RecordDeleted(id)]
    ensures r.status == 200 ==> id !in store.secrets && id !in dir.files
    ensures old(Paired(store, dir)) ==> Paired(store, dir)
    ensures old(NoneAccessed(store)) ==> NoneAccessed(store)
  {
    var metadata := store.GetSecret(id);
    if metadata.None? {
      return Reply(404, ErrorBody(NotFoundOrAccessed));
    }
    var record := metadata.value;
    if record.accessed {
      DeleteSecretNow(store, dir, id);
      return Reply(410, ErrorBody(AlreadyAccessed));
    }
    if !record.fields.kind.Text? {
      return Reply(400, ErrorBody(WrongType));
    }
    var present := dir.Exists(id);
    if !present {
      store.DeleteSecret(id);
      return Reply(404, ErrorBody(DataNotFound));
    }
    var data := dir.Read(id);
    var encryptedData := Utf8Text(data);
    DeleteSecretNow(store, dir, id);
    r := Reply(200, TextPayload(encryptedData, record.fields.iv, record.fields.hasPassword,
                                OrNull(record.fields.passwordSalt), OrNull(record.fields.passwordIv)));
  }

  /**
   * `GET /:id/exists`: reads only. An unknown or accessed id is reported as
   * absent; otherwise the record's type, expiry and password triple.
   */
  method Exists(store: SecretStore, id: Id) returns (r: Reply)
    ensures id !in store.secrets || store.secrets[id].accessed <==> r == Reply(200, NotExists)
    ensures id in store.secrets && !store.secrets[id].accessed ==>
      r == Reply(200, TextProbe(
             TypeName(store.secrets[id].fields.kind), store.secrets[id].expiresAt,
             store.secrets[id].fields.hasPassword, OrNull(store.secrets[id].fields.passwordHash),
             OrNull(store.secrets[id].fields.passwordSalt), OrNull(store.secrets[id].fields.passwordIv)))
  {
    var metadata := store.GetSecret(id);
    if metadata.None? || metadata.value.accessed {
      return Reply(200, NotExists);
    }
    var record := metadata.value;
    r := Reply(200, TextProbe(TypeName(record.fields.kind), record.expiresAt, record.fields.hasPassword,
                              OrNull(record.fields.passwordHash), OrNull(record.fields.passwordSalt),
                              OrNull(record.fields.passwordIv)));
  }
}
