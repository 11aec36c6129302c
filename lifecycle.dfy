/**
 * Whole-lifecycle consequences of the server handlers, each run on a fresh
 * registry and ciphertext directory: a secret is delivered exactly once,
 * byte for byte, and the sweeper removes it only after its expiry.
 */
module Lifecycle {
  import opened Wrappers
  import opened Journal
  import opened Blobs
  import opened Store
  import opened Http
  import opened Cleanup
  import TextRoutes
  import FileRoutes

  /**
   * A text secret posted and then fetched twice: the first fetch returns
   * the posted ciphertext and iv, the second finds nothing.
   */
  method TextReadOnce(id: Id, body: TextRoutes.TextBody, now: int) returns (created: Reply, first: Reply, second: Reply)
    requires TextRoutes.Accepted(body)
    ensures created == Reply(201, CreatedText(id, ExpirySeconds(NormaliseExpiry(body.expiresIn))))
    ensures first.status == 200 && first.body.TextPayload?
    ensures first.body.encryptedData == body.encryptedData.value && first.body.iv == body.iv.value
    ensures first.body.hasPassword <==> Truthy(body.passwordHash)
    ensures second == Reply(404, ErrorBody(TextRoutes.NotFoundOrAccessed))
  {
    var log := new Log();
    var store := new SecretStore(log);
    var dir := new TempDir(log);
    created := TextRoutes.Create(store, dir, id, body, now);
    AsciiRoundTrip(body.encryptedData.value);
    first := TextRoutes.Retrieve(store, dir, id);
    second := TextRoutes.Retrieve(store, dir, id);
  }

  /**
   * A file secret uploaded and then fetched twice: the first fetch returns
   * the uploaded bytes and the form's iv, the second finds nothing.
   */
  method FileReadOnce(id: Id, data: seq<byte>, form: FileRoutes.FileForm, now: int)
    returns (created: Reply, first: Reply, second: Reply)
    requires |data| <= FileRoutes.MaxUploadBytes && Truthy(form.iv)
    ensures created == Reply(201, CreatedFile(id, ExpirySeconds(NormaliseExpiry(form.expiresIn)), |data|))
    ensures first.status == 200 && first.body.FilePayload?
    ensures first.body.data == data && first.body.iv == form.iv.value
    ensures first.body.originalName == OrDefault(form.originalName, FileRoutes.DefaultName)
    ensures second == Reply(404, ErrorBody(FileRoutes.NotFoundOrAccessed))
  {
    var log := new Log();
    var store := new SecretStore(log);
    var dir := new TempDir(log);
    created := FileRoutes.Create(store, dir, id, Some(data), form, now);
    first := FileRoutes.Retrieve(store, dir, id);
    second := FileRoutes.Retrieve(store, dir, id);
  }

  /**
   * A sweep after the expiry instant removes an unread text secret, so a
   * later fetch finds nothing; a sweep at or before that instant keeps it
   * and the fetch still delivers it.
   */
  method SweepThenRead(id: Id, body: TextRoutes.TextBody, created: int, sweptAt: int) returns (r: Reply)
    requires TextRoutes.Accepted(body)
    ensures sweptAt > created + ExpiryMs(NormaliseExpiry(body.expiresIn)) ==>
      r == Reply(404, ErrorBody(TextRoutes.NotFoundOrAccessed))
    ensures sweptAt <= created + ExpiryMs(NormaliseExpiry(body.expiresIn)) ==>
      r.status == 200 && r.body.TextPayload? && r.body.encryptedData == body.encryptedData.value
  {
    var log := new Log();
    var store := new SecretStore(log);
    var dir := new TempDir(log);
    var reply := TextRoutes.Create(store, dir, id, body, created);
    FreshRecordLifetime(TextRoutes.TextFields(body), NormaliseExpiry(body.expiresIn), created, sweptAt);
    ghost var swept := RunCleanup(store, dir, sweptAt);
    AsciiRoundTrip(body.encryptedData.value);
    r := TextRoutes.Retrieve(store, dir, id);
  }
}
