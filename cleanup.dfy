/**
 * The background cleanup job of the Express server (`server/cleanup.js`):
 * it deletes the ciphertext file and then the metadata of every secret the
 * registry reports as expired or accessed.
 */
module Cleanup {
  import opened Journal
  import opened Blobs
  import opened Store

  /**
   * Every record has its ciphertext file. The converse is not kept: the
   * directory is on disk and outlives the registry, so files of an earlier
   * process can remain without a record.
   */
  ghost predicate Paired(store: SecretStore, dir: TempDir)
    reads store, dir
  {
    store.secrets.Keys <= dir.files.Keys
  }

  /** No stored record has its `accessed` flag set. */
  ghost predicate NoneAccessed(store: SecretStore)
    reads store
  {
    forall id :: id in store.secrets ==> !store.secrets[id].accessed
  }

  /** The events of deleting `id`: its file if one exists, then its record. */
  function DeletionEvents(id: Id, files: set<Id>): seq<Event>
  {
    (if id in files then [FileUnlinked(id)] else []) + [RecordDeleted(id)]
  }

  /** The events of deleting each id of `ids` in turn, given the files present at the start. */
  function SweepEvents(ids: seq<Id>, files: set<Id>): seq<Event>
  {
    if ids == [] then []
    else SweepEvents(ids[..|ids| - 1], files) + DeletionEvents(ids[|ids| - 1], files)
  }

  /** A sweep deletes the record of every id it is given. */
  lemma {:induction false} SweepDeletesEach(ids: seq<Id>, files: set<Id>, id: Id)
    requires id in ids
    ensures RecordDeleted(id) in SweepEvents(ids, files)
  {
    var last := ids[|ids| - 1];
    if id == last {
      assert SweepEvents(ids, files)[|SweepEvents(ids, files)| - 1] == RecordDeleted(id);
    } else {
      assert ids == ids[..|ids| - 1] + [last];
      SweepDeletesEach(ids[..|ids| - 1], files, id);
    }
  }

  /**
   * Within a sweep, the deletion of a record whose file existed comes
   * immediately after the deletion of that file.
   */
  lemma {:induction false} SweepUnlinksFirst(ids: seq<Id>, files: set<Id>, i: nat)
    requires i < |SweepEvents(ids, files)|
    requires SweepEvents(ids, files)[i].RecordDeleted? && SweepEvents(ids, files)[i].id in files
    ensures i > 0 && SweepEvents(ids, files)[i - 1] == FileUnlinked(SweepEvents(ids, files)[i].id)
  {
    var prefix := SweepEvents(ids[..|ids| - 1], files);
    if i < |prefix| {
      SweepUnlinksFirst(ids[..|ids| - 1], files, i);
    }
  }

  /**
   * `deleteEncryptedFile`: removes `<id>.enc` when it exists; a missing file
   * is not an error and leaves the directory unchanged.
   */
  method DeleteEncryptedFile(dir: TempDir, id: Id)
    modifies dir, dir.log
    ensures dir.files == old(dir.files) - {id}
    ensures id !in old(dir.files) ==> dir.files == old(dir.files)
    ensures dir.log.events == old(dir.log.events) + (if id in old(dir.files) then [FileUnlinked(id)] else [])
  {
    var present := dir.Exists(id);
    if present {
      dir.Unlink(id);
    }
  }

  /**
   * `deleteSecretNow`: removes the file and then the record of `id`. A second
   * call finds neither and changes neither store.
   */
  method DeleteSecretNow(store: SecretStore, dir: TempDir, id: Id)
    requires store.log == dir.log
    modifies store, dir, store.log
    ensures store.secrets == old(store.secrets) - {id}
    ensures dir.files == old(dir.files) - {id}
    ensures store.log.events == old(store.log.events) + DeletionEvents(id, old(dir.files.Keys))
  {
    DeleteEncryptedFile(dir, id);
    store.DeleteSecret(id);
  }

  /**
   * `runCleanup`: takes the ids `getExpiredSecrets` reports at `now` and, id
   * by id, deletes the file before the record. Returns (as a ghost value)
   * the ids it swept, in the order it swept them.
   */
  method RunCleanup(store: SecretStore, dir: TempDir, now: int) returns (ghost swept: seq<Id>)
    requires store.log == dir.log
    modifies store, dir, store.log
    ensures Distinct(swept)
    ensures forall id :: id in swept <==> id in old(store.secrets) && Collectable(old(store.secrets)[id], now)
    ensures store.secrets == old(store.secrets) - set id | id in swept
    ensures dir.files == old(dir.files) - set id | id in swept
    ensures store.log.events == old(store.log.events) + SweepEvents(swept, old(dir.files.Keys))
    ensures old(Paired(store, dir)) ==> Paired(store, dir)
    ensures old(NoneAccessed(store)) ==> NoneAccessed(store)
  {
    var expiredIds := store.GetExpiredSecrets(now);
    if |expiredIds| > 0 {
      var i := 0;
      while i < |expiredIds|
        invariant 0 <= i <= |expiredIds|
        invariant store.secrets == old(store.secrets) - set id | id in expiredIds[..i]
        invariant dir.files == old(dir.files) - set id | id in expiredIds[..i]
        invariant store.log.events == old(store.log.events) + SweepEvents(expiredIds[..i], old(dir.files.Keys))
      {
        var id := expiredIds[i];
        assert id !in expiredIds[..i];
        assert expiredIds[..i + 1][..i] == expiredIds[..i];
        DeleteEncryptedFile(dir, id);
        store.DeleteSecret(id);
        i := i + 1;
      }
      assert expiredIds[..i] == expiredIds;
    }
    swept := expiredIds;
  }

  /**
   * The part of `startCleanupScheduler` that is modelled: one sweep runs
   * immediately when the scheduler starts (the one-minute timer is not).
   */
  method StartCleanupScheduler(store: SecretStore, dir: TempDir, now: int) returns (ghost swept: seq<Id>)
    requires store.log == dir.log
    modifies store, dir, store.log
    ensures forall id :: id in swept <==> id in old(store.secrets) && Collectable(old(store.secrets)[id], now)
    ensures store.secrets == old(store.secrets) - set id | id in swept
    ensures dir.files == old(dir.files) - set id | id in swept
    ensures store.log.events == old(store.log.events) + SweepEvents(swept, old(dir.files.Keys))
    ensures old(Paired(store, dir)) ==> Paired(store, dir)
    ensures old(NoneAccessed(store)) ==> NoneAccessed(store)
  {
    swept := RunCleanup(store, dir, now);
  }
}
