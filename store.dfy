/**
 * The in-memory metadata registry of the Express server (`server/store.js`):
 * a module-level map from secret id to metadata record. All records are lost
 * when the process ends.
 */
module Store {
  import opened Wrappers
  import opened Journal

  /** The five expiry options and their durations in milliseconds. */
  const ExpiryChoices: seq<string> := ["5m", "10m", "30m", "1h", "24h"]
  const DefaultExpiry: nat := 10 * 60 * 1000

  /**
   * `getExpiryTime`: the duration of an expiry option; any string that is not
   * one of the five options falls back to ten minutes.
   */
  function ExpiryMs(option: string): (ms: nat)
    ensures option !in ExpiryChoices ==> ms == DefaultExpiry
    ensures ms == DefaultExpiry <==> option !in ExpiryChoices || option == "10m"
    ensures 5 * 60 * 1000 <= ms <= 24 * 60 * 60 * 1000
    ensures ms % 60000 == 0
  {
    if option == "5m" then 5 * 60 * 1000
    else if option == "10m" then 10 * 60 * 1000
    else if option == "30m" then 30 * 60 * 1000
    else if option == "1h" then 60 * 60 * 1000
    else if option == "24h" then 24 * 60 * 60 * 1000
    else DefaultExpiry
  }

  /** The table, entry by entry. */
  lemma ExpiryTable()
    ensures ExpiryMs("5m") == 300000 && ExpiryMs("10m") == 600000
    ensures ExpiryMs("30m") == 1800000 && ExpiryMs("1h") == 3600000
    ensures ExpiryMs("24h") == 86400000
  {
  }

  /** The `type` field of a record, with the fields only a file record has. */
  datatype Kind = Text | File(originalName: string, mimeType: string, size: nat)

  /** The `type` string a record reports. */
  function TypeName(kind: Kind): string
  {
    if kind.Text? then "text" else "file"
  }

  /** The metadata a route hands to `setSecret`. */
  datatype Fields = Fields(
    kind: Kind,
    iv: string,
    hasPassword: bool,
    passwordHash: Option<string>,
    passwordSalt: Option<string>,
    passwordIv: Option<string>)

  /** A stored record: the caller's fields plus what `setSecret` stamps on them. */
  datatype SecretRecord = SecretRecord(
    fields: Fields,
    createdAt: int,
    expiresAt: int,
    expiryOption: string,
    accessed: bool)

  /** The record `setSecret(id, fields, option)` stores when the clock reads `now`. */
  function Stamp(fields: Fields, option: string, now: int): SecretRecord
  {
    SecretRecord(fields, now, now + ExpiryMs(option), option, false)
  }

  /** The test `getExpiredSecrets` applies to each record (strict `<`). */
  predicate Collectable(r: SecretRecord, now: int)
  {
    r.expiresAt < now || r.accessed
  }

  /**
   * A fresh record is kept by a sweep at the very millisecond it expires and
   * collected one millisecond later.
   */
  lemma FreshRecordLifetime(fields: Fields, option: string, created: int, now: int)
    ensures Collectable(Stamp(fields, option, created), now) <==> now > created + ExpiryMs(option)
  {
  }

  predicate Distinct(ids: seq<Id>)
  {
    forall i, j :: 0 <= i < j < |ids| ==> ids[i] != ids[j]
  }

  class SecretStore {
    var secrets: map<Id, SecretRecord>
    const log: Log

    constructor (log: Log)
      ensures secrets == map[] && this.log == log
    {
      secrets := map[];
      this.log := log;
    }

    /**
     * `setSecret`: stores the caller's fields unchanged with `createdAt`,
     * `expiresAt`, `expiryOption` and `accessed = false`, replacing any
     * record already stored under `id`.
     */
    method SetSecret(id: Id, fields: Fields, option: string, now: int)
      modifies this, log
      ensures secrets == old(secrets)[id := Stamp(fields, option, now)]
      ensures secrets[id].fields == fields && !secrets[id].accessed
      ensures secrets[id].expiresAt == now + ExpiryMs(option)
      ensures log.events == old(log.events) + [RecordSet(id)]
    {
      secrets := secrets[id := SecretRecord(fields, now, now + ExpiryMs(option), option, false)];
      log.events := log.events + [RecordSet(id)];
    }

    /** `getSecret`: the stored record or null; expiry is not consulted. */
    method GetSecret(id: Id) returns (r: Option<SecretRecord>)
      ensures r.Some? <==> id in secrets
      ensures r.Some? ==> r.value == secrets[id]
    {
      if id in secrets {
        r := Some(secrets[id]);
      } else {
        r := None;
      }
    }

    /**
     * `markAccessed`: sets `accessed` on an existing record and changes
     * nothing else; on an unknown id it does nothing.
     */
    method MarkAccessed(id: Id)
      modifies this, log
      ensures id in old(secrets) ==> secrets == old(secrets)[id := old(secrets)[id].(accessed := true)]
      ensures id in old(secrets) ==> log.events == old(log.events) + [RecordMarked(id)]
      ensures id !in old(secrets) ==> secrets == old(secrets) && log.events == old(log.events)
    {
      if id in secrets {
        secrets := secrets[id := secrets[id].(accessed := true)];
        log.events := log.events + [RecordMarked(id)];
      }
    }

    /** `deleteSecret`: removes exactly `id`; on an absent id the map is unchanged. */
    method DeleteSecret(id: Id)
      modifies this, log
      ensures secrets == old(secrets) - {id}
      ensures log.events == old(log.events) + [RecordDeleted(id)]
    {
      secrets := secrets - {id};
      log.events := log.events + [RecordDeleted(id)];
    }

    /**
     * `getExpiredSecrets`: every id whose record has expired (`expiresAt <
     * now`) or has been accessed, each once.
     */
    method GetExpiredSecrets(now: int) returns (expired: seq<Id>)
      ensures forall id :: id in expired <==> id in secrets && Collectable(secrets[id], now)
      ensures Distinct(expired)
    {
      expired := [];
      var pending := secrets.Keys;
      while pending != {}
        invariant pending <= secrets.Keys
        invariant forall id :: id in expired <==> id in secrets && id !in pending && Collectable(secrets[id], now)
        invariant Distinct(expired)
        decreases pending
      {
        var id :| id in pending;
        if Collectable(secrets[id], now) {
          expired := expired + [id];
        }
        pending := pending - {id};
      }
    }

    /** `getStats().totalSecrets`: the number of stored records. */
    method TotalSecrets() returns (total: nat)
      ensures total == |secrets.Keys|
    {
      total := |secrets|;
    }
  }
}
