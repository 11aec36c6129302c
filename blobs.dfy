/**
 * The directory `server/temp` that holds one ciphertext file `<id>.enc` per
 * secret. Files are keyed by the secret id; the `.enc` suffix and the
 * directory path are fixed, so a file name and an id determine each other.
 */
module Blobs {
  import opened Wrappers
  import opened Journal

  class TempDir {
    var files: map<Id, seq<byte>>
    const log: Log

    constructor (log: Log)
      ensures files == map[] && this.log == log
    {
      files := map[];
      this.log := log;
    }

    /** fs.existsSync */
    method Exists(id: Id) returns (present: bool)
      ensures present <==> id in files
    {
      present := id in files;
    }

    /** fs.writeFileSync: creates or replaces the file. */
    method Write(id: Id, data: seq<byte>)
      modifies this, log
      ensures files == old(files)[id := data]
      ensures log.events == old(log.events) + [FileWritten(id)]
    {
      files := files[id := data];
      log.events := log.events + [FileWritten(id)];
    }

    /** fs.readFileSync, on a file the caller has just seen with existsSync. */
    method Read(id: Id) returns (data: seq<byte>)
      requires id in files
      ensures data == files[id]
    {
      data := files[id];
    }

    /** fs.unlinkSync, on a file the caller has just seen with existsSync. */
    method Unlink(id: Id)
      requires id in files
      modifies this, log
      ensures files == old(files) - {id}
      ensures log.events == old(log.events) + [FileUnlinked(id)]
    {
      files := files - {id};
      log.events := log.events + [FileUnlinked(id)];
    }
  }

  predicate IsAscii(s: string)
  {
    forall i :: 0 <= i < |s| ==> s[i] as int < 128
  }

  /** The bytes `fs.writeFileSync(path, s, 'utf8')` stores for an ASCII string. */
  function AsciiBytes(s: string): (r: seq<byte>)
    requires IsAscii(s)
    ensures |r| == |s|
  {
    if s == [] then []
    else [s[0] as int as byte] + AsciiBytes(s[1..])
  }

  /**
   * The string `fs.readFileSync(path, 'utf8')` returns. ASCII bytes decode to
   * themselves; every other byte is read as U+FFFD (multi-byte UTF-8
   * sequences are not decoded).
   */
  function Utf8Text(data: seq<byte>): (r: string)
    ensures |r| == |data|
  {
    if data == [] then []
    else [if data[0] < 128 then data[0] as int as char else '�'] + Utf8Text(data[1..])
  }

  /** Reading back a file written from an ASCII string yields that string. */
  lemma {:induction false} AsciiRoundTrip(s: string)
    requires IsAscii(s)
    ensures Utf8Text(AsciiBytes(s)) == s
  {
    if s != [] {
      AsciiRoundTrip(s[1..]);
    }
  }
}
