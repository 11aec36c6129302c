/**
 * A ghost record of the side effects the server performs on its two stores,
 * in the order it performs them. It lets contracts state ordering
 * requirements such as "the ciphertext file is written before the metadata
 * is registered" or "the file is deleted before the metadata".
 */
module Journal {

  type Id = string

  datatype Event =
    | FileWritten(id: Id)      // fs.writeFileSync of <id>.enc
    | FileUnlinked(id: Id)     // fs.unlinkSync of <id>.enc
    | RecordSet(id: Id)        // secrets.set(id, …)
    | RecordMarked(id: Id)     // secret.accessed = true
    | RecordDeleted(id: Id)    // secrets.delete(id)

  class Log {
    ghost var events: seq<Event>

    constructor ()
      ensures events == []
    {
      events := [];
    }
  }
}
