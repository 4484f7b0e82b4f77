/**
 * `Database<S>`: the handle that owns one storage backend, forwards every
 * call to it (`Deref`/`DerefMut`), and flushes it once when dropped.  The
 * backend here is `JSONStorage`; `Close` is the drop.
 */
module KvDatabase {
  import opened Wrappers
  import opened Utf8
  import JsonEncode
  import opened KvStore

  class Database {
    const storage: JsonStorage
    /** Set by `Close`; an owned handle cannot be used after it is dropped. */
    var dropped: bool

    constructor (storage: JsonStorage)
      ensures this.storage == storage && !dropped
    {
      this.storage := storage;
      dropped := false;
    }

    /** `open`: build the backend with `from` and wrap it, passing its error on. */
    static method Open(existing: Option<seq<byte>>, fault: OpenFault) returns (r: Result<Database, IoError>)
      ensures r.Failure? <==> fault == OpenFails || fault == CloneFails
      ensures r.Success? ==> fresh(r.value) && fresh(r.value.storage) && !r.value.dropped
      ensures r.Success? ==> r.value.storage.file == (if existing.Some? then existing.value else [])
      ensures r.Success? ==> r.value.storage.data == (if fault == ReadFails then map[] else Load(r.value.storage.file))
    {
      var s := JsonStorage.From(existing, fault);
      if s.Failure? {
        return Failure(s.error);
      }
      var db := new Database(s.value);
      return Success(db);
    }

    function Get(key: string): (r: Option<string>)
      requires !dropped
      reads this, storage
      ensures r == Lookup(storage.data, key)
    {
      storage.Get(key)
    }

    method Set(key: string, value: string) returns (r: Result<(), IoError>)
      requires !dropped
      modifies storage
      ensures r == Success(())
      ensures storage.data == old(storage.data)[key := value] && storage.file == old(storage.file)
    {
      r := storage.Set(key, value);
    }

    method Del(key: string) returns (r: Result<(), IoError>)
      requires !dropped
      modifies storage
      ensures r == Success(())
      ensures storage.data == old(storage.data) - {key} && storage.file == old(storage.file)
    {
      r := storage.Del(key);
    }

    method Flush(fault: FlushFault) returns (r: Result<(), IoError>)
      requires !dropped
      modifies storage
      ensures storage.data == old(storage.data)
      ensures storage.file == FlushedFile(old(storage.file), JsonEncode.Serialize(storage.data), fault)
      ensures r.Success? <==> fault == NoFlushFault
    {
      r := storage.Flush(fault);
    }

    /**
     * `Drop::drop`: flush the backend exactly once; after it the handle is
     * gone.  A failed flush is returned here; the source panics on it.
     */
    method Close(fault: FlushFault) returns (r: Result<(), IoError>)
      requires !dropped
      modifies this, storage
      ensures dropped
      ensures storage.data == old(storage.data)
      ensures storage.file == FlushedFile(old(storage.file), JsonEncode.Serialize(storage.data), fault)
      ensures r.Success? <==> fault == NoFlushFault
    {
      r := storage.Flush(fault);
      dropped := true;
    }
  }

  /**
   * Dropping a handle and opening its file again: every key reads as it did
   * before the drop, provided the serialized map is at least as long as the
   * file was.
   */
  method CloseAndReopen(db: Database) returns (again: Result<Database, IoError>)
    requires !db.dropped
    requires |JsonEncode.Serialize(db.storage.data)| >= |db.storage.file|
    modifies db, db.storage
    ensures db.dropped
    ensures again.Success? && fresh(again.value) && fresh(again.value.storage) && !again.value.dropped
    ensures again.value.storage.data == old(db.storage.data)
    ensures again.value.storage.file == JsonEncode.Serialize(old(db.storage.data))
    ensures forall k :: again.value.Get(k) == old(db.Get(k))
  {
    ghost var before := db.storage.data;
    ghost var prior := db.storage.file;
    var _ := db.Close(NoFlushFault);
    ReopenAfterFlush(prior, before);
    again := Database.Open(Some(db.storage.file), NoOpenFault);
  }
}
