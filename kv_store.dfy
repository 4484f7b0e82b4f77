/**
 * `JSONStorage`: a string-to-string map kept in memory (`data`) and a file
 * holding its JSON serialization (`file`).  `set`, `del` and `get` touch
 * only the map; `from` reads the file once, and `flush` writes the map back
 * from offset 0.  The file is its byte content; the outcome of each I/O
 * call is a parameter.
 */
module KvStore {
  import opened Wrappers
  import opened Utf8
  import JsonEncode
  import JsonDecode
  import JsonLaws

  /** `io::Error`; which error it is does not matter to the store. */
  datatype IoError = IoError

  /** How the I/O calls of `from` turn out: `open`, reading the file, `try_clone`. */
  datatype OpenFault = NoOpenFault | OpenFails | ReadFails | CloneFails

  /**
   * How the I/O calls of `flush` turn out: the seek fails, or `write_all`
   * fails after writing `written` bytes.  The final `File::flush` always
   * succeeds, so it has no fault of its own.
   */
  datatype FlushFault = NoFlushFault | SeekFails | WriteFails(written: nat)

  /** `BTreeMap::get`. */
  function Lookup(m: map<string, string>, key: string): (r: Option<string>)
    ensures r.Some? <==> key in m
    ensures r.Some? ==> r.value == m[key]
  {
    if key in m then Some(m[key]) else None
  }

  /** The map `from` starts with: the file's content if it parses, the empty map otherwise. */
  function Load(bytes: seq<byte>): map<string, string> {
    var parsed := JsonDecode.Parse(bytes);
    if parsed.Some? then parsed.value else map[]
  }

  /**
   * The file after writing `content` at offset 0 without truncating: the
   * first `|content|` bytes are replaced, and any older bytes beyond them stay.
   */
  function Overwrite(prior: seq<byte>, content: seq<byte>): (r: seq<byte>)
    ensures |r| == if |content| >= |prior| then |content| else |prior|
    ensures forall i :: 0 <= i < |content| ==> r[i] == content[i]
    ensures forall i :: |content| <= i < |prior| ==> r[i] == prior[i]
  {
    if |content| >= |prior| then content else content + prior[|content|..]
  }

  /** One byte written at position `pos`, which is at most the current end of the file. */
  function WriteByteAt(f: seq<byte>, pos: nat, b: byte): (r: seq<byte>)
    requires pos <= |f|
    ensures |r| == if pos == |f| then |f| + 1 else |f|
    ensures r[pos] == b
    ensures forall i :: 0 <= i < |f| && i != pos ==> r[i] == f[i]
  {
    if pos == |f| then f + [b] else f[pos := b]
  }

  /** The file after `flush`, for each outcome of its I/O calls. */
  function FlushedFile(prior: seq<byte>, content: seq<byte>, fault: FlushFault): (r: seq<byte>)
    ensures |r| >= |prior|
    ensures fault == SeekFails ==> r == prior
    ensures fault == NoFlushFault ==> |r| >= |content| && r[..|content|] == content
  {
    match fault
    case SeekFails => prior
    case WriteFails(n) => Overwrite(prior, content[..if n < |content| then n else |content|])
    case _ => Overwrite(prior, content)
  }

  class JsonStorage {
    var data: map<string, string>
    var file: seq<byte>

    constructor (data: map<string, string>, file: seq<byte>)
      ensures this.data == data && this.file == file
    {
      this.data := data;
      this.file := file;
    }

    /**
     * `JSONStorage::from`: open the file (creating it empty when it does
     * not exist) and start from its parsed content, or from the empty map
     * when it does not parse or cannot be read.  Only a failing `open` or
     * `try_clone` is an error.
     */
    static method From(existing: Option<seq<byte>>, fault: OpenFault) returns (r: Result<JsonStorage, IoError>)
      ensures r.Failure? <==> fault == OpenFails || fault == CloneFails
      ensures r.Success? ==> fresh(r.value)
      ensures r.Success? ==> r.value.file == (if existing.Some? then existing.value else [])
      ensures r.Success? ==> r.value.data == (if fault == ReadFails then map[] else Load(r.value.file))
    {
      if fault == OpenFails {
        return Failure(IoError);
      }
      var bytes := if existing.Some? then existing.value else [];
      if fault == CloneFails {
        return Failure(IoError);
      }
      var parsed := if fault == ReadFails then None else JsonDecode.Parse(bytes);
      var data := if parsed.Some? then parsed.value else map[];
      var storage := new JsonStorage(data, bytes);
      return Success(storage);
    }

    /** `get`: the value stored under `key`, if any. */
    function Get(key: string): (r: Option<string>)
      reads this
      ensures r.Some? <==> key in data
      ensures r.Some? ==> r.value == data[key]
    {
      Lookup(data, key)
    }

    /** `set`: insert or overwrite one entry of the map; the file is not touched and the call never fails. */
    method Set(key: string, value: string) returns (r: Result<(), IoError>)
      modifies this
      ensures r == Success(())
      ensures data == old(data)[key := value]
      ensures file == old(file)
      ensures Get(key) == Some(value)
      ensures forall k :: k != key ==> Get(k) == old(Get(k))
    {
      data := data[key := value];
      return Success(());
    }

    /** `del`: remove `key` if present (a no-op otherwise); the file is not touched and the call never fails. */
    method Del(key: string) returns (r: Result<(), IoError>)
      modifies this
      ensures r == Success(())
      ensures data == old(data) - {key}
      ensures key !in old(data) ==> data == old(data)
      ensures file == old(file)
      ensures Get(key) == None
      ensures forall k :: k != key ==> Get(k) == old(Get(k))
    {
      data := data - {key};
      return Success(());
    }

    /**
     * `flush`: seek to offset 0, write the serialized map (`write_all`),
     * then flush the file.  Nothing truncates the file.
     */
    method Flush(fault: FlushFault) returns (r: Result<(), IoError>)
      modifies this
      ensures data == old(data)
      ensures file == FlushedFile(old(file), JsonEncode.Serialize(data), fault)
      ensures r.Success? <==> fault == NoFlushFault
    {
      if fault == SeekFails {
        return Failure(IoError);
      }
      var content := JsonEncode.Serialize(data);
      var n := if fault.WriteFails? && fault.written < |content| then fault.written else |content|;
      WriteFromStart(content, n);
      assert content[..|content|] == content;
      if fault.WriteFails? {
        return Failure(IoError);
      }
      return Success(());
    }

    /** `write_all` after the seek: the first `n` bytes of `content`, one at a time, from offset 0. */
    method WriteFromStart(content: seq<byte>, n: nat)
      requires n <= |content|
      modifies this`file
      ensures file == Overwrite(old(file), content[..n])
    {
      var i := 0;
      assert content[..0] == [];
      while i < n
        invariant 0 <= i <= n
        invariant file == Overwrite(old(file), content[..i])
      {
        OverwriteExtend(old(file), content[..i], content[i]);
        assert content[..i + 1] == content[..i] + [content[i]];
        file := WriteByteAt(file, i, content[i]);
        i := i + 1;
      }
    }
  }

  /** Writing one more byte extends a prefix overwrite by that byte. */
  lemma OverwriteExtend(prior: seq<byte>, written: seq<byte>, b: byte)
    ensures |written| <= |Overwrite(prior, written)|
    ensures Overwrite(prior, written + [b]) == WriteByteAt(Overwrite(prior, written), |written|, b)
  {
    var lhs := Overwrite(prior, written + [b]);
    var rhs := WriteByteAt(Overwrite(prior, written), |written|, b);
    assert |lhs| == |rhs|;
    forall i | 0 <= i < |lhs| ensures lhs[i] == rhs[i] {
      if i < |written| {
        assert (written + [b])[i] == written[i];
      } else if i == |written| {
        assert (written + [b])[i] == b;
      }
    }
  }

  /** A brand-new (empty) file, or one whose content does not parse, opens as the empty map. */
  lemma LoadUnparsable(bytes: seq<byte>)
    requires JsonDecode.Parse(bytes) == None
    ensures Load(bytes) == map[]
  {
  }

  lemma LoadEmptyFile()
    ensures Load([]) == map[]
  {
    JsonLaws.ParseEmptyFails();
  }

  /**
   * Loading a serialized map followed by leftover bytes: the map when the
   * leftovers are whitespace, the empty map otherwise.
   */
  lemma LoadSerialized(m: map<string, string>, tail: seq<byte>)
    ensures Load(JsonEncode.Serialize(m) + tail) == if JsonDecode.AllWs(tail) then m else map[]
  {
    JsonLaws.ParseSerialized(m, tail);
  }

  /** Flushing twice with no change in between leaves the same bytes as flushing once. */
  lemma FlushTwiceSameBytes(prior: seq<byte>, content: seq<byte>)
    ensures FlushedFile(FlushedFile(prior, content, NoFlushFault), content, NoFlushFault)
            == FlushedFile(prior, content, NoFlushFault)
  {
  }

  /**
   * Reopening after a successful flush gives back the flushed map, provided
   * the new content is at least as long as the file was.
   */
  lemma ReopenAfterFlush(prior: seq<byte>, m: map<string, string>)
    requires |JsonEncode.Serialize(m)| >= |prior|
    ensures Load(FlushedFile(prior, JsonEncode.Serialize(m), NoFlushFault)) == m
  {
    var content := JsonEncode.Serialize(m);
    assert Overwrite(prior, content) == content + [];
    LoadSerialized(m, []);
  }

  /**
   * As written, a flush over a longer file whose last byte is not whitespace
   * (any earlier content, a serialization or not) leaves that byte behind
   * the new content, and the next `from` starts from the empty map.
   */
  lemma StaleTailLosesStore(prior: seq<byte>, m: map<string, string>)
    requires |JsonEncode.Serialize(m)| < |prior|
    requires !JsonDecode.IsWs(prior[|prior| - 1])
    ensures Load(FlushedFile(prior, JsonEncode.Serialize(m), NoFlushFault)) == map[]
  {
    var content := JsonEncode.Serialize(m);
    var tail := prior[|content|..];
    assert Overwrite(prior, content) == content + tail;
    assert tail[|tail| - 1] == prior[|prior| - 1];
    assert !JsonDecode.AllWs(tail);
    LoadSerialized(m, tail);
  }

  /**
   * As written, a flush whose content is shorter than the previous
   * serialization leaves that serialization's tail, ending in `}`, in the
   * file; the next `from` cannot parse it and starts from the empty map.
   */
  lemma ShrinkingFlushLosesStore(m0: map<string, string>, m: map<string, string>)
    requires |JsonEncode.Serialize(m)| < |JsonEncode.Serialize(m0)|
    ensures Load(FlushedFile(JsonEncode.Serialize(m0), JsonEncode.Serialize(m), NoFlushFault)) == map[]
  {
    var before := JsonEncode.Serialize(m0);
    assert before[|before| - 1] == JsonEncode.RBRACE;
    StaleTailLosesStore(before, m);
  }

  /** `File::set_len(n)`: cut the file to `n` bytes (or pad it with zero bytes). */
  function SetLen(f: seq<byte>, n: nat): (r: seq<byte>)
    ensures |r| == n
    ensures forall i :: 0 <= i < n && i < |f| ==> r[i] == f[i]
    ensures forall i :: |f| <= i < n ==> r[i] == 0
  {
    if n <= |f| then f[..n] else f + seq(n - |f|, _ => 0)
  }

  /**
   * The intended flush: the same overwrite followed by `set_len` to the
   * content's length.  Reopening then always gives back the flushed map,
   * whatever the file held before.
   */
  lemma TruncatingFlushReopens(prior: seq<byte>, m: map<string, string>)
    ensures Load(SetLen(Overwrite(prior, JsonEncode.Serialize(m)), |JsonEncode.Serialize(m)|)) == m
  {
    var content := JsonEncode.Serialize(m);
    var f := SetLen(Overwrite(prior, content), |content|);
    assert |f| == |content|;
    assert forall i :: 0 <= i < |f| ==> f[i] == content[i];
    assert f == content + [];
    LoadSerialized(m, []);
  }
}
