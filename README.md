# A JSON-file key/value store, modelled in Dafny

The library is a small persistent string-to-string store. A `Database<S>`
handle owns one storage backend. Through `Deref`/`DerefMut` it forwards
`get`, `set`, `del` and `flush` to that backend, and it flushes the backend
once when dropped. The one backend is `JSONStorage`, which has two parts:

- a file;
- a `BTreeMap<String, String>` that holds the data in memory.

`from` opens the file, creating it if needed, and starts from the file's
parsed JSON content. When that content does not parse or cannot be read, it
starts from the empty map. `set`, `del` and `get` work on the map only.
`flush` seeks to offset 0, writes the compact JSON serialization of the map
and flushes the file.

The model has these modules:

- `KvStore`: the class `JsonStorage`, with fields `data` (a `map`) and `file`
  (the file's bytes), and its operations as methods.
  - Each operation's postcondition states the new map and the new file.
  - The file after a flush is given by the function `FlushedFile`. It
    overwrites the start of the file without truncating it.
- `KvDatabase`: the class `Database`.
  - It owns a `JsonStorage` and forwards every call to it.
  - `Close` is its `Drop`: it flushes once and marks the handle dropped.
  - `Open` is the library's `open`.
- `JsonEncode` and `JsonDecode`: the JSON that the store writes and reads,
  written out concretely, as far as this store uses it.
  - Writing follows serde_json's `to_vec` for a `BTreeMap<String, String>`:
    - the output is compact;
    - keys come in `BTreeMap` order;
    - the escapes are `\"`, `\\`, `\b`, `\t`, `\n`, `\f` and `\r`;
    - other control characters become `\u00xx`, with lowercase hex digits;
    - all other characters are written as UTF-8.
  - Reading follows serde_json's `from_reader` into that map type:
    - whitespace is space, tab, LF and CR;
    - the input is an object whose members are all strings;
    - every JSON escape is accepted, including `\/` and `\uXXXX` with
      surrogate pairs;
    - a lone surrogate is an error, and so is a raw control character;
    - strings must be strict UTF-8;
    - trailing whitespace is allowed, and any other trailing byte is an error;
    - when a key appears twice, the last value wins.
- `Utf8` and `KeyOrder`: UTF-8 for one character, and the code-point order
  that `BTreeMap<String, _>` iterates in.
  - For UTF-8 this order is the same as byte order, and it is total.
- `JsonLaws`: the round trip between the two, including the case where other
  bytes follow the serialization.
- `KvScenarios`: the crate's three unit tests (src/lib.rs:104-146) as
  methods. Each test's assertions are the method's postconditions.
  - A fourth method shows that the file written by `flush` can be unreadable
    on the next open (see Findings).

The outcome of each I/O call is a parameter:

- `OpenFault` covers `open`, reading the file, and `try_clone`;
- `FlushFault` covers the seek and a `write_all` that stops after some
  bytes. The final `File::flush` always succeeds, so it has no fault.

The content of an existing file is a parameter of `From`/`Open`.

The code (src/lib.rs:72-77) does not truncate, so a shorter serialization
leaves the old tail behind. `JsonStorage.Flush` follows the code, and the
consequence is recorded under Findings.

## Model

| member | source | states |
|---|---|---|
| KvStore.Load | src/lib.rs:60-64 | A definition: the parsed content, or the empty map when it does not parse. Its meaning is given by `KvStore.LoadSerialized`, `KvStore.LoadUnparsable` and `KvStore.LoadEmptyFile`. |
| KvStore.FlushedFile | src/lib.rs:73-76 | The file after `flush` for each outcome. It never gets shorter. A failing seek leaves it unchanged, and a successful flush starts with the whole content. The bytes are fixed by `KvStore.Overwrite`. |
| JsonDecode.Parse | src/lib.rs:60 | A definition: `from_reader` into a `BTreeMap<String, String>`. Its meaning is given by `JsonLaws.ParseSerialized` and `JsonLaws.ParseEmptyFails`. |
| JsonEncode.Serialize | src/lib.rs:74 | `to_vec` of the map: one object, starting with `{` and ending with `}`. Its inverse is stated by `JsonLaws.ParseSerializeRoundTrip`. |
| KvStore.JsonStorage.From | src/lib.rs:58-70 | Fails exactly when `open` or `try_clone` fails. Otherwise the handle has the file's bytes (none for a new file). Its map is the empty map if reading fails, and otherwise the parsed content or the empty map. |
| KvStore.JsonStorage.constructor | src/lib.rs:66-69 | The storage holds exactly the given map and file. |
| KvStore.JsonStorage.Get | src/lib.rs:79-81 | Reads only the object. It returns `Some` exactly when the key is in the map, and then it holds the value stored under the key. |
| KvStore.JsonStorage.Set | src/lib.rs:88-91 | Always succeeds. The map gets the key bound to the value, and the file is untouched. `Get` of that key then returns the value, and every other key reads as before. |
| KvStore.JsonStorage.Del | src/lib.rs:83-86 | Always succeeds. The key is removed, and deleting an absent key changes nothing. The file is untouched. `Get` of that key returns `None`, and every other key reads as before. |
| KvStore.JsonStorage.Flush | src/lib.rs:72-77 | The map is unchanged. The file becomes `FlushedFile(old file, Serialize(map), fault)`. It succeeds exactly when no I/O call fails. |
| KvStore.JsonStorage.WriteFromStart | src/lib.rs:75 | Writing bytes one at a time from offset 0 leaves the file equal to `Overwrite(old file, the bytes written)`. |
| KvStore.Overwrite | src/lib.rs:73-76 | A write from offset 0 with no truncation. The length becomes max(old length, content length). The prefix is the content, and old bytes past the content stay. |
| KvStore.WriteByteAt | src/lib.rs:75 | Writing one byte at a position inside the file or at its end sets that byte. The file grows only at the end, and no other byte changes. |
| KvStore.OverwriteExtend | src/lib.rs:75 | Writing one more byte after an overwritten prefix equals overwriting with the longer prefix. |
| KvStore.Lookup | src/lib.rs:79-81 | `BTreeMap::get`: `Some` exactly when the key is present, and then it holds the key's value. |
| KvStore.LoadEmptyFile | src/lib.rs:58-64 | A newly created, empty file opens as the empty map. |
| KvStore.LoadUnparsable | src/lib.rs:60-64 | Content that does not parse opens as the empty map. |
| KvStore.LoadSerialized | src/lib.rs:60-64 | A serialized map followed by other bytes loads as that map when those bytes are all whitespace, and as the empty map otherwise. |
| KvStore.FlushTwiceSameBytes | src/lib.rs:73-76 | Flushing the same content twice leaves the same bytes as flushing it once. |
| KvStore.ReopenAfterFlush | src/lib.rs:58-76 | After a successful flush whose content is at least as long as the old file, the file loads back as the flushed map. |
| KvStore.StaleTailLosesStore | src/lib.rs:73-76 | A flush over a longer file whose last byte is not whitespace leaves a file that loads as the empty map, whatever that file held. |
| KvStore.ShrinkingFlushLosesStore | src/lib.rs:73-76 | A flush of a shorter serialization over a longer one leaves a file that loads as the empty map. |
| KvStore.SetLen | src/lib.rs:73-76 | `set_len`: the file gets exactly the requested length and keeps its bytes up to there. Any padding is zero bytes. |
| KvStore.TruncatingFlushReopens | src/lib.rs:73-76 | The corrected flush (overwrite, then `set_len` to the content length) always loads back as the flushed map, whatever the file held before. |
| KvDatabase.Database.Open | src/lib.rs:94-96 | Fails exactly when the backend's `from` fails. Otherwise it returns a live handle on a fresh backend, with `from`'s file and map. |
| KvDatabase.Database.constructor | src/lib.rs:95 | The handle owns the given storage and is live. |
| KvDatabase.Database.Get | src/lib.rs:29-35 | Forwards to the backend: the value that the backend's map holds under the key. |
| KvDatabase.Database.Set | src/lib.rs:37-41 | Forwards to the backend: always succeeds, binds the key, and leaves the file untouched. |
| KvDatabase.Database.Del | src/lib.rs:37-41 | Forwards to the backend: always succeeds, removes the key, and leaves the file untouched. |
| KvDatabase.Database.Flush | src/lib.rs:37-41 | Forwards to the backend's flush, with the same new file and the same outcome. |
| KvDatabase.Database.Close | src/lib.rs:23-27 | Drop: the backend is flushed once and the handle is then gone. The map is unchanged and the file is the flushed file. It succeeds exactly when the flush does. |
| KvDatabase.CloseAndReopen | src/lib.rs:23-27 | Dropping a handle and opening the same file again gives a handle whose map is the old map, and every key reads as before. The file must not have been longer than the serialization. |
| JsonLaws.ParseSerialized | src/lib.rs:60 | Parsing a serialized map followed by a tail gives the map when the tail is whitespace, and fails otherwise. |
| JsonLaws.ParseSerializeRoundTrip | src/lib.rs:74 | `from_reader` of `to_vec(m)` gives back `m`. |
| JsonLaws.ParseEmptyFails | src/lib.rs:60 | An empty file does not parse. |
| JsonLaws.EscapedCharRoundTrip | src/lib.rs:74 | Every character's escaped form is read back as that character. |
| JsonLaws.StringBodyRoundTrip | src/lib.rs:74 | Every string's escaped form, followed by a closing quote, is read back as that string. |
| JsonLaws.MembersRoundTrip | src/lib.rs:74 | The comma-separated members of an object are read back as the same list of pairs, in order. |
| JsonLaws.ObjectRoundTrip | src/lib.rs:74 | A written object, followed by any bytes, is read back as its member list with exactly those bytes left over. |
| JsonLaws.FromEntries | src/lib.rs:60 | Building a map from the serialized entries gives back the original map. |
| JsonEncode.Entries | src/lib.rs:74 | The map's entries in `BTreeMap` order: each key once, with its value, strictly increasing, and no other pairs. |
| JsonEncode.EscapeChar | src/lib.rs:74 | An escaped character never starts with a quote. It starts with a backslash exactly for `"`, `\` and control characters. |
| KeyOrder.SortedKeys | src/lib.rs:44-46 | The keys of a `BTreeMap`, listed once each in strictly increasing code-point order. |
| Utf8.DecodeEncoded | src/lib.rs:60 | Strict UTF-8 decoding gives back every encoded character and leaves the following bytes as they were. |
| KvScenarios.OpensADatabase | src/lib.rs:104-108 | Opening succeeds whatever the file holds. A missing or unparsable file gives the empty store. |
| KvScenarios.SetsDeletesAndGets | src/lib.rs:110-125 | Set succeeds, get returns the value, and after del, get returns `None`, whatever the file held. |
| KvScenarios.PersistsData | src/lib.rs:127-146 | Three values set, the handle dropped and the file reopened: all three read back. |
| KvScenarios.PersistsDataOnLongLeftover | src/lib.rs:127-146 | The test's steps on a leftover file that does not parse, is longer than the test's serialization and whose last byte is not whitespace: after the reopen, none of `xixi`, `somethingBig` and `hehe` reads back. |
| KvScenarios.WriteTestEntriesOver | src/lib.rs:128-135 | Opening such an unparsable leftover, setting the test's three entries and dropping the handle leaves the flush of exactly those three entries over the leftover. |
| KvScenarios.SetTestEntries | src/lib.rs:131-133 | The test's three `set` calls on an empty store give exactly its three entries and leave the file untouched. |
| KvScenarios.LeftoverFlushLoadsEmpty | src/lib.rs:73-76 | Flushing the test's entries over a longer file whose last byte is not whitespace leaves a file that loads as the empty map. |
| KvScenarios.TestEntries | src/lib.rs:131-133 | The map the test sets has exactly the keys `xixi`, `somethingBig` and `hehe`. |
| KvScenarios.ShrinkingFlushLosesEntries | src/lib.rs:73-76 | Shortening a value and dropping the handle leaves a file from which the next open reads no entry at all. |
| KvScenarios.ShrinkExampleLosesStore | src/lib.rs:73-76 | `{"a":"b"}` written over `{"a":"bb"}` leaves a file that opens as the empty map. |

## Left out

- Files and the file system are not modelled. A file is its byte content, and whether each I/O call succeeds is a parameter. The file is created on disk even when a later `try_clone` fails, and the model does not capture that.
- The file cursor is not modelled separately. It matters only to `flush`, which always seeks to offset 0 first.
- The `Storage` trait (src/lib.rs:13-21) is not modelled as a generic interface. `Database` is specialised to `JsonStorage`, the crate's one implementation. The trait's contract appears as the postconditions of `JsonStorage`'s methods.
- `Deref`/`DerefMut` (src/lib.rs:29-41) are modelled as forwarding methods on `Database`.
- The `expect` panics are modelled as returned results, not as aborts:
  - `KvDatabase.Database.Close`: a failing flush in `drop` panics in the source; here `Close` returns the `Failure`;
  - `JsonStorage.Flush`: `to_vec` of a string map cannot fail, so its `expect` has no counterpart.
- The `Debug` implementation (src/lib.rs:48-55) is left out, because it only formats output.
- The path argument is left out. The file is given as its content, and no two handles share a file.
- Borrowing (`&str`, `Option<&str>`) is modelled as values.
- serde_json is represented only by the subset this store uses: objects whose members are all strings. Its recursion limit, numbers and other value kinds, and its error messages are not modelled, because a map of strings never meets them. Any input outside that subset does not parse, just as `from_reader` into a `BTreeMap<String, String>` rejects it.
- `KvStore.ReopenAfterFlush` and `KvDatabase.CloseAndReopen` require the new serialization to be at least as long as the old file. Without that, the round trip does not hold for the code as written (see Findings).
- `KvStore.JsonStorage.Flush` models `write_all` stopping partway as a parameter, `WriteFails(n)`. It says nothing about what the operating system does with a partial write beyond that prefix.
- `KvStore.JsonStorage.Flush` also accepts `WriteFails(n)` with `n` at least the content's length. That is a failure after every byte was written, which `write_all` never reports. The model then has the whole content written and the call failing, so it allows one more failure than the source has.
- `KvScenarios.PersistsData` is proved only when the test's file does not exist yet. The test uses the fixed path `./shit.db` (src/lib.rs:102), which earlier runs and the other tests also write. A leftover file that does not parse, is longer than the serialization and whose last byte is not whitespace keeps a stale tail, and then the reopen reads nothing (`KvScenarios.PersistsDataOnLongLeftover`; see Findings).

## Findings

| source | as written | input that shows it | evidently intended | confidence | as-written member | corrected member |
|---|---|---|---|---|---|---|
| src/lib.rs:72-77 | `flush` seeks to 0 and writes the new serialization but never truncates. When the new content is shorter, the end of the old content stays behind it. | The file holds `{"a":"bb"}` and the map is `{"a": "b"}`. After the flush the file holds `{"a":"b"}}`. The next `from` fails to parse it and starts from an empty map, so every entry is lost. | The file holds exactly the new serialization (truncate with `set_len` to its length), so that reopening always reads back the flushed map. | not executed; high | KvStore.ShrinkingFlushLosesStore | KvStore.TruncatingFlushReopens |
