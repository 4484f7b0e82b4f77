/**
 * The unit tests of `src/lib.rs` as client methods whose postconditions
 * are the tests' assertions, plus the scenario that shows a flush which
 * shrinks the file losing the store on the next open.
 */
module KvScenarios {
  import opened Wrappers
  import opened Utf8
  import JsonEncode
  import JsonDecode
  import opened KvStore
  import opened KvDatabase

  /** `it_opens_a_database`: opening succeeds whatever the file holds, even nothing or garbage. */
  method OpensADatabase(existing: Option<seq<byte>>) returns (ok: bool, empty: bool)
    ensures ok
    ensures existing.None? ==> empty
    ensures existing.Some? && JsonDecode.Parse(existing.value) == None ==> empty
  {
    var db := Database.Open(existing, NoOpenFault);
    ok := db.Success?;
    LoadEmptyFile();
    empty := db.Success? && db.value.storage.data == map[];
  }

  /** `it_sets_deletes_and_gets_values`, on any file. */
  method SetsDeletesAndGets(existing: Option<seq<byte>>) returns (setOk: bool, afterSet: Option<string>, afterDel: Option<string>)
    ensures setOk && afterSet == Some("haha") && afterDel == None
  {
    var handle := Database.Open(existing, NoOpenFault);
    var db := handle.value;
    var r := db.Set("xixi", "haha");
    setOk := r.Success?;
    afterSet := db.Get("xixi");
    var _ := db.Del("xixi");
    afterDel := db.Get("xixi");
  }

  /** `it_persists_data`, on a file that does not exist yet. */
  method PersistsData() returns (xixi: Option<string>, big: Option<string>, hehe: Option<string>)
    ensures xixi == Some("haha")
    ensures big == Some("BBBBBBiiiiiigggggggggg")
    ensures hehe == Some("heihei")
  {
    var handle := Database.Open(None, NoOpenFault);
    var db := handle.value;
    var _ := db.Set("xixi", "haha");
    var _ := db.Set("somethingBig", "BBBBBBiiiiiigggggggggg");
    var _ := db.Set("hehe", "heihei");
    ghost var stored := db.storage.data;
    assert Lookup(stored, "xixi") == Some("haha");
    assert Lookup(stored, "somethingBig") == Some("BBBBBBiiiiiigggggggggg");
    assert Lookup(stored, "hehe") == Some("heihei");
    assert db.storage.file == [];
    var again := CloseAndReopen(db);
    var db2 := again.value;
    xixi := db2.Get("xixi");
    big := db2.Get("somethingBig");
    hehe := db2.Get("hehe");
  }

  /**
   * A value is made shorter and the handle dropped: the file keeps the old
   * final `}` behind the new content, so the next open finds no entry,
   * not even the one just written.
   */
  method ShrinkingFlushLosesEntries() returns (reread: Option<string>)
    ensures reread == None
  {
    var first := Database.Open(None, NoOpenFault);
    var db := first.value;
    var _ := db.Set("a", "bb");
    var reopened := CloseAndReopen(db);
    db := reopened.value;
    var _ := db.Set("a", "b");
    assert db.storage.data == map["a" := "b"];
    ghost var prior := db.storage.file;
    assert prior == JsonEncode.Serialize(map["a" := "bb"]);
    var _ := db.Close(NoFlushFault);
    ShrinkExampleLosesStore();
    var last := Database.Open(Some(db.storage.file), NoOpenFault);
    reread := last.value.Get("a");
  }

  /**
   * `it_persists_data` on a file left over from earlier runs that does not
   * parse, is longer than the test's serialization and does not end in
   * whitespace: the reopen reads none of the three values.
   */
  method PersistsDataOnLongLeftover(leftover: seq<byte>) returns (xixi: Option<string>, big: Option<string>, hehe: Option<string>)
    requires JsonDecode.Parse(leftover) == None
    requires |leftover| > |JsonEncode.Serialize(TestEntries())|
    requires !JsonDecode.IsWs(leftover[|leftover| - 1])
    ensures xixi == None && big == None && hehe == None
  {
    var flushed := WriteTestEntriesOver(leftover);
    LeftoverFlushLoadsEmpty(leftover);
    var again := Database.Open(Some(flushed), NoOpenFault);
    var db2 := again.value;
    xixi := db2.Get("xixi");
    big := db2.Get("somethingBig");
    hehe := db2.Get("hehe");
  }

  lemma LeftoverFlushLoadsEmpty(leftover: seq<byte>)
    requires |leftover| > |JsonEncode.Serialize(TestEntries())|
    requires !JsonDecode.IsWs(leftover[|leftover| - 1])
    ensures Load(FlushedFile(leftover, JsonEncode.Serialize(TestEntries()), NoFlushFault)) == map[]
  {
    StaleTailLosesStore(leftover, TestEntries());
  }

  /**
   * The first half of `it_persists_data` on an unparsable leftover file:
   * open, set the three entries, drop.  Returns the file as the drop leaves it.
   */
  method WriteTestEntriesOver(leftover: seq<byte>) returns (flushed: seq<byte>)
    requires JsonDecode.Parse(leftover) == None
    ensures flushed == FlushedFile(leftover, JsonEncode.Serialize(TestEntries()), NoFlushFault)
  {
    var handle := Database.Open(Some(leftover), NoOpenFault);
    var db := handle.value;
    LoadUnparsable(leftover);
    SetTestEntries(db);
    var _ := db.Close(NoFlushFault);
    flushed := db.storage.file;
  }

  /** The three `set` calls of `it_persists_data`, on an empty store. */
  method SetTestEntries(db: Database)
    requires !db.dropped && db.storage.data == map[]
    modifies db.storage
    ensures db.storage.data == TestEntries() && db.storage.file == old(db.storage.file)
  {
    var _ := db.Set("xixi", "haha");
    var _ := db.Set("somethingBig", "BBBBBBiiiiiigggggggggg");
    var _ := db.Set("hehe", "heihei");
  }

  /** The three entries `it_persists_data` sets. */
  function TestEntries(): (m: map<string, string>)
    ensures m.Keys == {"xixi", "somethingBig", "hehe"}
  {
    map["xixi" := "haha", "somethingBig" := "BBBBBBiiiiiigggggggggg", "hehe" := "heihei"]
  }

  /** The serialization of a one-entry map: `{"k":"v"}`. */
  lemma SingletonSerialized(k: string, v: string)
    ensures JsonEncode.Serialize(map[k := v]) == JsonEncode.ObjectBytes([(k, v)])
  {
    var es := JsonEncode.Entries(map[k := v]);
    assert |es| == 1 && es[0].0 == k && es[0].1 == v;
    assert es == [(k, v)];
  }

  /** The concrete instance: `{"a":"b"}` written over `{"a":"bb"}` leaves `{"a":"b"}}`, which does not parse. */
  lemma ShrinkExampleLosesStore()
    ensures Load(FlushedFile(JsonEncode.Serialize(map["a" := "bb"]), JsonEncode.Serialize(map["a" := "b"]), NoFlushFault)) == map[]
  {
    ShorterValueShorterFile();
    ShrinkingFlushLosesStore(map["a" := "bb"], map["a" := "b"]);
  }

  lemma ShorterValueShorterFile()
    ensures |JsonEncode.Serialize(map["a" := "b"])| < |JsonEncode.Serialize(map["a" := "bb"])|
  {
    SingletonSerialized("a", "b");
    SingletonSerialized("a", "bb");
    assert JsonEncode.EscapeChars("b") == [0x62];
    assert JsonEncode.EscapeChars("bb") == [0x62, 0x62] by {
      assert "bb"[1..] == "b";
    }
  }
}
