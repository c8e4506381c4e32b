/** The scenarios of the repository's unit tests, and a strict-policy
    duplicate scenario, as clients that rely only on the contracts. */
module TinyDbTests {
  import opened DbErrors
  import opened TinyDb

  datatype DemoStruct = DemoStruct(name: string, age: int)

  /** A strict table without a path accepts a new record. */
  method ItemAdd() returns (r: Result<()>)
    ensures r == Ok(())
  {
    var db := new Database<DemoStruct>("Adding test", None, true);
    r := db.AddItem(DemoStruct("John", 16));
  }

  /** A record that was added can be removed, after which it is gone. */
  method ItemRemove() returns (r: Result<()>, found: Option<DemoStruct>)
    ensures r == Ok(()) && found == None
  {
    var db := new Database<DemoStruct>("Adding test", None, true);
    var xander := DemoStruct("Xander", 33);
    r := db.AddItem(xander);
    assert r.Ok?;
    r := db.RemoveItem(xander);
    found := db.QueryItem(xander);
  }

  /** Adding the same record twice under the strict policy is refused the
      second time and the table keeps one record; dumping it without a save
      path fails before any filesystem call. */
  method DuplicateRefused(fs: FileSystem) returns (second: Result<()>, size: nat, dump: (Result<()>, seq<FsCall>))
    ensures second == Err(DupeFound) && size == 1
    ensures dump == (Err(SavePathRequired), [])
  {
    var db := new Database<DemoStruct>("Adding test", None, true);
    var john := DemoStruct("John", 16);
    var first := db.AddItem(john);
    assert db.items == {john};
    second := db.AddItem(john);
    size := |db.items|;
    dump := db.DumpDb(fs, []);
  }

  /** Two distinct records are both accepted; dumping to the save path then
      succeeds exactly when the filesystem lets every step succeed. */
  method DbDump(fs: FileSystem, payload: seq<bv8>) returns (dump: Result<()>)
    ensures dump.Ok? <==>
      && (fs.pathExists("db/test.tinydb") ==> fs.removeFile("db/test.tinydb").IoOk?)
      && fs.create("db/test.tinydb").IoOk?
      && fs.writeAll(fs.create("db/test.tinydb").value, payload).IoOk?
  {
    var db := new Database<DemoStruct>("Adding test", Some("db/test.tinydb"), true);
    var r := db.AddItem(DemoStruct("Xander", 33));
    assert r.Ok?;
    r := db.AddItem(DemoStruct("John", 54));
    assert r.Ok?;
    var (result, _) := db.DumpDb(fs, payload);
    dump := result;
  }
}
