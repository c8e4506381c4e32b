/** The record table as a mutable object: configuration fields the host may
    read and set, the record set that add and remove update in place, and
    the path-resolution and dump steps, whose filesystem is a parameter. */
module TinyDb {
  import opened DbErrors
  import opened TableSpec

  /** An open file; what it refers to on disk is not modelled. */
  datatype FileHandle = FileHandle(id: nat)

  /** A filesystem call the table makes, in the order it makes them. */
  datatype FsCall =
    | Exists(path: Path)
    | RemoveFile(path: Path)
    | Create(path: Path)
    | WriteAll(file: FileHandle, bytes: seq<bv8>)

  /** The answers the filesystem gives to each kind of call. */
  datatype FileSystem = FileSystem(
    pathExists: Path -> bool,
    removeFile: Path -> IoResult<()>,
    create: Path -> IoResult<FileHandle>,
    writeAll: (FileHandle, seq<bv8>) -> IoResult<()>)

  /** The removal of an existing file at the path fails. */
  predicate RemoveFails(fs: FileSystem, p: Path)
  {
    fs.pathExists(p) && fs.removeFile(p).IoErr?
  }

  /** Every step of opening the path succeeds: the removal, when a file
      exists there, and the creation. */
  predicate OpenSucceeds(fs: FileSystem, p: Path)
  {
    !RemoveFails(fs, p) && fs.create(p).IoOk?
  }

  class Database<T(==)> {
    var name: string
    var savePath: Option<Path>
    var strictDupes: bool
    var items: set<T>

    /** The abstract state of this table. */
    function View(): (t: Table<T>)
      reads this
    {
      Table(name, savePath, strictDupes, items)
    }

    /** A fresh, empty table with the given configuration. */
    constructor (name: string, savePath: Option<Path>, strictDupes: bool)
      ensures this.name == name && this.savePath == savePath && this.strictDupes == strictDupes
      ensures items == {}
    {
      this.name := name;
      this.savePath := savePath;
      this.strictDupes := strictDupes;
      items := {};
    }

    method AddItem(item: T) returns (r: Result<()>)
      modifies this
      ensures (View(), r) == Add(old(View()), item)
      ensures name == old(name) && savePath == old(savePath) && strictDupes == old(strictDupes)
      ensures r == Err(DupeFound) <==> old(strictDupes) && item in old(items)
      ensures r.Err? ==> r.error == DupeFound && items == old(items)
      ensures r.Ok? ==> items == old(items) + {item}
    {
      if strictDupes {
        if item in items {
          return Err(DupeFound);
        }
      }
      items := items + {item};
      return Ok(());
    }

    method RemoveItem(item: T) returns (r: Result<()>)
      modifies this
      ensures (View(), r) == Remove(old(View()), item)
      ensures name == old(name) && savePath == old(savePath) && strictDupes == old(strictDupes)
      ensures r.Ok? <==> item in old(items)
      ensures r.Ok? ==> items == old(items) - {item} && |items| == |old(items)| - 1
      ensures r.Err? ==> r.error == ItemNotFound && items == old(items)
    {
      if item in items {
        items := items - {item};
        r := Ok(());
      } else {
        r := Err(ItemNotFound);
      }
    }

    /** query_item: the stored record equal to the argument, if any. Being a
        function, it cannot change the table. */
    function QueryItem(item: T): (r: Option<T>)
      reads this
      ensures r.Some? <==> item in items
      ensures r.Some? ==> r.value == item
    {
      Query(View(), item)
    }

    /** open_db_path: resolve the save path (no filesystem call at all when
        it is absent), remove an existing file there, then create it. The
        result comes with the filesystem calls made, in order. */
    function OpenDbPath(fs: FileSystem): (r: (Result<FileHandle>, seq<FsCall>))
      reads this
      ensures r.0 == Err(SavePathRequired) <==> savePath.None?
      ensures savePath.None? ==> r.1 == []
      ensures savePath.Some? ==> |r.1| > 0 && r.1[0] == Exists(savePath.value)
      ensures forall c :: c in r.1 ==> !c.WriteAll? && c.path == savePath.value
      ensures savePath.Some? ==> (RemoveFile(savePath.value) in r.1 <==> fs.pathExists(savePath.value))
      ensures savePath.Some? ==>
        r.1 == [Exists(savePath.value)]
               + (if fs.pathExists(savePath.value) then [RemoveFile(savePath.value)] else [])
               + (if RemoveFails(fs, savePath.value) then [] else [Create(savePath.value)])
      ensures savePath.Some? ==> (r.0.Ok? <==> OpenSucceeds(fs, savePath.value))
      ensures savePath.Some? && RemoveFails(fs, savePath.value) ==>
        r.0 == Err(IOError(fs.removeFile(savePath.value).cause))
      ensures savePath.Some? && !RemoveFails(fs, savePath.value) && fs.create(savePath.value).IoErr? ==>
        r.0 == Err(IOError(fs.create(savePath.value).cause))
      ensures r.0.Ok? ==>
        && fs.create(savePath.value) == IoOk(r.0.value)
        && r.1[|r.1| - 1] == Create(savePath.value)
    {
      match PathToDbError(savePath)
      case Err(e) => (Err(e), [])
      case Ok(p) =>
        if fs.pathExists(p) then
          match IoToDbError(fs.removeFile(p))
          case Err(e) => (Err(e), [Exists(p), RemoveFile(p)])
          case Ok(_) => (IoToDbError(fs.create(p)), [Exists(p), RemoveFile(p), Create(p)])
        else
          (IoToDbError(fs.create(p)), [Exists(p), Create(p)])
    }

    /** dump_db: open the save path, then write the payload to the new file.
        The payload's bytes are a parameter. */
    function DumpDb(fs: FileSystem, payload: seq<bv8>): (r: (Result<()>, seq<FsCall>))
      reads this
      ensures savePath.None? ==> r == (Err(SavePathRequired), [])
      ensures r.0.Err? ==> r.0.error == SavePathRequired || r.0.error.IOError?
      ensures r.0.Ok? <==>
        && savePath.Some?
        && OpenSucceeds(fs, savePath.value)
        && fs.writeAll(fs.create(savePath.value).value, payload).IoOk?
      ensures savePath.Some? && RemoveFails(fs, savePath.value) ==>
        r.0 == Err(IOError(fs.removeFile(savePath.value).cause))
      ensures savePath.Some? && !RemoveFails(fs, savePath.value) && fs.create(savePath.value).IoErr? ==>
        r.0 == Err(IOError(fs.create(savePath.value).cause))
      ensures savePath.Some? && OpenSucceeds(fs, savePath.value)
              && fs.writeAll(fs.create(savePath.value).value, payload).IoErr? ==>
        r.0 == Err(IOError(fs.writeAll(fs.create(savePath.value).value, payload).cause))
      ensures (exists c :: c in r.1 && c.WriteAll?) <==> savePath.Some? && OpenSucceeds(fs, savePath.value)
      ensures r.1 == OpenDbPath(fs).1 +
        (if savePath.Some? && OpenSucceeds(fs, savePath.value)
         then [WriteAll(fs.create(savePath.value).value, payload)] else [])
      ensures r.0.Ok? ==>
        && Create(savePath.value) in r.1
        && r.1[|r.1| - 1] == WriteAll(fs.create(savePath.value).value, payload)
    {
      var (file, calls) := OpenDbPath(fs);
      match file
      case Err(e) => (Err(e), calls)
      case Ok(f) =>
        var write := WriteAll(f, payload);
        assert write in calls + [write];
        (IoToDbError(fs.writeAll(f, payload)), calls + [write])
    }
  }
}
