# tinydb record table, modelled in Dafny

tinydb is a small embedded record store. A `Database<T>` holds a set of
unique records behind a small API that returns errors instead of failing.
The API is `new`, `add_item`, `remove_item` and `query_item`. Each table
also has three configuration fields: a label, an optional save path and a
strict-duplicate flag. The persistence side resolves the save path and then
opens (removes and re-creates) the file there. Two helpers turn a missing
path and an I/O failure into the error type.

The project has four modules:

- `DbErrors` (`errors.dfy`): the `DatabaseError` taxonomy, `Result`, and the
  helpers `path_to_dberror` and `io_to_dberror`.
- `TableSpec` (`table.dfy`): the table's abstract state as a value. It holds
  the add, remove and query operations as functions and the laws about them.
  Those laws cover single steps (both policies, both outcomes, undo laws) and
  whole sequences of host operations (`Run`).
- `TinyDb` (`database.dfy`): the `Database` class. Its fields match the
  struct's. `AddItem` and `RemoveItem` update the record set in place and are
  proved equal to the `TableSpec` functions. `QueryItem`, `OpenDbPath` and
  `DumpDb` are functions that read the object. The filesystem is a parameter
  (`FileSystem`) that answers each call. The functions return the calls they
  made, in order, so "no filesystem access without a save path" can be stated.
- `TinyDbTests` (`tests.dfy`): the repository's unit tests and a
  strict-policy duplicate scenario, written as clients that rely only on the contracts.

The record set is a Dafny `set<T>`, so it can never hold two equal records.
`T(==)` stands in for Rust's `Hash + Eq`.

The doc comments of `load_db` and `dump_db` promise a default path
`[label].tinydb`. The code never derives one: a missing save path always
gives `SavePathRequired` (src/lib.rs:160-165). The model follows the code.

## Model

| member | source | states |
|---|---|---|
| DbErrors.IoToDbError | src/lib.rs:151-157 | an I/O success passes through with its value; an I/O failure becomes `IOError` with the same cause |
| DbErrors.PathToDbError | src/lib.rs:159-165 | an absent path gives `SavePathRequired`; a present path is returned unchanged |
| DbErrors.IoToDbErrorFaithful | src/lib.rs:152-157 | wrapping is injective: two different I/O outcomes never give the same database result, so the cause is never lost |
| TableSpec.Add | src/lib.rs:74-83 | the add keeps the configuration; the new set lies between the old set and the old set plus the record; on `Ok` the record is present; the only error is `DupeFound`, and the table is then unchanged |
| TableSpec.Remove | src/lib.rs:91-97 | the remove keeps the configuration; the record is absent afterwards and every other record stays; `Ok` exactly when the record was present; the only error is `ItemNotFound` |
| TableSpec.Query | src/lib.rs:100-102 | query gives `Some` exactly when the record is in the set, and what it gives equals the argument |
| TableSpec.Adds | src/lib.rs:74-83 | the add operations for a list of records: one `AddOp` per record, in the same order |
| TableSpec.AddStrictPresent | src/lib.rs:75-79 | strict policy with the record present: `DupeFound`, and the table and its size are unchanged |
| TableSpec.AddAccepted | src/lib.rs:74-83 | otherwise `Ok`: the new set is the old set plus the record, the record can be queried, the configuration is unchanged, and the size grows by one exactly when the record was new |
| TableSpec.AddLenientPresentIsNoop | src/lib.rs:81-82 | lenient policy with the record present: `Ok`, and the table is unchanged |
| TableSpec.RemovePresent | src/lib.rs:91-93 | present record: `Ok`, the new set is the old set minus the record, the size drops by exactly one, and a following query gives `None` |
| TableSpec.RemoveAbsent | src/lib.rs:94-95 | absent record: `ItemNotFound`, and the table is unchanged |
| TableSpec.RemoveUndoesAdd | src/lib.rs:74-97 | removing a new record right after adding it restores the original table |
| TableSpec.AddUndoesRemove | src/lib.rs:74-97 | adding back a record right after removing it restores the original table |
| TableSpec.RunKeepsConfig | src/lib.rs:55-102 | no sequence of add, remove and query calls changes label, save path or policy; each call gets exactly one reply; an add fails only with `DupeFound` and only under the strict policy; a remove fails only with `ItemNotFound` |
| TableSpec.RunStrictCardinality | src/lib.rs:74-97 | under the strict policy, the final size equals the initial size, plus the accepted adds, minus the accepted removes |
| TableSpec.RunAddsCollects | src/lib.rs:74-83 | under either policy, a run of adds leaves exactly the old records plus the added ones |
| TableSpec.StrictAddsAcceptEachNewRecordOnce | src/lib.rs:74-83 | under the strict policy, the number of accepted adds in a run of adds equals the number of distinct records not already present |
| TableSpec.StrictAddsAcceptExactlyTheNew | src/lib.rs:74-83 | under the strict policy, in a run of adds, an add succeeds exactly when its record was neither present at the start nor added earlier in the run; every other add gets `DupeFound` |
| TinyDb.Database.constructor | src/lib.rs:64-70 | the new table has the given label, save path and policy, and no records |
| TinyDb.Database.AddItem | src/lib.rs:74-83 | the new state and reply are `TableSpec.Add` of the old state; `DupeFound` exactly when strict and present; otherwise the set gains the record; the configuration is unchanged |
| TinyDb.Database.RemoveItem | src/lib.rs:91-97 | the new state and reply are `TableSpec.Remove` of the old state; `Ok` exactly when present, and then the set loses that record and shrinks by one; otherwise `ItemNotFound` with nothing changed |
| TinyDb.Database.QueryItem | src/lib.rs:100-102 | `Some` exactly when the record is stored, holding a record equal to the argument; it reads the table and cannot change it |
| TinyDb.Database.OpenDbPath | src/lib.rs:140-148 | without a save path: `SavePathRequired` and no filesystem call. With one, the calls are exactly, in order: the existence check, then the removal only if the file exists, then the creation only if no removal failed. The open succeeds exactly when that removal (if any) and the creation succeed, and it returns the created file. A failed removal gives `IOError` with the removal's cause; otherwise a failed creation gives `IOError` with the creation's cause |
| TinyDb.Database.DumpDb | src/lib.rs:129-137 | without a save path: `SavePathRequired` and no filesystem call; errors are only `SavePathRequired` or `IOError`. The calls are exactly those of opening the save path, followed by one write of the payload to the created file only if the open succeeded. The dump succeeds exactly when the removal (if the file existed), the creation and the write all succeed. The `IOError` carries the cause of the first failing call: removal, then creation, then write |
| TinyDbTests.ItemAdd | src/lib.rs:184-194 | adding one record to a new strict table succeeds |
| TinyDbTests.ItemRemove | src/lib.rs:197-210 | a record that was added can be removed, and is then no longer found |
| TinyDbTests.DuplicateRefused | src/lib.rs:74-79 | a second add of the same record under the strict policy gives `DupeFound`; the size stays 1; a dump without a path gives `SavePathRequired` and makes no filesystem call |
| TinyDbTests.DbDump | src/lib.rs:212-236 | after two distinct adds, the dump to `db/test.tinydb` succeeds exactly when every filesystem step succeeds |

## Left out

- `load_db` (src/lib.rs:115-117): its body is `unimplemented!()`, so there is no load behaviour or dump/load round trip to model.
- The dump payload: `any_as_u8_slice` (src/lib.rs:167-170) reinterprets the struct's raw memory. Its bytes depend on memory layout, so `DumpDb` takes the payload as a parameter.
- The filesystem itself: `exists`, `remove_file`, `File::create` and `write_all` become answers from the `FileSystem` parameter. The model records which calls are made and in what order. It does not model how a call changes the disk; for example, `pathExists` does not change after a removal.
- The default `[label].tinydb` path in the doc comments: the code does not implement it.
- `update_item` and `read_db`: the doc comments name them (src/lib.rs:50, 52), but the code has neither.
- Hashing and `HashSet` internals: uniqueness is equality on an abstract Dafny set.
- The contents of `std::io::Error`: `IoCause` carries a description that nothing inspects.
- TinyDb.Database.QueryItem: Rust's `get` returns the stored instance. That instance is equal under `Eq` but may differ in fields that `Eq` ignores. Dafny's equality is structural, so the model returns a record equal to the argument and does not tell the two instances apart.
- The field `label` is named `name`, because `label` is a Dafny keyword.
- `query_item` takes `&mut self` but only reads, so `QueryItem` is a function that reads the object; `OpenDbPath` and `DumpDb` read only the save path.
