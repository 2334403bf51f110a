# In-memory book store

A model of the book catalog's data store: an ordered slice of book records,
an index from book id to slice position, and a counter holding the last id
handed out. `AddBook` allocates the next id, builds a record whose creation
and update times are the same, appends it and records its position;
`GetBooks` returns the slice; `GetBook` looks an id up through the index;
`RemoveBook` deletes the slot the index names and retires the id;
`UpdateBook` overwrites name, author and update time of the record the index
names. The only store error is `ErrBookNotFound`.

Layout:

- `books.dfy`, module `Books`: the `Book` record and `NewBook`.
- `store.dfy`, module `Store`: the store's state as a value (`DBState`), one
  function per operation giving the next state and the returned value, the
  invariants `WellFormed` (holds in every reachable state) and `Consistent`
  (slice and index agree), and the lemmas about single operations and about
  runs of operations (`Op`, `Next`, `Run`, `AddedIds`).
- `db.dfy`, module `Database`: the class `DB` with fields `books`, `index`
  and `lastBookID`, whose methods update them in place and whose contracts
  tie the new state to the `Store` functions.

The removal is modelled as the code does it: `slices.Delete` closes the gap
in the slice, but the index entries of the records after the removed one are
not moved down. The design description of the store says those entries are
re-indexed; the model follows the code. As a result the index stays
consistent with the slice only while no removal has happened or when the
removed record was the last one (`Store.RemoveConsistentIffLast`). An index
entry that then points past the end of the slice makes `db.books[index]` and
`slices.Delete` panic in Go; the model returns `Err(IndexOutOfRange)` for it
and changes nothing, since in each of the three places the panic comes before
any write. An entry that points at another record's slot is followed as the
code does, so `GetBook`, `UpdateBook` and `RemoveBook` then act on that other
record; for `RemoveBook` this silently deletes the wrong record
(`Store.RemoveWrongRecordAsWritten`).

Timestamps are integers passed in as the `now` parameter in place of the
clock.

## Model

| member | source | states |
|---|---|---|
| `Books.NewBook` | books.go:13-21 | the record carries the given id, name, author and creation time, and its update time equals its creation time |
| `Store.Empty` | db.go:21-32 | a new store is well formed and consistent, and every lookup in it is `ErrBookNotFound` |
| `Store.NewBookID` | db.go:34-42 | the id is the last one plus one and becomes the last one; in a well-formed store it is in neither the index nor the slice |
| `Store.AddBook` | db.go:44-54 | one record appended at the end with the next id, the given name and author, equal timestamps; the index gains that id at the old length; the new record is found by its id |
| `Store.GetBook` | db.go:64-74 | `ErrBookNotFound` exactly when the id is not indexed; otherwise the record at the indexed position, or the out-of-range panic; on a consistent store it succeeds exactly for indexed ids and returns the record with that id |
| `Store.RemoveBook` | db.go:76-91 | absent id: `ErrBookNotFound` and nothing changes; present id: exactly the indexed slot is deleted with later records shifted down in order, the id leaves the index, every other index entry is unchanged, the counter is unchanged |
| `Store.UpdateBook` | db.go:93-113 | absent id: `ErrBookNotFound` and nothing changes; present id: the indexed record gets the new name, author and update time and keeps its id and creation time, all other slots, the index and the counter are unchanged; on a consistent store the updated record has the requested id |
| `Store.DeleteKeepsIdsDistinct` | db.go:86 | deleting one slot keeps the stored ids distinct and allocated |
| `Store.AddPreservesConsistent` | db.go:50-51 | adding to a consistent store leaves it consistent |
| `Store.UpdatePreservesConsistent` | db.go:101-110 | updating keeps ids and positions, so a consistent store stays consistent |
| `Store.RemoveConsistentIffLast` | db.go:84-88 | on a consistent store a removal of an indexed id succeeds, and the store stays consistent if and only if the removed record was the last one |
| `Store.NextPreservesWellFormed` | db.go:34-113 | every operation keeps the ids allocated by the counter and pairwise distinct |
| `Store.NextKeepsTimestampsOrdered` | db.go:104-106 | every operation keeps creation time no later than update time, provided an update's clock reading is not earlier than any stored creation time (an addition needs no such bound) |
| `Store.NextCounter` | db.go:38-39 | only an addition moves the counter, and by exactly one |
| `Store.RunPreservesWellFormed` | db.go:34-113 | any sequence of operations keeps the store well formed |
| `Store.AddedIdsNoGaps` | db.go:34-42 | the ids a run of operations hands out are the counter's next values, consecutive and without gaps |
| `Store.AddedIdsIncrease` | db.go:38-39 | handed-out ids strictly increase and exceed the starting counter, so none repeats |
| `Store.RetiredIdStaysRetired` | db.go:88 | an allocated id missing from the index never returns to it, whatever operations follow |
| `Store.RemovedIdNeverReturns` | db.go:76-91 | after a successful removal the id is never handed out again and looking it up stays `ErrBookNotFound` |
| `Store.RemoveScenarioAsWritten` | db.go:84-88 | two additions get ids 1 and 2; removing 1 leaves only the second record listed, id 1 is not found, the next id is 3, and looking up 2 hits the out-of-range panic |
| `Store.RemoveWrongRecordAsWritten` | db.go:84-88 | after three additions and the removal of id 1, removing id 2 succeeds but deletes the record with id 3: the record with id 2 stays listed and is not found by its id, and id 3 is indexed past the end of the slice |
| `Store.ShiftDown` | db.go:86-88 | the re-indexed map keeps its keys, moves positions past the removed slot down one and leaves the others |
| `Store.RemoveBookReindexed` | db.go:76-91 | removal with re-indexing: the same result as the code in every case and the same new slice; on success the id leaves the index and the other entries past the removed slot move down one |
| `Store.ReindexedRemovePreservesConsistent` | db.go:84-88 | with re-indexing, every removal keeps a consistent store consistent |
| `Store.ReindexedRemoveDeletesItsRecord` | db.go:84-88 | with re-indexing, a removal from a consistent store deletes exactly the record carrying the id and keeps every other record |
| `Store.RemoveScenarioReindexed` | db.go:84-88 | with re-indexing, after removing id 1 the record with id 2 is found |
| `Database.DB.constructor` | db.go:21-32 | the new store is empty with counter 0, well formed and consistent |
| `Database.DB.NewBookID` | db.go:34-42 | returns the old counter plus one and stores it; slice and index untouched; the object invariant is kept |
| `Database.DB.AddBook` | db.go:44-54 | appends the new record, indexes it at the old length under a fresh id, keeps the store well formed and keeps consistency |
| `Database.DB.GetBooks` | db.go:56-58 | returns the slice as it is; on a consistent store each listed record is found by its id |
| `Database.DB.GetBook` | db.go:64-74 | returns what `Store.GetBook` gives for the current state and changes nothing |
| `Database.DB.RemoveBook` | db.go:76-91 | the new state is that of `Store.RemoveBook`; the counter never changes; on failure nothing changes |
| `Database.DB.UpdateBook` | db.go:93-113 | the new state is that of `Store.UpdateBook`; index and counter unchanged; keeps consistency |
| `Database.Seed` | main.go:158-160 | on a new store the two seeding additions get ids 1 and 2 and are listed in that order |

## Left out

- Locking: the `sync.RWMutex` and every lock/unlock pair are left out; each operation is one atomic step. Races that follow from the lock pattern are not modelled: `GetBooks` reading without a lock, the lost update between two `UpdateBook` calls that read under a shared lock and write after releasing it, and the read lock that `UpdateBook` keeps when it panics at db.go:101.
- `NewDB`'s `sync.Once`: only the fresh empty state it builds the first time is modelled.
- The clock: `time.Now()` becomes the integer parameter `now`.
- Pointer aliasing of `*Book`: the model stores records by value and writes the updated record back into its slot, which gives the same stored state; a caller holding a pointer returned earlier, which sees later updates in Go, is not modelled.
- Sharing of the listing: `GetBooks` returns the store's own slice, so in Go the caller's listing is a live view of the store (a later `RemoveBook` shifts entries inside it, and a write into it writes into the store); the model returns a snapshot of the records as a value.
- Go's 64-bit `int` wrap-around of `lastBookID`: ids are unbounded integers, since wrapping needs 2^63 additions.
- main.go (HTTP routing, status codes, JSON, metrics, health endpoint, server start-up) is not part of this model apart from the seeding calls.

## Findings

| source | as written | input that shows it | evidently intended | confidence | as-written member | corrected member |
|---|---|---|---|---|---|---|
| db.go:84-88 | `RemoveBook` deletes the slot but leaves the index entries of later records at their old positions | on a new store `AddBook` twice, then `RemoveBook(1)`: book 2 is listed but its index entry is 1 with only one record, so `GetBook(2)` panics with index out of range | later records' index entries move down one position, so every listed record stays reachable by id | high, not executed | `Store.RemoveScenarioAsWritten` | `Store.ReindexedRemovePreservesConsistent` |
| db.go:84-88 | the stale index entry also steers later removals | on a new store `AddBook` three times, then `RemoveBook(1)` and `RemoveBook(2)`: the second call returns success but deletes book 3; book 2 stays listed but is not found by id, and id 3 stays indexed past the end | a removal deletes exactly the record with the given id | high, not executed | `Store.RemoveWrongRecordAsWritten` | `Store.ReindexedRemoveDeletesItsRecord` |

The class `DB` keeps the removal as written, because it models the code as
it is; `Store.RemoveBookReindexed` is the corrected removal, with
consistency preservation proved for it.
