# gorm-generics: a Dafny model of the repository's query logic

gorm-generics is a generic data-access layer over the gorm object-relational
mapper. A `GormRepository[M, E]` stores persistence models `M` and hands
domain entities `E` to its callers. Each model converts itself with
`ToEntity`. This project models the parts whose behaviour does not depend
on the mapper:

- the sequence helpers of `utils.go`: `ChunkSlice`, `Map` and `MapDto`;
- the query side of `repository.go`:
  - `getPreWarmDbForSelect`, which folds the specifications into the query
    builder;
  - `FindWithLimit` and its callers `Find`, `FindPaged` and `FindAll`;
  - `Count`;
  - `FromModelToDto`;
  - the pagination of `FindPagedWithLimit`: the page-size clamp, the count
    decision, the page-count arithmetic and the `LIMIT`/`OFFSET` of the
    data query.

Files:

- `wrappers.dfy`: `Option` and `Result`.
- `utils.dfy` (module `Utils`): the chunking, mapping and DTO helpers.
  It also holds the ceiling division used by the pagination.
- `repository.dfy` (module `Repository`): the repository.

How the database is represented. A gorm handle (`*gorm.DB`) is a `Db`
value. It holds the `Where` clauses applied so far and an oracle with two
functions. `count` answers a row count for a clause list. `find` answers a
row sequence for a clause list, a limit and an offset. Each answer is a
value or a `DbError`. Statements are always built from the handle's
current clauses, so the model says exactly which query each operation
issues. `FindPagedWithLimit` also returns, as a ghost out-parameter, the list
of statements it sent. This list is not part of the Go
result; it makes "a count query runs iff ..." something a contract can
state.

`ChunkSlice` is proved against the reference function `Chunks`. Lemmas
about `Chunks` state the partition properties:

- the chunks concatenate back to the input;
- every chunk is non-empty and holds at most `chunkSize` elements;
- every chunk but the last is full;
- there are ceil(n / chunkSize) chunks;
- chunk k is the window `[k*size, min((k+1)*size, n))`.

`ChunkLoop` runs the same loop for any chunk size, bounded by fuel. Its
lemmas show why the method requires a positive chunk size on a non-empty
slice: with size 0 the loop never ends, and with a negative size the first
slice expression panics.

The data query of `FindPagedWithLimit` uses `OFFSET = Page`, the raw page
number, and not `Page * size`. The model keeps this as written.
`AdjacentPagesOverlap` shows the consequence for a repository whose
database answers a find from one table: with a page size of at least 2,
the data of consecutive pages share rows.

## Model

| member | source | states |
|---|---|---|
| `Utils.CeilDiv` | repository.go:214 | the page count is the least r with r * size >= rows: r * size >= rows, and r == 0 or (r - 1) * size < rows |
| `Utils.ChunkSlice` | utils.go:3-18 | for a positive chunk size the result is exactly `Chunks(slice, chunkSize)`; an empty slice gives no chunks for any chunk size; a non-positive size with a non-empty slice is excluded |
| `Utils.ChunksConcat` | utils.go:5-14 | concatenating the chunks in order reproduces the input exactly |
| `Utils.ChunksBounded` | utils.go:5-14 | every chunk is non-empty and has at most `chunkSize` elements |
| `Utils.ChunksFullBeforeLast` | utils.go:6-12 | every chunk except the last has exactly `chunkSize` elements |
| `Utils.ChunksCount` | utils.go:4-5 | the number of chunks is ceil(len(slice) / chunkSize), so zero for an empty input |
| `Utils.ChunkAt` | utils.go:5-14 | chunk k starts at k * chunkSize (inside the slice) and is the window up to min((k+1) * chunkSize, len(slice)) |
| `Utils.ChunkLoopFinishes` | utils.go:5-15 | `ChunkLoop` is the loop as written, for every chunk size, bounded by fuel; with chunkSize >= 1, the loop from index i ends within len - i iterations and appends exactly the chunks of the rest of the slice |
| `Utils.ChunkLoopSpinsOnZero` | utils.go:5 | with chunkSize == 0 and a non-empty slice the loop never ends, for every bound on its iterations |
| `Utils.ChunkLoopPanicsOnNegative` | utils.go:6-14 | with chunkSize < 0 and a non-empty slice the first slice expression panics |
| `Utils.Map` | utils.go:31-37 | the result has len(ts) elements and element i is f(ts[i]) |
| `Utils.MapDto` | utils.go:20-29 | same length as the input; element i is the asserted value of `ToEntity(modelArray[i])` when the type assertion succeeds, and the zero value of T when it fails |
| `Repository.WhereClausesAt` | repository.go:166-172 | the fold adds exactly one clause per specification, clause i carrying specification i's query and values, and nothing else |
| `Repository.WhereClausesAppend` | repository.go:168-170 | applying a ++ b is applying a then b: specifications are conjoined in the order supplied, without reordering or de-duplication |
| `Repository.GetPreWarmDbForSelect` | repository.go:166-172 | the returned handle is the repository's handle with the specifications' clauses appended in input order, and the same database behind it |
| `Repository.FromModelToDto` | repository.go:248-259 | the result has the models' length and element i is `models[i].ToEntity()`; an empty input gives an empty result |
| `Repository.FindWithLimit` | repository.go:174-190 | the rows are fetched with the given limit and offset over the folded specifications; on error there are no entities and the error is returned; otherwise the entities are the rows converted in order |
| `Repository.Find` | repository.go:152-154 | `FindWithLimit` with limit -1 and offset -1 (none) |
| `Repository.FindPaged` | repository.go:156-158 | the same as `Find`: no pagination |
| `Repository.FindAll` | repository.go:232-234 | every row of the repository's handle, with no specification, limit or offset, converted in order |
| `Repository.Count` | repository.go:160-164 | the count over the folded specifications, or 0 and the error when the count fails |
| `Repository.EffectiveSize` | repository.go:202 | the page size used is max(1, Size): at least 1, at least Size, and equal to Size or 1 |
| `Repository.FindPagedWithLimit` | repository.go:192-230 | Page is echoed; a count query is issued iff ForceCount, or Page == 0 and not IgnoreCount; a failed count returns at once with Count 0 and no data; otherwise Count is ceil(rows / max(1, Size)) when counted and 0 when not, and the data query uses LIMIT max(1, Size) and OFFSET Page; a failed data query leaves Data empty but keeps Count; on success Data is exactly the rows returned |
| `Repository.AdjacentPagesOverlap` | repository.go:217 | for a repository whose database answers a find from one table, OFFSET = Page makes the second row of page p's data query the first row of page p + 1's whenever the page size is at least 2 |

## Left out

- Every gorm call (`WithContext`, `Create`, `Save`, `Delete`, `First`, `Find`, `Count`, `Model`, `Preload`, `Limit`, `Offset`). gorm is a foreign library. It is represented by the clause list and the count/find oracle of `Db`. SQL generation, the meaning of a query fragment and the row order are the oracle's business.
- `Window`, used only by `AdjacentPagesOverlap`, assumes how a table answers `LIMIT`/`OFFSET`. It is not part of the source.
- The CRUD passthroughs `Insert`, `InsertDirect`, `InsertFromInterface`, `Delete`, `DeleteById`, `Update`, `UpdateDirect`, `FindByID` and `FindByIDWithOptions` (repository.go:42-130). Each is a single delegation to gorm, and the `.(M)` type assertion in them panics on mismatch.
- Query by example: `FindByModel`, `FindByModelMulti`, `FindByEntity` and `FindByEntityWithOptions` (repository.go:132-150, 236-246). "Non-zero fields become filters" is defined inside gorm.
- `NewRepository` (repository.go:32-36) only stores the handle. The model builds the `GormRepository` value directly.
- The `Specification` interface is declared in a file that is not part of this model. It is represented by its two accessors, `query` (`GetQuery`) and `values` (`GetValues`).
- `context.Context` propagation and the JSON struct tags carry no logic.
- `Utils.CeilDiv`, `Repository.EffectiveSize`: `math.Max` and `math.Ceil` work on `float64`. The model uses integer max and ceiling division. The precision loss above 2^53 rows is not modelled.
- `Utils.ChunkSlice`: each Go chunk `slice[i:end]` is a view into the input's backing array, with capacity up to the end of the input, not a copy. Writing an element of a chunk writes the input, and `append` to a chunk overwrites the first element of the next chunk. The model's chunks are values and capture none of this aliasing. An empty input gives a nil result in Go and `[]` in the model.
- `Utils.ChunkSlice`: integers are unbounded. The wrap-around of `i + chunkSize` for a chunk size near the maximum `int` is not modelled.
- `Repository.FindPagedWithLimit`: `Page`, `Size` and `Count` are unbounded integers rather than `int`/`int64`. The database's row count is a natural number.
- `Repository.Count`: on a failed count the model returns 0. The source returns whatever gorm left in `i`.
- Go distinguishes a nil slice from an empty one: `FindWithLimit` returns nil on error, `FromModelToDto` returns an empty, non-nil slice, and `PageResult.Data` stays nil on error. Dafny sequences have no nil, so all of these are `[]`.
- The `ToEntity` conversion is a total function `M -> E`. The type assertion in `MapDto` is a function `E -> Option<T>`, and Go's `*new(T)` is passed in as `zero`.
