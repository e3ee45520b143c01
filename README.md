# Car store with CSV upload — a Dafny model

The service keeps its cars in one in-memory dictionary, `cars_db`, that maps
an integer id to a `Car` record (`id`, `brand`, `model`, `price`). It starts with two
seed records. It supports five operations on that dictionary:

- **Create**: allocates the id one past the largest key (or 1 on an empty store),
  stamps it on the payload and stores it.
- **List and read**: return all records, or the record under one id, failing with
  not-found when the id is absent.
- **Update**: checks that the id exists, then replaces the record, forcing its `id`
  to the key.
- **Delete**: checks that the id exists, then removes the key.
- **CSV upload**: refuses a filename that does not end in `.csv`. Otherwise it
  converts the rows one at a time (`int(id)`, `brand`, `model`, `int(price)`). It
  upserts each car at its own id and counts the rows. It stops at the first row
  with a missing column or a non-integer value, and it keeps the rows it merged
  before that row.

The model has three modules:

- `Cars` (cars.dfy) defines the record, the store invariant `IdsMatchKeys` (every
  record carries its key as id) and the id allocator. It also writes create,
  update and delete as functions from the old store to the result and the new store.
- `Csv` (csv.dfy) defines integer text, the conversion of one row, the in-order
  merge `MergeRows` and the whole upload `Upload`.
- `CarService` (store.dfy) holds the class `CarStore`. Its fields `db` (`cars_db`)
  and `nextCarId` (`next_car_id`) are updated in place by one method per handler.
  `CreateCar`, `UpdateCar`, `DeleteCar` and `UploadCarsCsv` are proved against the
  function of `Cars` or `Csv` that specifies them, and they keep `Valid()`. The
  constructor, `GetNewId`, `ReadCars` and `ReadCar` state their results directly.
  The upload is a loop whose invariant says the store equals the old store with
  the processed rows merged in order.

Two facts about the code that a reader might not expect:

- `brand` and `model` are plain `str` fields of `Car` (main.py:33-34), so an empty string is accepted.
- Ids are not reserved. `get_new_id` recomputes `max(keys) + 1` on every call (main.py:47-49). The next create hands out one past the largest remaining key, so an id freed by deleting the largest record can be handed out again (`Cars.DeleteLargestThenCreateReusesId`).

## Model

| member | source | states |
|---|---|---|
| `Cars.Seed` | main.py:38-41 | the start-up store holds keys 1 and 2 (Toyota, Honda) and satisfies the store invariant |
| `CarService.CarStore.constructor` | main.py:38-42 | a new store holds exactly the seed records, `nextCarId` is 3, and the invariant holds |
| `Cars.NextId` | main.py:44-53 | the allocated id is 1 on an empty store; otherwise it is one past a present key and above every key, so it is not in use |
| `Cars.MaxKey` | main.py:47-48 | one pass over a non-empty key set returns a key that is at least every key (`max`) |
| `CarService.CarStore.GetNewId` | main.py:44-53 | returns `NextId` of the current keys, an id not in the store, and sets `nextCarId` to that id + 1 without touching the store |
| `Cars.Create` | main.py:67-75 | the stored record is the payload with the id `NextId` of the keys, a fresh id above every key (1 on an empty store); the key set grows by exactly that id; every other entry is unchanged; the invariant is kept |
| `CarService.CarStore.CreateCar` | main.py:67-75 | the new store and the returned record are those of `Create` on the old store, and `nextCarId` is one past the new id |
| `Cars.CreateAllKeepsOldRecords` | main.py:44-75 | over any run of creates every record present before the run is kept unchanged, and every id handed out is above every key present before the run |
| `Cars.CreateAllIdsIncrease` | main.py:44-75 | over any run of creates the handed-out ids strictly increase, and each created record stays stored under its id with its payload's brand, model and price |
| `Cars.CreateTwiceOnEmpty` | main.py:44-53 | on an empty store two creates hand out 1 and then 2 |
| `Cars.CreateTwiceAfterSeed` | main.py:38-53 | on the seeded store two creates hand out 3 and then 4 |
| `Cars.DeleteLargestThenCreateReusesId` | main.py:44-53 | on the seed store, deleting record 2 and then creating hands out 2 again |
| `CarService.CarStore.ReadCars` | main.py:77-82 | returns one entry per stored record: alongside the list comes a duplicate-free sequence of keys naming every key, and the i-th listed record is the one stored under the i-th key; so every stored record is listed and every listed record is stored |
| `CarService.CarStore.ReadCar` | main.py:84-91 | an absent id gives not-found carrying that id; a present id gives the stored record, whose id is the requested one; the store is not changed |
| `Cars.Update` | main.py:93-103 | an absent id gives not-found and an unchanged store; otherwise the key set is unchanged, the stored record has the payload's fields with `id` forced to the key whatever the payload carried, and other entries are untouched |
| `CarService.CarStore.UpdateCar` | main.py:93-103 | the result and the new store are those of `Update` on the old store; the invariant is kept |
| `Cars.UpdateSeededPrice` | main.py:93-103 | updating the price of seed record 1 with an id-less payload returns the record with id 1 and the new price |
| `Cars.Delete` | main.py:105-113 | an absent id gives not-found and an unchanged store; otherwise exactly that key is removed, the size drops by one, the id is acknowledged, and every other entry is unchanged |
| `CarService.CarStore.DeleteCar` | main.py:105-113 | the result and the new store are those of `Delete` on the old store; the invariant is kept |
| `Csv.ParseInt` | main.py:134-137 | accepted integer text starts with a digit, `+` or `-`, ends in a digit and has only digits after that first character; a digit-led text gives a non-negative value, a `-`-led one a non-positive value |
| `Csv.ParseIntAccepts` | main.py:134-137 | conversely, one or more digits, alone or after a `+` or `-`, are accepted, with the value of the digits, negated after `-` |
| `Csv.ParseIntDecimal` | main.py:134-137 | parsing the decimal text of any integer gives that integer back |
| `Csv.ParseRow` | main.py:133-138 | a row converts exactly when `id`, `brand`, `model` and `price` are present and `id` and `price` are integers; the car then carries those values verbatim; a failure names a missing required column or the non-integer text; a bad `id` is reported before any later column |
| `Csv.ParseRowFirstFailure` | main.py:133-138 | the failure is the first check that fails in reading order: a missing `id` is reported first; an error on a later column means `id` is present and an integer; an error on `model` or `price` means `brand` is present, and one on `price` means `model` is present; only `id` and `price` are reported as non-integers |
| `Csv.EndsWith` | main.py:123 | the suffix test is exact and case-sensitive: it holds exactly when the last characters of the name are those of the suffix, one for one |
| `Csv.MergeRows` | main.py:132-140 | the old store with each row's car upserted at its own id, in row order; no key of the old store is removed |
| `Csv.GoodPrefix` | main.py:131-142 | the number of rows before the first row that fails to convert: every row before it converts, and the row at it fails |
| `Csv.MergeRowsKeepsIdsMatchKeys` | main.py:139 | merging converted rows keeps every record under its own id |
| `Csv.MergeRowsFrame` | main.py:132-139 | after the merge a key is present exactly when it was before or some row carries it; a key no row carries keeps its record |
| `Csv.MergeRowsLastWriterWins` | main.py:132-139 | the record of a row that no later row overwrites is stored under its id exactly as converted |
| `Csv.MergeRowsSize` | main.py:132-139 | merging n rows never removes a record and adds at most n |
| `Csv.Upload` | main.py:118-144 | a filename without `.csv` gives `InvalidFormat` with the store unchanged; otherwise either every row converts, the count is the number of rows and all are merged in order; or the first bad row k is reported with its cause and exactly rows 1..k-1 are merged, not rolled back |
| `CarService.CarStore.UploadCarsCsv` | main.py:118-144 | the loop over the rows yields the result and the store of `Upload` on the old store and keeps the invariant |
| `Csv.UploadKeepsIdsMatchKeys` | main.py:118-144 | every upload outcome keeps the store invariant |
| `Csv.UploadStopsAtBadRow` | main.py:131-142 | after a failed upload, only keys from the store or from rows before the bad row are present, and keys none of those rows carries keep their records |
| `Csv.UploadLoadedRowReadable` | main.py:130-140 | after a full load, each row that no later row overwrites can be read back under its id with exactly its fields |
| `Csv.UploadSizeBound` | main.py:118-144 | an upload of n rows removes nothing and adds at most n records |
| `Csv.UploadTextFileRefused` | main.py:123-124 | a file named `data.txt` is refused before any row is read and the store is unchanged |
| `Csv.UploadOneRowOnEmptyStore` | main.py:118-144 | on an empty store the row `5,Mazda,CX5,300000000` loads 1 car, and the store then holds exactly that car under id 5 |

## Left out

- The web layer is not modelled: the FastAPI app, CORS, route decorators, HTTP status codes, error message wording, serving `templates/index.html`, and the `uvicorn` bootstrap. The not-found failure carries only the id.
- Reading the uploaded bytes, UTF-8 decoding and CSV tokenisation are library code. The upload takes the rows already split into header-keyed maps. The reader's `None` value for a short row and its `None` key for extra fields are not modelled, so a row maps column names to text.
- Csv.ParseInt: accepts only an optional `+`/`-` followed by ASCII decimal digits. Python's `int()` also accepts surrounding whitespace, underscores between digits and non-ASCII digits, so such rows are rejected here and accepted by the source. CPython's `int()` also rejects texts of more than 4300 digits, which the model accepts.
- Payload validation and coercion by the `Car` model class is not modelled. Request bodies arrive as `Car` values.
- `create_car` and `update_car` set `id` on the payload object itself and store that same object. The model stores a copy with the id set, so aliasing between the returned record and the stored one is not captured.
- CarService.CarStore.ReadCars: the model does not state the order of the list. The source lists records in dictionary insertion order.
- `InvalidRow` carries the number of rows merged before the bad row (the source's `loaded_count` at the stop). The source's error message does not report that number.
- `next_car_id` is kept as the field `nextCarId`, written on every id allocation and never read.
- Concurrent requests are not modelled. The source has no synchronisation, and each handler here runs to completion.
