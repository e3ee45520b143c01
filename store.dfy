/**
 * The car service as the process holds it: one mutable store `db` (the
 * module-level `cars_db`) and the counter `nextCarId`, updated in place by
 * the request handlers.  The create, update, delete and upload handlers are
 * proved against the corresponding function of module Cars or Csv and keep
 * the store invariant `Valid()`; the constructor, `GetNewId`, `ReadCars` and
 * `ReadCar` state their results directly.
 */
module CarService {
  import opened Cars
  import opened Csv

  /** A listing that pairs each record with its key, and names every key,
      holds every record and nothing else. */
  lemma ListedExactly(db: Db, keys: seq<int>, cars: seq<Car>)
    requires |keys| == |cars|
    requires forall i :: 0 <= i < |keys| ==> keys[i] in db && cars[i] == db[keys[i]]
    requires forall k :: k in db ==> k in keys
    ensures forall k :: k in db ==> db[k] in cars
    ensures forall c :: c in cars ==> exists k :: k in db && db[k] == c
  {
    forall k | k in db
      ensures db[k] in cars
    {
      var i :| 0 <= i < |keys| && keys[i] == k;
      assert cars[i] == db[k];
    }
    forall c | c in cars
      ensures exists k :: k in db && db[k] == c
    {
      var i :| 0 <= i < |cars| && cars[i] == c;
      var k := keys[i];
      assert k in db && db[k] == c;
    }
  }

  class CarStore {
    var db: Db
    /** Written by every id allocation, never read by the service. */
    var nextCarId: int

    ghost predicate Valid()
      reads this
    {
      IdsMatchKeys(db)
    }

    /** A store holding the two seed records. */
    constructor ()
      ensures Valid()
      ensures db == Seed() && nextCarId == SeedNextCarId
    {
      db := Seed();
      nextCarId := SeedNextCarId;
    }

    /** get_new_id: one past the largest key, or 1 on an empty store. */
    method GetNewId() returns (newId: int)
      modifies this`nextCarId
      ensures newId == NextId(db.Keys)
      ensures newId !in db
      ensures nextCarId == newId + 1
    {
      if db.Keys != {} {
        var maxId := MaxKey(db.Keys);
        newId := maxId + 1;
      } else {
        newId := 1;
      }
      nextCarId := newId + 1;
    }

    /** create_car: stores the payload under a fresh id and returns it. */
    method CreateCar(car: Car) returns (created: Car)
      requires Valid()
      modifies this
      ensures Valid()
      ensures (db, created) == Create(old(db), car)
      ensures nextCarId == created.id.value + 1
    {
      var newId := GetNewId();
      created := car.(id := Some(newId));
      db := db[newId := created];
    }

    /** read_cars: every stored record, each once.  `keys` lists the id each
        returned record is stored under. */
    method ReadCars() returns (cars: seq<Car>, ghost keys: seq<int>)
      ensures |cars| == |db|
      ensures forall k :: k in db ==> db[k] in cars
      ensures forall c :: c in cars ==> exists k :: k in db && db[k] == c
      ensures |keys| == |cars|
      ensures forall i, j :: 0 <= i < j < |keys| ==> keys[i] != keys[j]
      ensures forall i :: 0 <= i < |keys| ==> keys[i] in db && cars[i] == db[keys[i]]
      ensures forall k :: k in db ==> k in keys
    {
      cars := [];
      keys := [];
      var pending := db.Keys;
      ghost var visited: set<int> := {};
      while pending != {}
        invariant visited + pending == db.Keys && visited !! pending
        invariant |cars| == |visited| == |keys|
        invariant forall i :: 0 <= i < |keys| ==> keys[i] in visited && cars[i] == db[keys[i]]
        invariant forall k :: k in visited ==> k in keys
        invariant forall i, j :: 0 <= i < j < |keys| ==> keys[i] != keys[j]
        decreases pending
      {
        EmptyOrElement(pending);
        var k :| k in pending;
        cars := cars + [db[k]];
        keys := keys + [k];
        pending := pending - {k};
        visited := visited + {k};
      }
      assert visited == db.Keys;
      ListedExactly(db, keys, cars);
    }

    /** read_car: the record under `carId`, or not-found. */
    method ReadCar(carId: int) returns (r: Result<Car, Failure>)
      ensures carId !in db ==> r == Err(NotFound(carId))
      ensures carId in db ==> r == Ok(db[carId])
      ensures Valid() && r.Ok? ==> r.value.id == Some(carId)
    {
      if carId !in db {
        return Err(NotFound(carId));
      }
      r := Ok(db[carId]);
    }

    /** update_car: replaces the record under an existing `carId`, forcing
        its id to `carId`; not-found otherwise. */
    method UpdateCar(carId: int, carUpdate: Car) returns (r: Result<Car, Failure>)
      requires Valid()
      modifies this`db
      ensures Valid()
      ensures (r, db) == Update(old(db), carId, carUpdate)
    {
      if carId !in db {
        return Err(NotFound(carId));
      }
      var updated := carUpdate.(id := Some(carId));
      db := db[carId := updated];
      r := Ok(updated);
    }

    /** delete_car: removes the record under an existing `carId` and
        acknowledges the id; not-found otherwise. */
    method DeleteCar(carId: int) returns (r: Result<int, Failure>)
      requires Valid()
      modifies this`db
      ensures Valid()
      ensures (r, db) == Delete(old(db), carId)
    {
      if carId !in db {
        return Err(NotFound(carId));
      }
      db := db - {carId};
      r := Ok(carId);
    }

    /** upload_cars_csv: refuses a filename without the `.csv` suffix, then
        upserts the rows one by one, counting them, and stops at the first
        row that cannot be converted without undoing earlier rows. */
    method UploadCarsCsv(filename: string, rows: seq<Row>) returns (r: UploadResult)
      requires Valid()
      modifies this`db
      ensures Valid()
      ensures (r, db) == Upload(old(db), filename, rows)
    {
      if !EndsWith(filename, CsvSuffix) {
        return InvalidFormat;
      }
      var loadedCount := 0;
      while loadedCount < |rows|
        invariant loadedCount <= |rows|
        invariant AllRowsParse(rows[..loadedCount])
        invariant db == MergeRows(old(db), rows[..loadedCount])
        invariant IdsMatchKeys(db)
      {
        var parsed := ParseRow(rows[loadedCount]);
        if parsed.Err? {
          GoodPrefixUnique(rows, loadedCount);
          return InvalidRow(loadedCount, parsed.error);
        }
        var car := parsed.value;
        assert rows[..loadedCount + 1][..loadedCount] == rows[..loadedCount];
        db := db[car.id.value := car];
        loadedCount := loadedCount + 1;
      }
      assert rows[..loadedCount] == rows;
      GoodPrefixUnique(rows, loadedCount);
      r := Loaded(loadedCount, filename);
    }
  }
}
