/**
 * The record store of the car service: the `Car` record, the in-memory
 * store `cars_db` seen as a map from id to record, identifier allocation,
 * and the create / update / delete transitions of the store written as
 * functions on that map.  The class in store.dfy performs these updates in
 * place and is proved against the functions here.
 */
module Cars {

  datatype Option<T> = None | Some(value: T)

  datatype Result<T, E> = Ok(value: T) | Err(error: E)

  /** A car record.  `id` is optional on input (a create payload has none)
      and always set on a stored record. */
  datatype Car = Car(id: Option<int>, brand: string, model: string, price: int)

  /** The only failure of the CRUD operations: the requested id is absent. */
  datatype Failure = NotFound(id: int)

  type Db = map<int, Car>

  /** The store invariant: every stored record carries its own key as id. */
  ghost predicate IdsMatchKeys(db: Db) {
    forall k :: k in db ==> db[k].id == Some(k)
  }

  /** The two records the store holds at start-up. */
  function Seed(): (db: Db)
    ensures db.Keys == {1, 2} && IdsMatchKeys(db)
    ensures db[1].brand == "Toyota" && db[2].brand == "Honda"
  {
    map[1 := Car(Some(1), "Toyota", "Avanza", 250000000),
        2 := Car(Some(2), "Honda", "Brio", 180000000)]
  }

  /** Initial value of `next_car_id`; written by every allocation, never read. */
  const SeedNextCarId := 3

  ghost predicate IsMax(m: int, keys: set<int>) {
    forall k :: k in keys ==> k <= m
  }

  /** A set is empty or has an element to pick. */
  lemma EmptyOrElement(s: set<int>)
    ensures s == {} || exists x :: x in s
  {
    if forall y :: y !in s {
      assert s == {};
    }
  }

  /** Every non-empty finite set of integers has a largest element. */
  lemma {:induction false} MaxExists(keys: set<int>)
    requires keys != {}
    ensures exists m :: m in keys && IsMax(m, keys)
  {
    EmptyOrElement(keys);
    var x :| x in keys;
    if keys == {x} {
      assert IsMax(x, keys);
    } else {
      var rest := keys - {x};
      MaxExists(rest);
      var m :| m in rest && IsMax(m, rest);
      var top := if x <= m then m else x;
      forall k | k in keys
        ensures k <= top
      {
        if k != x {
          assert k in rest;
        }
      }
      assert top in keys && IsMax(top, keys);
    }
  }

  /** The id allocated for a new record: one past the largest key, or 1 on
      an empty store.  It is larger than every key, hence not in use. */
  ghost function NextId(keys: set<int>): (r: int)
    ensures forall k :: k in keys ==> k < r
    ensures keys == {} ==> r == 1
    ensures keys != {} ==> r - 1 in keys
  {
    if keys == {} then 1
    else
      MaxExists(keys);
      var m :| m in keys && IsMax(m, keys);
      m + 1
  }

  /** `max` over the keys of the store, by one pass over them. */
  method MaxKey(keys: set<int>) returns (m: int)
    requires keys != {}
    ensures m in keys && IsMax(m, keys)
  {
    EmptyOrElement(keys);
    m :| m in keys;
    var rest := keys - {m};
    while rest != {}
      invariant rest <= keys && m in keys
      invariant forall k :: k in keys && k !in rest ==> k <= m
      decreases rest
    {
      EmptyOrElement(rest);
      var k :| k in rest;
      if k > m {
        m := k;
      }
      rest := rest - {k};
    }
  }

  /** Create: the store after the insertion, and the record handed back. */
  ghost function Create(db: Db, car: Car): (r: (Db, Car))
    ensures r.1.id == Some(NextId(db.Keys))
    ensures r.1.id.Some? && r.1.id.value !in db
    ensures forall k :: k in db ==> k < r.1.id.value
    ensures db.Keys == {} ==> r.1.id == Some(1)
    ensures r.1 == car.(id := r.1.id)
    ensures r.0.Keys == db.Keys + {r.1.id.value} && |r.0| == |db| + 1
    ensures r.0[r.1.id.value] == r.1
    ensures forall k :: k in db ==> r.0[k] == db[k]
    ensures IdsMatchKeys(db) ==> IdsMatchKeys(r.0)
  {
    var newId := NextId(db.Keys);
    var created := car.(id := Some(newId));
    (db[newId := created], created)
  }

  /** Update: fails on an absent id and leaves the store as it was;
      otherwise replaces the record and forces its id to the key. */
  function Update(db: Db, carId: int, car: Car): (r: (Result<Car, Failure>, Db))
    ensures carId !in db ==> r == (Err(NotFound(carId)), db)
    ensures carId in db ==> r.0.Ok? && r.0.value.id == Some(carId)
    ensures carId in db ==>
      r.0.value.brand == car.brand && r.0.value.model == car.model && r.0.value.price == car.price
    ensures r.1.Keys == db.Keys
    ensures r.0.Ok? ==> r.1[carId] == r.0.value
    ensures forall k :: k in db && k != carId ==> r.1[k] == db[k]
    ensures IdsMatchKeys(db) ==> IdsMatchKeys(r.1)
  {
    if carId !in db then (Err(NotFound(carId)), db)
    else
      var updated := car.(id := Some(carId));
      (Ok(updated), db[carId := updated])
  }

  /** Delete: fails on an absent id and leaves the store as it was;
      otherwise removes exactly that key and acknowledges it. */
  function Delete(db: Db, carId: int): (r: (Result<int, Failure>, Db))
    ensures carId !in db ==> r == (Err(NotFound(carId)), db)
    ensures carId in db ==> r.0 == Ok(carId) && r.1.Keys == db.Keys - {carId} && |r.1| == |db| - 1
    ensures carId !in r.1
    ensures forall k :: k in r.1 ==> k in db && r.1[k] == db[k]
    ensures IdsMatchKeys(db) ==> IdsMatchKeys(r.1)
  {
    if carId !in db then (Err(NotFound(carId)), db)
    else (Ok(carId), db - {carId})
  }

  /** A run of creates on one store: the final store and the ids handed out. */
  ghost function CreateAll(db: Db, cars: seq<Car>): (r: (Db, seq<int>))
    ensures |r.1| == |cars|
    decreases |cars|
  {
    if cars == [] then (db, [])
    else
      var step := Create(db, cars[0]);
      var rest := CreateAll(step.0, cars[1..]);
      (rest.0, [step.1.id.value] + rest.1)
  }

  /** A run of creates keeps every record present before it, and each id it
      hands out is above every key present before it. */
  lemma {:induction false} CreateAllKeepsOldRecords(db: Db, cars: seq<Car>)
    ensures forall k :: k in db ==> k in CreateAll(db, cars).0 && CreateAll(db, cars).0[k] == db[k]
    ensures forall i, k :: 0 <= i < |cars| && k in db ==> k < CreateAll(db, cars).1[i]
    decreases |cars|
  {
    if cars != [] {
      var step := Create(db, cars[0]);
      var (final, later) := CreateAll(step.0, cars[1..]);
      CreateAllKeepsOldRecords(step.0, cars[1..]);
      var ids := [step.1.id.value] + later;
      assert CreateAll(db, cars) == (final, ids);
      assert forall i :: 0 < i < |ids| ==> ids[i] == later[i - 1];
    }
  }

  /** Creates hand out strictly increasing ids, and each created record stays
      stored under the id it was handed, with its payload's brand, model and
      price. */
  lemma {:induction false} CreateAllIdsIncrease(db: Db, cars: seq<Car>)
    ensures var (final, ids) := CreateAll(db, cars);
      && (forall i, j :: 0 <= i < j < |ids| ==> ids[i] < ids[j])
      && (forall i :: 0 <= i < |ids| ==> ids[i] in final && final[ids[i]] == cars[i].(id := Some(ids[i])))
    decreases |cars|
  {
    if cars != [] {
      var (db', created) := Create(db, cars[0]);
      var newId := created.id.value;
      var (final, later) := CreateAll(db', cars[1..]);
      CreateAllIdsIncrease(db', cars[1..]);
      CreateAllKeepsOldRecords(db', cars[1..]);
      var ids := [newId] + later;
      assert CreateAll(db, cars) == (final, ids);
      assert newId in db' && db'[newId] == cars[0].(id := Some(newId));
      forall i, j | 0 <= i < j < |ids|
        ensures ids[i] < ids[j]
      {
        assert ids[j] == later[j - 1];
        if i > 0 {
          assert ids[i] == later[i - 1];
        }
      }
      forall i | 0 <= i < |ids|
        ensures ids[i] in final && final[ids[i]] == cars[i].(id := Some(ids[i]))
      {
        if i > 0 {
          assert ids[i] == later[i - 1] && cars[i] == cars[1..][i - 1];
        }
      }
    }
  }

  /** On an empty store two creates hand out 1 and then 2. */
  lemma CreateTwiceOnEmpty(first: Car, second: Car)
    ensures Create(map[], first).1.id == Some(1)
    ensures Create(Create(map[], first).0, second).1.id == Some(2)
  {
  }

  /** On the seeded store the first create hands out 3 and the next 4. */
  lemma CreateTwiceAfterSeed(first: Car, second: Car)
    ensures Create(Seed(), first).1.id == Some(3)
    ensures Create(Create(Seed(), first).0, second).1.id == Some(4)
  {
    var (db1, car1) := Create(Seed(), first);
    assert NextId({1, 2}) == 3;
    assert car1.id == Some(3) && db1.Keys == {1, 2, 3};
    assert NextId({1, 2, 3}) == 4;
  }

  /** Ids are not reserved: on the seed store, deleting record 2 and then
      creating hands out 2 again. */
  lemma DeleteLargestThenCreateReusesId(car: Car)
    ensures Create(Delete(Seed(), 2).1, car).1.id == Some(2)
  {
  }

  /** Updating the price of a seeded record keeps its id and other fields. */
  lemma UpdateSeededPrice()
    ensures Update(Seed(), 1, Car(None, "Toyota", "Avanza", 260000000)).0
      == Ok(Car(Some(1), "Toyota", "Avanza", 260000000))
  {
  }
}
