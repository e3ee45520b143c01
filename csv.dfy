/**
 * CSV ingestion: the filename check, the conversion of one parsed CSV row
 * into a car record, and the merge of a run of rows into the store, which
 * stops at the first row that cannot be converted and keeps what it merged
 * before that row.
 *
 * A row is what a header-keyed CSV reader yields: a map from column name to
 * the text in that column.
 */
module Csv {
  import opened Cars

  type Row = map<string, string>

  /** Why a row could not be turned into a car record: a required column is
      missing, or the text under `id` or `price` is not an integer. */
  datatype RowError = MissingColumn(column: string) | NotAnInteger(column: string, text: string)

  /** Outcome of an upload: a rejected filename, a row that could not be
      converted after `merged` rows were merged, or all `count` rows loaded. */
  datatype UploadResult =
    | InvalidFormat
    | InvalidRow(merged: nat, cause: RowError)
    | Loaded(count: nat, filename: string)

  const CsvSuffix: string := ".csv"

  /** Exact, case-sensitive suffix test: the last |suffix| characters of
      `s` are those of `suffix`, one for one. */
  function EndsWith(s: string, suffix: string): (r: bool)
    ensures r <==> |suffix| <= |s| && forall i :: 0 <= i < |suffix| ==> s[|s| - |suffix| + i] == suffix[i]
  {
    |suffix| <= |s| && s[|s| - |suffix|..] == suffix
  }

  // ---- Integer text ----

  predicate IsDigit(c: char) {
    '0' <= c <= '9'
  }

  predicate AllDigits(s: string) {
    forall i :: 0 <= i < |s| ==> IsDigit(s[i])
  }

  /** Value of a run of decimal digits, most significant first. */
  function DigitsValue(s: string): nat
    requires AllDigits(s)
    decreases |s|
  {
    if s == [] then 0
    else 10 * DigitsValue(s[..|s| - 1]) + (s[|s| - 1] as int - '0' as int)
  }

  /** Integer text: an optional `+` or `-` followed by one or more decimal
      digits.  Anything else is not an integer. */
  function ParseInt(s: string): (r: Option<int>)
    ensures r.Some? ==> |s| > 0 && IsDigit(s[|s| - 1])
    ensures r.Some? ==> IsDigit(s[0]) || s[0] == '+' || s[0] == '-'
    ensures r.Some? ==> forall i :: 0 < i < |s| ==> IsDigit(s[i])
    ensures r.Some? && IsDigit(s[0]) ==> r.value >= 0
    ensures r.Some? && s[0] == '-' ==> r.value <= 0
  {
    if |s| > 0 && (s[0] == '+' || s[0] == '-') then
      var digits := s[1..];
      if digits != [] && AllDigits(digits) then
        var magnitude: int := DigitsValue(digits);
        Some(if s[0] == '-' then -magnitude else magnitude)
      else None
    else if s != [] && AllDigits(s) then Some(DigitsValue(s))
    else None
  }

  /** The converse: every integer text is accepted, with its value. */
  lemma ParseIntAccepts(s: string)
    ensures s != [] && AllDigits(s) ==> ParseInt(s) == Some(DigitsValue(s) as int)
    ensures |s| > 1 && s[0] == '+' && AllDigits(s[1..]) ==> ParseInt(s) == Some(DigitsValue(s[1..]) as int)
    ensures |s| > 1 && s[0] == '-' && AllDigits(s[1..]) ==> ParseInt(s) == Some(-(DigitsValue(s[1..]) as int))
  {
    if |s| > 0 && !IsDigit(s[0]) {
      assert !AllDigits(s);
    }
  }

  function DigitChar(d: nat): (c: char)
    requires d < 10
  {
    ('0' as int + d) as char
  }

  /** Decimal text of a natural number, without leading zeros. */
  function Digits(n: nat): string
    decreases n
  {
    if n < 10 then [DigitChar(n)] else Digits(n / 10) + [DigitChar(n % 10)]
  }

  /** Decimal text of an integer, as the number is printed. */
  function Decimal(n: int): string {
    if n < 0 then "-" + Digits(-n) else Digits(n)
  }

  lemma {:induction false} DigitsValueOfDigits(n: nat)
    ensures Digits(n) != [] && AllDigits(Digits(n))
    ensures DigitsValue(Digits(n)) == n
    decreases n
  {
    if n >= 10 {
      DigitsValueOfDigits(n / 10);
      var s := Digits(n);
      assert s[..|s| - 1] == Digits(n / 10);
    }
  }

  /** Parsing the printed text of any integer gives that integer back. */
  lemma {:induction false} ParseIntDecimal(n: int)
    ensures ParseInt(Decimal(n)) == Some(n)
  {
    if n < 0 {
      DigitsValueOfDigits(-n);
      assert Decimal(n)[1..] == Digits(-n);
    } else {
      DigitsValueOfDigits(n);
    }
  }

  // ---- One row ----

  /** Converts a row into a car record, checking in the order the fields are
      read: `id` present, `id` an integer, `brand`, `model` and `price`
      present, `price` an integer.  The first failing check is the error. */
  function ParseRow(row: Row): (r: Result<Car, RowError>)
    ensures r.Ok? <==>
      && (forall c :: c in ["id", "brand", "model", "price"] ==> c in row)
      && ParseInt(row["id"]).Some? && ParseInt(row["price"]).Some?
    ensures r.Ok? ==> r.value == Car(ParseInt(row["id"]), row["brand"], row["model"], ParseInt(row["price"]).value)
    ensures r.Err? && r.error.MissingColumn? ==>
      r.error.column in ["id", "brand", "model", "price"] && r.error.column !in row
    ensures r.Err? && r.error.NotAnInteger? ==>
      r.error.column in row && r.error.text == row[r.error.column] && ParseInt(r.error.text).None?
    ensures "id" in row && ParseInt(row["id"]).None? ==> r == Err(NotAnInteger("id", row["id"]))
  {
    if "id" !in row then Err(MissingColumn("id"))
    else match ParseInt(row["id"])
      case None => Err(NotAnInteger("id", row["id"]))
      case Some(id) =>
        if "brand" !in row then Err(MissingColumn("brand"))
        else if "model" !in row then Err(MissingColumn("model"))
        else if "price" !in row then Err(MissingColumn("price"))
        else match ParseInt(row["price"])
          case None => Err(NotAnInteger("price", row["price"]))
          case Some(price) => Ok(Car(Some(id), row["brand"], row["model"], price))
  }

  /** The failure reported is the first check that fails, in the order the
      fields are read: a missing `id` first; a later column only once `id`
      is present and an integer; `model` only once `brand` is present;
      `price` only once `brand` and `model` are present.  Only `id` and
      `price` can fail to be integers. */
  lemma ParseRowFirstFailure(row: Row)
    ensures "id" !in row ==> ParseRow(row) == Err(MissingColumn("id"))
    ensures ParseRow(row).Err? && ParseRow(row).error.NotAnInteger? ==>
      ParseRow(row).error.column in ["id", "price"]
    ensures ParseRow(row).Err? && ParseRow(row).error.column != "id" ==>
      "id" in row && ParseInt(row["id"]).Some?
    ensures ParseRow(row).Err? && ParseRow(row).error.column in ["model", "price"] ==> "brand" in row
    ensures ParseRow(row).Err? && ParseRow(row).error.column == "price" ==> "model" in row
  {
  }

  predicate AllRowsParse(rows: seq<Row>) {
    forall j :: 0 <= j < |rows| ==> ParseRow(rows[j]).Ok?
  }

  /** The key a convertible row is stored under. */
  function RowKey(row: Row): int
    requires ParseRow(row).Ok?
  {
    ParseRow(row).value.id.value
  }

  /** Number of leading rows that convert: the position of the first bad row,
      or the number of rows when every row converts. */
  function GoodPrefix(rows: seq<Row>): (k: nat)
    ensures k <= |rows|
    ensures AllRowsParse(rows[..k])
    ensures k < |rows| ==> ParseRow(rows[k]).Err?
    decreases |rows|
  {
    if rows == [] || ParseRow(rows[0]).Err? then 0
    else
      var k := 1 + GoodPrefix(rows[1..]);
      assert forall j :: 1 <= j < k ==> rows[j] == rows[1..][j - 1];
      k
  }

  /** GoodPrefix is the only position with its two properties. */
  lemma GoodPrefixUnique(rows: seq<Row>, k: nat)
    requires k <= |rows|
    requires AllRowsParse(rows[..k])
    requires k < |rows| ==> ParseRow(rows[k]).Err?
    ensures GoodPrefix(rows) == k
  {
    var g := GoodPrefix(rows);
    assert forall j :: 0 <= j < k ==> rows[..k][j] == rows[j];
    assert forall j :: 0 <= j < g ==> rows[..g][j] == rows[j];
  }

  // ---- Merging rows into the store ----

  /** The store after upserting the records of `rows` one after another, each
      at its own id; a later row overwrites an earlier one with the same id. */
  function MergeRows(db: Db, rows: seq<Row>): (r: Db)
    requires AllRowsParse(rows)
    ensures db.Keys <= r.Keys
    decreases |rows|
  {
    if rows == [] then db
    else
      var last := ParseRow(rows[|rows| - 1]).value;
      MergeRows(db, rows[..|rows| - 1])[last.id.value := last]
  }

  /** Merging keeps the store invariant: every record sits under its own id. */
  lemma {:induction false} MergeRowsKeepsIdsMatchKeys(db: Db, rows: seq<Row>)
    requires AllRowsParse(rows)
    requires IdsMatchKeys(db)
    ensures IdsMatchKeys(MergeRows(db, rows))
    decreases |rows|
  {
    if rows != [] {
      MergeRowsKeepsIdsMatchKeys(db, rows[..|rows| - 1]);
    }
  }

  /** Some row of `rows` carries id `k`. */
  predicate SomeRowHasKey(rows: seq<Row>, k: int)
    requires AllRowsParse(rows)
  {
    exists j :: 0 <= j < |rows| && RowKey(rows[j]) == k
  }

  /** A key is in the merged store exactly when it was in the store before or
      is the id of one of the rows; a key no row names keeps its record. */
  lemma {:induction false} MergeRowsFrame(db: Db, rows: seq<Row>, k: int)
    requires AllRowsParse(rows)
    ensures k in MergeRows(db, rows) <==> k in db || SomeRowHasKey(rows, k)
    ensures !SomeRowHasKey(rows, k) && k in db ==> MergeRows(db, rows)[k] == db[k]
    decreases |rows|
  {
    if rows != [] {
      var n := |rows|;
      var front := rows[..n - 1];
      assert AllRowsParse(front) by {
        assert forall j :: 0 <= j < |front| ==> front[j] == rows[j];
      }
      MergeRowsFrame(db, front, k);
      assert SomeRowHasKey(rows, k) <==> SomeRowHasKey(front, k) || RowKey(rows[n - 1]) == k by {
        if SomeRowHasKey(rows, k) {
          var j :| 0 <= j < n && RowKey(rows[j]) == k;
          if j < n - 1 {
            assert front[j] == rows[j];
          }
        }
        if SomeRowHasKey(front, k) {
          var j :| 0 <= j < |front| && RowKey(front[j]) == k;
          assert rows[j] == front[j];
        }
      }
    }
  }

  /** Last writer wins: the record of a row that no later row overwrites is
      in the merged store under its id, exactly as the row gave it. */
  lemma {:induction false} MergeRowsLastWriterWins(db: Db, rows: seq<Row>, j: nat)
    requires AllRowsParse(rows)
    requires j < |rows|
    requires forall j' :: j < j' < |rows| ==> RowKey(rows[j']) != RowKey(rows[j])
    ensures RowKey(rows[j]) in MergeRows(db, rows)
    ensures MergeRows(db, rows)[RowKey(rows[j])] == ParseRow(rows[j]).value
    decreases |rows|
  {
    if j < |rows| - 1 {
      var front := rows[..|rows| - 1];
      assert forall i :: 0 <= i < |front| ==> front[i] == rows[i];
      MergeRowsLastWriterWins(db, front, j);
    }
  }

  /** Merging n rows adds at most n records to the store. */
  lemma {:induction false} MergeRowsSize(db: Db, rows: seq<Row>)
    requires AllRowsParse(rows)
    ensures |db| <= |MergeRows(db, rows)| <= |db| + |rows|
    decreases |rows|
  {
    if rows != [] {
      var front := rows[..|rows| - 1];
      MergeRowsSize(db, front);
      var before := MergeRows(db, front);
      var last := ParseRow(rows[|rows| - 1]).value;
      if last.id.value in before {
        assert before[last.id.value := last].Keys == before.Keys;
      } else {
        assert before[last.id.value := last].Keys == before.Keys + {last.id.value};
      }
    }
  }

  // ---- The whole upload ----

  /** An upload: the result reported and the store afterwards.  A filename
      without the `.csv` suffix is refused before any row is looked at;
      otherwise the rows are merged in order up to the first bad row, and
      the rows merged before it stay merged. */
  function Upload(db: Db, filename: string, rows: seq<Row>): (r: (UploadResult, Db))
    ensures !EndsWith(filename, CsvSuffix) ==> r == (InvalidFormat, db)
    ensures EndsWith(filename, CsvSuffix) ==> !r.0.InvalidFormat?
    ensures r.0.Loaded? ==>
      && r.0 == Loaded(|rows|, filename)
      && AllRowsParse(rows)
      && r.1 == MergeRows(db, rows)
    ensures r.0.InvalidRow? ==>
      && r.0.merged < |rows|
      && AllRowsParse(rows[..r.0.merged])
      && ParseRow(rows[r.0.merged]) == Err(r.0.cause)
      && r.1 == MergeRows(db, rows[..r.0.merged])
  {
    if !EndsWith(filename, CsvSuffix) then (InvalidFormat, db)
    else
      var k := GoodPrefix(rows);
      var merged := MergeRows(db, rows[..k]);
      if k == |rows| then
        assert rows[..k] == rows;
        (Loaded(k, filename), merged)
      else (InvalidRow(k, ParseRow(rows[k]).error), merged)
  }

  /** An upload never breaks the store invariant, whatever its outcome. */
  lemma UploadKeepsIdsMatchKeys(db: Db, filename: string, rows: seq<Row>)
    requires IdsMatchKeys(db)
    ensures IdsMatchKeys(Upload(db, filename, rows).1)
  {
    var (result, db') := Upload(db, filename, rows);
    if result.Loaded? {
      MergeRowsKeepsIdsMatchKeys(db, rows);
    } else if result.InvalidRow? {
      MergeRowsKeepsIdsMatchKeys(db, rows[..result.merged]);
    }
  }

  /** Rows from the first bad row on are not merged: a key that is in the
      store after a failed upload was there before or is the id of one of
      the rows ahead of the bad row, and a key none of those rows names
      keeps its record. */
  lemma UploadStopsAtBadRow(db: Db, filename: string, rows: seq<Row>, k: int)
    requires Upload(db, filename, rows).0.InvalidRow?
    ensures var (result, db') := Upload(db, filename, rows);
      var merged := rows[..result.merged];
      && (k in db' <==> k in db || SomeRowHasKey(merged, k))
      && (!SomeRowHasKey(merged, k) && k in db ==> db'[k] == db[k])
  {
    var (result, db') := Upload(db, filename, rows);
    MergeRowsFrame(db, rows[..result.merged], k);
  }

  /** After a full load, a row that no later row overwrites can be read back
      under its id exactly as the row gave it. */
  lemma UploadLoadedRowReadable(db: Db, filename: string, rows: seq<Row>, j: nat)
    requires Upload(db, filename, rows).0.Loaded?
    requires j < |rows|
    requires forall j' :: j < j' < |rows| ==> ParseRow(rows[j']).Ok? && RowKey(rows[j']) != RowKey(rows[j])
    ensures RowKey(rows[j]) in Upload(db, filename, rows).1
    ensures Upload(db, filename, rows).1[RowKey(rows[j])] == ParseRow(rows[j]).value
  {
    MergeRowsLastWriterWins(db, rows, j);
  }

  /** An upload of n rows adds at most n records and removes none. */
  lemma UploadSizeBound(db: Db, filename: string, rows: seq<Row>)
    ensures |db| <= |Upload(db, filename, rows).1| <= |db| + |rows|
  {
    var result := Upload(db, filename, rows).0;
    if result.Loaded? {
      MergeRowsSize(db, rows);
    } else if result.InvalidRow? {
      MergeRowsSize(db, rows[..result.merged]);
    }
  }

  // ---- Scenarios ----

  /** A file named `data.txt` is refused and the store is left as it was. */
  lemma UploadTextFileRefused(db: Db, rows: seq<Row>)
    ensures Upload(db, "data.txt", rows) == (InvalidFormat, db)
  {
  }

  /** One good row on an empty store: one car loaded, stored under its id. */
  lemma UploadOneRowOnEmptyStore()
    ensures Upload(map[], "cars.csv", [map["id" := "5", "brand" := "Mazda", "model" := "CX5", "price" := "300000000"]])
      == (Loaded(1, "cars.csv"), map[5 := Car(Some(5), "Mazda", "CX5", 300000000)])
  {
    ParseIntDecimal(5);
    ParseIntDecimal(300000000);
    assert Decimal(5) == "5";
    assert Decimal(300000000) == "300000000";
    assert "cars.csv"[4..] == ".csv";
  }
}
