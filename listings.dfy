/**
 * The listing pipeline of the data collector: `process_listing_data` turns
 * raw listing dictionaries into table rows, filling the defaults and
 * dropping the rows that fail the basic validation, and `clean_data` drops
 * duplicate rows and price outliers and fills missing cells.  The price
 * quartiles that pandas interpolates are parameters, as is the current time
 * that stands in for a missing listing date, read once per listing.
 */
module Listings {
  import opened Wrappers
  import Stats

  /** One entry of a raw listing dictionary: a missing key, an explicit null, or a value. */
  datatype Field<T> = Absent | Null | Present(value: T)

  /** `listing.get(key, default)`: the default for a missing key, None for a null. */
  function Get<T>(f: Field<T>, default: T): Option<T> {
    match f
    case Absent => Some(default)
    case Null => None
    case Present(v) => Some(v)
  }

  /** A raw listing as a source API returns it, reduced to the keys that are read. */
  datatype RawListing = RawListing(
    make: Field<string>,
    model: Field<string>,
    trim: Field<string>,
    year: Field<int>,
    mileage: Field<real>,
    price: Field<real>,
    condition: Field<string>,
    listingDate: Field<string>,
    source: Field<string>)

  /** A row of the listings table; None is a null (NaN) cell. */
  datatype Row = Row(
    make: Option<string>,
    model: Option<string>,
    trim: Option<string>,
    year: Option<int>,
    mileage: Option<real>,
    price: Option<real>,
    condition: Option<string>,
    listingDate: Option<string>,
    source: Option<string>)

  /** The `processed_listing` dictionary built from a listing; now is `datetime.now().isoformat()`. */
  function WithDefaults(l: RawListing, now: string): Row {
    Row(Get(l.make, ""), Get(l.model, ""), Get(l.trim, "Base"), Get(l.year, 0),
        Get(l.mileage, 0.0), Get(l.price, 0.0), Get(l.condition, "Good"),
        Get(l.listingDate, now), Get(l.source, "unknown"))
  }

  /**
   * The basic validation: make, model and year truthy and price above 0.
   * A null price makes the comparison raise, and the listing is skipped
   * as well.
   */
  predicate Valid(r: Row) {
    && r.make.Some? && r.make.value != ""
    && r.model.Some? && r.model.value != ""
    && r.year.Some? && r.year.value != 0
    && r.price.Some? && r.price.value > 0.0
  }

  /**
   * The rows `process_listing_data` keeps, in listing order.  The loop reads
   * the clock once per listing: nows[i] is `datetime.now().isoformat()` at
   * listing i.
   */
  function Processed(listings: seq<RawListing>, nows: seq<string>): (rows: seq<Row>)
    requires |nows| == |listings|
    ensures |rows| <= |listings|
  {
    if listings == [] then []
    else
      var n := |listings| - 1;
      var row := WithDefaults(listings[n], nows[n]);
      Processed(listings[..n], nows[..n]) + (if Valid(row) then [row] else [])
  }

  /** `process_listing_data(listings)`: one loop that appends every valid processed listing. */
  method ProcessListingData(listings: seq<RawListing>, nows: seq<string>) returns (rows: seq<Row>)
    requires |nows| == |listings|
    ensures rows == Processed(listings, nows)
  {
    rows := [];
    for i := 0 to |listings|
      invariant rows == Processed(listings[..i], nows[..i])
    {
      assert listings[..i + 1][..i] == listings[..i];
      assert nows[..i + 1][..i] == nows[..i];
      var row := WithDefaults(listings[i], nows[i]);
      if Valid(row) {
        rows := rows + [row];
      }
    }
    assert listings[..|listings|] == listings;
    assert nows[..|nows|] == nows;
  }

  /** Every kept row has a make, a model, a non-zero year and a positive price. */
  lemma {:induction false} ProcessedValid(listings: seq<RawListing>, nows: seq<string>)
    requires |nows| == |listings|
    ensures forall r :: r in Processed(listings, nows) ==> Valid(r)
    decreases |listings|
  {
    if listings != [] {
      ProcessedValid(listings[..|listings| - 1], nows[..|listings| - 1]);
    }
  }

  /**
   * idx picks rows out of listings: strictly increasing, the k-th row is
   * listing idx[k] processed at its own instant, and every listing that
   * passes the validation is picked.
   */
  ghost predicate Picks(listings: seq<RawListing>, nows: seq<string>, idx: seq<nat>, rows: seq<Row>)
    requires |nows| == |listings|
  {
    && |idx| == |rows|
    && (forall k :: 0 <= k < |idx| ==> idx[k] < |listings| && rows[k] == WithDefaults(listings[idx[k]], nows[idx[k]]))
    && (forall k, l :: 0 <= k < l < |idx| ==> idx[k] < idx[l])
    && (forall i :: 0 <= i < |listings| && Valid(WithDefaults(listings[i], nows[i])) ==> i in idx)
  }

  lemma PicksExtend(listings: seq<RawListing>, nows: seq<string>, idx: seq<nat>, rows: seq<Row>)
    requires |nows| == |listings| && listings != []
    requires Picks(listings[..|listings| - 1], nows[..|listings| - 1], idx, rows)
    ensures var n := |listings| - 1;
      var row := WithDefaults(listings[n], nows[n]);
      if Valid(row) then Picks(listings, nows, idx + [n], rows + [row])
      else Picks(listings, nows, idx, rows)
  {
    var n := |listings| - 1;
    assert forall i :: 0 <= i < n ==> listings[..n][i] == listings[i] && nows[..n][i] == nows[i];
  }

  /** The kept rows are the valid processed listings, in their order. */
  lemma {:induction false} ProcessedSubsequence(listings: seq<RawListing>, nows: seq<string>) returns (idx: seq<nat>)
    requires |nows| == |listings|
    ensures Picks(listings, nows, idx, Processed(listings, nows))
    decreases |listings|
  {
    if listings == [] {
      return [];
    }
    var n := |listings| - 1;
    idx := ProcessedSubsequence(listings[..n], nows[..n]);
    PicksExtend(listings, nows, idx, Processed(listings[..n], nows[..n]));
    if Valid(WithDefaults(listings[n], nows[n])) {
      idx := idx + [n];
    }
  }

  /**
   * Two listings that differ only in the instant at which their missing
   * date was filled in become different rows, so the duplicate drop keeps both.
   */
  lemma DistinctInstantsKeepRows(l: RawListing, now1: string, now2: string)
    requires l.listingDate.Absent? && now1 != now2
    ensures WithDefaults(l, now1) != WithDefaults(l, now2)
    ensures DropDuplicates([WithDefaults(l, now1), WithDefaults(l, now2)]) == [WithDefaults(l, now1), WithDefaults(l, now2)]
  {
    var r1, r2 := WithDefaults(l, now1), WithDefaults(l, now2);
    assert r1.listingDate != r2.listingDate;
    assert DropDuplicates([r1, r2]) == [r1, r2];
  }

  /** The defaults a listing gets for each missing key. */
  lemma MissingFieldsDefaulted(l: RawListing, now: string)
    ensures var r := WithDefaults(l, now);
      && (l.trim.Absent? ==> r.trim == Some("Base"))
      && (l.condition.Absent? ==> r.condition == Some("Good"))
      && (l.mileage.Absent? ==> r.mileage == Some(0.0))
      && (l.source.Absent? ==> r.source == Some("unknown"))
      && (l.listingDate.Absent? ==> r.listingDate == Some(now))
      && (l.price.Absent? ==> !Valid(r))
      && (l.make.Absent? || l.model.Absent? || l.year.Absent? ==> !Valid(r))
  {
  }

  // ----- clean_data -----

  predicate NoDuplicates(rows: seq<Row>) {
    forall i, j :: 0 <= i < j < |rows| ==> rows[i] != rows[j]
  }

  /** `df.drop_duplicates()`: the first occurrence of each row, in order. */
  function DropDuplicates(rows: seq<Row>): (r: seq<Row>)
    ensures |r| <= |rows|
  {
    if rows == [] then []
    else
      var init := rows[..|rows| - 1];
      var last := rows[|rows| - 1];
      DropDuplicates(init) + (if last in init then [] else [last])
  }

  /** Dropping duplicates keeps every row once and adds none. */
  lemma {:induction false} DropDuplicatesSpec(rows: seq<Row>)
    ensures NoDuplicates(DropDuplicates(rows))
    ensures forall x :: x in DropDuplicates(rows) <==> x in rows
    decreases |rows|
  {
    if rows != [] {
      var init := rows[..|rows| - 1];
      DropDuplicatesSpec(init);
      assert rows == init + [rows[|rows| - 1]];
    }
  }

  /** The IQR bounds: Q1 - 1.5 IQR and Q3 + 1.5 IQR. */
  function LowerFence(q1: real, q3: real): real { q1 - 1.5 * (q3 - q1) }
  function UpperFence(q1: real, q3: real): real { q3 + 1.5 * (q3 - q1) }

  /** The row is not an outlier; a null price compares false both ways and stays. */
  predicate WithinFences(r: Row, q1: real, q3: real) {
    r.price.None? || (LowerFence(q1, q3) <= r.price.value <= UpperFence(q1, q3))
  }

  /** `df[~((df['price'] < lower) | (df['price'] > upper))]` */
  function RemoveOutliers(rows: seq<Row>, q1: real, q3: real): (r: seq<Row>)
    ensures |r| <= |rows|
    ensures forall x :: x in r <==> x in rows && WithinFences(x, q1, q3)
  {
    if rows == [] then []
    else
      var last := rows[|rows| - 1];
      RemoveOutliers(rows[..|rows| - 1], q1, q3) + (if WithinFences(last, q1, q3) then [last] else [])
  }

  /** `fillna('Base')` on trim and `fillna('Good')` on condition. */
  function FillText(r: Row): Row {
    r.(trim := Some(r.trim.GetOr("Base")), condition := Some(r.condition.GetOr("Good")))
  }

  function FillTextAll(rows: seq<Row>): (r: seq<Row>)
    ensures |r| == |rows|
    ensures forall i :: 0 <= i < |rows| ==> r[i] == FillText(rows[i])
  {
    seq(|rows|, i requires 0 <= i < |rows| => FillText(rows[i]))
  }

  /** The known mileages of the rows with the given make, model and year, in table order. */
  function GroupMileages(rows: seq<Row>, make: string, model: string, year: int): (ms: seq<real>)
    ensures forall m :: m in ms <==>
      exists r :: r in rows && r.make == Some(make) && r.model == Some(model) && r.year == Some(year) && r.mileage == Some(m)
  {
    if rows == [] then []
    else
      var last := rows[|rows| - 1];
      GroupMileages(rows[..|rows| - 1], make, model, year)
      + (if last.make == Some(make) && last.model == Some(model) && last.year == Some(year) && last.mileage.Some?
         then [last.mileage.value] else [])
  }

  /**
   * `groupby(['make', 'model', 'year'])['mileage'].transform('median')` at
   * row r: the median of its group's known mileages; null when a key cell
   * of r is null (the row is in no group) or no mileage of the group is known.
   */
  function GroupMedian(rows: seq<Row>, r: Row): Option<real> {
    if r.make.Some? && r.model.Some? && r.year.Some? then
      var ms := GroupMileages(rows, r.make.value, r.model.value, r.year.value);
      if ms == [] then None else Some(Stats.Median(ms))
    else None
  }

  /** `df['mileage'].fillna(<group median>)` */
  function FillMileage(rows: seq<Row>): (r: seq<Row>)
    ensures |r| == |rows|
  {
    seq(|rows|, i requires 0 <= i < |rows| =>
      if rows[i].mileage.Some? then rows[i] else rows[i].(mileage := GroupMedian(rows, rows[i])))
  }

  /**
   * `clean_data(df)` up to the text normalisation: drop duplicates, drop
   * the price outliers against the given quartiles, then fill trim,
   * condition and mileage, each step replacing the table.
   */
  method CleanData(df: seq<Row>, q1: real, q3: real) returns (cleaned: seq<Row>)
    ensures cleaned == FillMileage(FillTextAll(RemoveOutliers(DropDuplicates(df), q1, q3)))
    ensures |cleaned| <= |df|
    ensures forall r :: r in cleaned ==> r.trim.Some? && r.condition.Some? && WithinFences(r, q1, q3)
  {
    var table := DropDuplicates(df);
    table := RemoveOutliers(table, q1, q3);
    table := FillTextAll(table);
    table := FillMileage(table);
    cleaned := table;
    CleanedRows(df, q1, q3);
  }

  /** Each cleaned row is a filled copy of a distinct, non-outlier input row. */
  lemma CleanedRows(df: seq<Row>, q1: real, q3: real)
    ensures var cleaned := FillMileage(FillTextAll(RemoveOutliers(DropDuplicates(df), q1, q3)));
      forall r :: r in cleaned ==> r.trim.Some? && r.condition.Some? && WithinFences(r, q1, q3)
  {
    var kept := RemoveOutliers(DropDuplicates(df), q1, q3);
    var filled := FillTextAll(kept);
    var cleaned := FillMileage(filled);
    forall r | r in cleaned ensures r.trim.Some? && r.condition.Some? && WithinFences(r, q1, q3) {
      var i :| 0 <= i < |cleaned| && cleaned[i] == r;
      assert kept[i] in kept;
    }
  }

  /** A filled mileage is the median of the group's known mileages, so it lies between them. */
  lemma FilledMileageWithinGroup(rows: seq<Row>, i: nat)
    requires i < |rows| && rows[i].mileage.None?
    requires FillMileage(rows)[i].mileage.Some?
    ensures var r := rows[i];
      var ms := GroupMileages(rows, r.make.value, r.model.value, r.year.value);
      ms != [] && Stats.Min(ms) <= FillMileage(rows)[i].mileage.value <= Stats.Max(ms)
  {
    var r := rows[i];
    var ms := GroupMileages(rows, r.make.value, r.model.value, r.year.value);
    Stats.MedianBetweenMinAndMax(ms);
  }

  /** A known mileage is never replaced. */
  lemma KnownMileageKept(rows: seq<Row>, i: nat)
    requires i < |rows| && rows[i].mileage.Some?
    ensures FillMileage(rows)[i] == rows[i]
  {
  }

  /**
   * `clean_data` can return two identical rows: duplicates are dropped
   * before the fills, and a null trim filled with 'Base' can equal a row
   * that had 'Base' to begin with.
   */
  lemma CleanDataRepeatsRows()
    ensures var a := Row(Some("Toyota"), Some("Camry"), None, Some(2020), Some(30000.0), Some(20000.0),
                         Some("Good"), Some("2024-01-01"), Some("cargurus"));
      var b := a.(trim := Some("Base"));
      var cleaned := FillMileage(FillTextAll(RemoveOutliers(DropDuplicates([a, b]), 20000.0, 20000.0)));
      |cleaned| == 2 && cleaned[0] == cleaned[1]
  {
    var a := Row(Some("Toyota"), Some("Camry"), None, Some(2020), Some(30000.0), Some(20000.0),
                 Some("Good"), Some("2024-01-01"), Some("cargurus"));
    var b := a.(trim := Some("Base"));
    assert [a, b][..1] == [a];
    assert DropDuplicates([a]) == [a];
    assert DropDuplicates([a, b]) == [a, b];
    assert [a, b][..1] == [a];
    assert RemoveOutliers([a], 20000.0, 20000.0) == [a];
    assert RemoveOutliers([a, b], 20000.0, 20000.0) == [a, b];
  }

  /**
   * `clean_data` with duplicates dropped once more after the fills: the
   * same rows as the as-written version, each once.
   */
  method CleanDataDeduplicated(df: seq<Row>, q1: real, q3: real) returns (cleaned: seq<Row>)
    ensures NoDuplicates(cleaned)
    ensures forall r :: r in cleaned <==> r in FillMileage(FillTextAll(RemoveOutliers(DropDuplicates(df), q1, q3)))
    ensures forall r :: r in cleaned ==> r.trim.Some? && r.condition.Some? && WithinFences(r, q1, q3)
  {
    var table := CleanData(df, q1, q3);
    DropDuplicatesSpec(table);
    cleaned := DropDuplicates(table);
  }
}
