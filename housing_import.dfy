/**
 * `import_housing_data`: the housing file's rows are grouped by (city, state);
 * each group becomes a `ref_city` row and a `bg_city_demographics` row holding
 * the group's total population and mean household income.
 */
module HousingImport {
  import opened Common
  import opened Ids
  import opened Tables
  import opened Order
  import opened Frames
  import opened Database
  import opened DbManager

  /** All four columns the import needs are present (after stripping the names). */
  predicate HasRequiredColumns(columns: seq<string>)
  {
    && "Zip Code Population" in columns
    && "Median Household Income" in columns
    && "State" in columns
    && "City" in columns
  }

  /** The `rename(columns=...)` of the housing import. */
  function RenameColumn(c: string): string
  {
    if c == "Zip Code Population" then "population"
    else if c == "Median Household Income" then "median_income"
    else if c == "State" then "state_province"
    else if c == "City" then "city_name"
    else c
  }

  lemma RenamedColumnPresent(f: Frame, c: string)
    requires c in f.columns
    ensures RenameColumn(c) in RenameColumns(f, RenameColumn).columns
  {
    var j :| 0 <= j < |f.columns| && f.columns[j] == c;
    assert RenameColumns(f, RenameColumn).columns[j] == RenameColumn(c);
  }

  /** The four columns of the renamed frame, one cell per row. */
  datatype Housing = Housing(cities: seq<Cell>, states: seq<Cell>, populations: seq<Cell>, incomes: seq<Cell>)

  predicate WellFormed(h: Housing)
  {
    |h.states| == |h.cities| && |h.populations| == |h.cities| && |h.incomes| == |h.cities|
  }

  function ReadHousing(f: Frame): (h: Housing)
    requires HasRequiredColumns(StripColumns(f).columns)
    ensures WellFormed(h) && |h.cities| == |f.rows|
  {
    var s := StripColumns(f);
    var g := RenameColumns(s, RenameColumn);
    RenamedColumnPresent(s, "City");
    RenamedColumnPresent(s, "State");
    RenamedColumnPresent(s, "Zip Code Population");
    RenamedColumnPresent(s, "Median Household Income");
    Housing(Column(g, "city_name").value, Column(g, "state_province").value,
            Column(g, "population").value, Column(g, "median_income").value)
  }

  /** Row `i` belongs to the group of `key`: both of its key cells are present and equal the key. */
  predicate InGroup(h: Housing, i: nat, key: Key)
    requires WellFormed(h) && i < |h.cities|
  {
    h.cities[i] == Some(key.0) && h.states[i] == Some(key.1)
  }

  /** The groups `groupby` forms: one per (city, state) pair with both present. */
  function GroupKeySet(h: Housing): set<Key>
    requires WellFormed(h)
  {
    set i | 0 <= i < |h.cities| && h.cities[i].Some? && h.states[i].Some? :: (h.cities[i].value, h.states[i].value)
  }

  /** The groups in the order `groupby` emits them: sorted by city, then by state. */
  function GroupKeys(h: Housing): seq<Key>
    requires WellFormed(h)
  {
    SortedKeys(GroupKeySet(h))
  }

  /** Every row with both key cells present lands in a listed group. */
  lemma GroupKeysCover(h: Housing, i: nat)
    requires WellFormed(h) && i < |h.cities| && h.cities[i].Some? && h.states[i].Some?
    ensures (h.cities[i].value, h.states[i].value) in GroupKeys(h)
  {
    SortedKeysComplete(GroupKeySet(h), (h.cities[i].value, h.states[i].value));
  }

  /** Every listed group has a row, and the groups are listed in strictly increasing order. */
  lemma GroupKeysSound(h: Housing)
    requires WellFormed(h)
    ensures forall key :: key in GroupKeys(h) ==> exists i :: 0 <= i < |h.cities| && InGroup(h, i, key)
    ensures forall k, l :: 0 <= k < l < |GroupKeys(h)| ==> KeyLess(GroupKeys(h)[k], GroupKeys(h)[l])
  {
    forall key | key in GroupKeys(h) ensures exists i :: 0 <= i < |h.cities| && InGroup(h, i, key) {
      assert key in GroupKeySet(h);
      var i :| 0 <= i < |h.cities| && h.cities[i].Some? && h.states[i].Some? && key == (h.cities[i].value, h.states[i].value);
      assert InGroup(h, i, key);
    }
  }

  /** The numbers of the present cells of `values` in the first `n` rows of the group of `key`, in row order. */
  function GroupValues(h: Housing, values: seq<Cell>, toReal: string -> real, key: Key, n: nat): (r: seq<real>)
    requires WellFormed(h) && |values| == |h.cities| && n <= |h.cities|
    ensures |r| <= n
  {
    if n == 0 then []
    else
      var i := n - 1;
      var before := GroupValues(h, values, toReal, key, i);
      if InGroup(h, i, key) && values[i].Some? then before + [toReal(values[i].value)] else before
  }

  function Sum(xs: seq<real>): real
  {
    if xs == [] then 0.0 else Sum(xs[..|xs| - 1]) + xs[|xs| - 1]
  }

  /** The numbers of the present cells of `values` in the first `n` rows whose key cells are both present. */
  function KeyedValues(h: Housing, values: seq<Cell>, toReal: string -> real, n: nat): seq<real>
    requires WellFormed(h) && |values| == |h.cities| && n <= |h.cities|
  {
    if n == 0 then []
    else
      var i := n - 1;
      var before := KeyedValues(h, values, toReal, i);
      if h.cities[i].Some? && h.states[i].Some? && values[i].Some? then before + [toReal(values[i].value)] else before
  }

  /** The group totals of `values` over the first `n` rows, added up over `keys`. */
  function SumOverGroups(h: Housing, values: seq<Cell>, toReal: string -> real, keys: seq<Key>, n: nat): real
    requires WellFormed(h) && |values| == |h.cities| && n <= |h.cities|
  {
    if keys == [] then 0.0
    else SumOverGroups(h, values, toReal, keys[..|keys| - 1], n) + Sum(GroupValues(h, values, toReal, keys[|keys| - 1], n))
  }

  lemma SumAppend(xs: seq<real>, v: real)
    ensures Sum(xs + [v]) == Sum(xs) + v
  {
    assert (xs + [v])[..|xs|] == xs;
  }

  lemma {:induction false} SumOverNoRows(h: Housing, values: seq<Cell>, toReal: string -> real, keys: seq<Key>)
    requires WellFormed(h) && |values| == |h.cities|
    ensures SumOverGroups(h, values, toReal, keys, 0) == 0.0
  {
    if keys != [] {
      SumOverNoRows(h, values, toReal, keys[..|keys| - 1]);
    }
  }

  /** Adding row `i` adds its value to the total of its own group only. */
  lemma {:induction false} SumOverGroupsStep(h: Housing, values: seq<Cell>, toReal: string -> real, keys: seq<Key>, i: nat)
    requires WellFormed(h) && |values| == |h.cities| && i < |h.cities| && Distinct(keys)
    ensures SumOverGroups(h, values, toReal, keys, i + 1) ==
              SumOverGroups(h, values, toReal, keys, i) +
              (if h.cities[i].Some? && h.states[i].Some? && values[i].Some? && (h.cities[i].value, h.states[i].value) in keys
               then toReal(values[i].value) else 0.0)
  {
    if keys != [] {
      var init, last := keys[..|keys| - 1], keys[|keys| - 1];
      assert Distinct(init);
      SumOverGroupsStep(h, values, toReal, init, i);
      if InGroup(h, i, last) && values[i].Some? {
        SumAppend(GroupValues(h, values, toReal, last, i), toReal(values[i].value));
        assert last !in init;
      }
      assert forall key :: key in keys <==> key in init || key == last;
    }
  }

  /** Over distinct keys that cover every keyed row, the group totals add up to the total of the keyed rows. */
  lemma {:induction false} SumOverGroupsTotal(h: Housing, values: seq<Cell>, toReal: string -> real, keys: seq<Key>, n: nat)
    requires WellFormed(h) && |values| == |h.cities| && n <= |h.cities| && Distinct(keys)
    requires forall i :: 0 <= i < n && h.cities[i].Some? && h.states[i].Some? ==> (h.cities[i].value, h.states[i].value) in keys
    ensures SumOverGroups(h, values, toReal, keys, n) == Sum(KeyedValues(h, values, toReal, n))
  {
    if n == 0 {
      SumOverNoRows(h, values, toReal, keys);
    } else {
      var i := n - 1;
      SumOverGroupsTotal(h, values, toReal, keys, i);
      SumOverGroupsStep(h, values, toReal, keys, i);
      KeyedValuesStep(h, values, toReal, i);
    }
  }

  /** One more row adds its value to the keyed total when it has a city, a state and a value. */
  lemma KeyedValuesStep(h: Housing, values: seq<Cell>, toReal: string -> real, i: nat)
    requires WellFormed(h) && |values| == |h.cities| && i < |h.cities|
    ensures Sum(KeyedValues(h, values, toReal, i + 1)) ==
              Sum(KeyedValues(h, values, toReal, i)) +
              (if h.cities[i].Some? && h.states[i].Some? && values[i].Some? then toReal(values[i].value) else 0.0)
  {
    if h.cities[i].Some? && h.states[i].Some? && values[i].Some? {
      SumAppend(KeyedValues(h, values, toReal, i), toReal(values[i].value));
    }
  }

  /**
   * Grouping loses and double-counts nothing: the populations of all groups
   * add up to the population of every row that has both a city and a state.
   */
  lemma PopulationConserved(h: Housing, toReal: string -> real)
    requires WellFormed(h)
    ensures SumOverGroups(h, h.populations, toReal, GroupKeys(h), |h.cities|) == Sum(KeyedValues(h, h.populations, toReal, |h.cities|))
  {
    var keys := GroupKeys(h);
    forall k, l | 0 <= k < l < |keys| ensures keys[k] != keys[l] {
      SortedKeysDistinct(GroupKeySet(h), k, l);
    }
    forall i | 0 <= i < |h.cities| && h.cities[i].Some? && h.states[i].Some?
      ensures (h.cities[i].value, h.states[i].value) in keys
    {
      GroupKeysCover(h, i);
    }
    SumOverGroupsTotal(h, h.populations, toReal, keys, |h.cities|);
  }

  /** `agg({'population': 'sum'})`: missing cells are skipped, so an all-missing group sums to 0. */
  function GroupPopulation(h: Housing, toReal: string -> real, key: Key): real
    requires WellFormed(h)
  {
    Sum(GroupValues(h, h.populations, toReal, key, |h.cities|))
  }

  /** `agg({'median_income': 'mean'})`: missing cells are skipped; an all-missing group has no mean (NaN). */
  function GroupMeanIncome(h: Housing, toReal: string -> real, key: Key): Option<real>
    requires WellFormed(h)
  {
    var xs := GroupValues(h, h.incomes, toReal, key, |h.cities|);
    if xs == [] then None else Some(Sum(xs) / (|xs| as real))
  }

  /** `int(x)` for a float: the integer part, truncated toward zero. */
  function Trunc(x: real): (r: int)
    ensures 0.0 <= x ==> r as real <= x < r as real + 1.0
    ensures x < 0.0 ==> r as real - 1.0 < x <= r as real
  {
    if 0.0 <= x then x.Floor else -((-x).Floor)
  }

  /** `city_df['city_name'] + '-' + city_df['state_province']` */
  function CityLabel(key: Key): string
  {
    key.0 + "-" + key.1
  }

  function CityLabels(keys: seq<Key>): (r: seq<string>)
    ensures |r| == |keys| && forall k :: 0 <= k < |keys| ==> r[k] == CityLabel(keys[k])
  {
    seq(|keys|, k requires 0 <= k < |keys| => CityLabel(keys[k]))
  }

  /**
   * When no state contains '-', the label determines the pair: the state is
   * what follows the label's last '-'.
   */
  lemma {:induction false} CityLabelInjective(p: Key, q: Key)
    requires '-' !in p.1 && '-' !in q.1
    requires CityLabel(p) == CityLabel(q)
    ensures p == q
  {
    var a, b := CityLabel(p), CityLabel(q);
    LastDash(p);
    LastDash(q);
    assert |p.1| == |q.1|;
    assert p.0 == a[..|p.0|] && q.0 == b[..|q.0|];
    assert p.1 == a[|p.0| + 1..] && q.1 == b[|q.0| + 1..];
  }

  /** The label's last '-' is the one just before the state. */
  lemma LastDash(p: Key)
    requires '-' !in p.1
    ensures var a := CityLabel(p);
            a[|a| - |p.1| - 1] == '-' && forall j :: |a| - |p.1| <= j < |a| ==> a[j] != '-'
  {
    var a := CityLabel(p);
    forall j | |a| - |p.1| <= j < |a| ensures a[j] != '-' {
      assert a[j] == p.1[j - |p.0| - 1];
    }
  }

  /** Otherwise two different groups can share a label, and so a city id. */
  lemma CityLabelCollision()
    ensures CityLabel(("A-B", "C")) == CityLabel(("A", "B-C"))
  {
  }

  /** `city_map`: ids 1, 2, ... by first appearance of each label in group order. */
  function CityIds(keys: seq<Key>): (r: map<string, int>)
    ensures forall k :: 0 <= k < |keys| ==> CityLabel(keys[k]) in r
  {
    var labels := CityLabels(keys);
    DenseIdsSpec(labels);
    assert forall k :: 0 <= k < |keys| ==> labels[k] == CityLabel(keys[k]);
    DenseIds(labels)
  }

  /** Two groups share a city id exactly when they share a label. */
  lemma CityIdsShared(keys: seq<Key>, k: nat, l: nat)
    requires k < |keys| && l < |keys|
    ensures CityIds(keys)[CityLabel(keys[k])] == CityIds(keys)[CityLabel(keys[l])] <==> CityLabel(keys[k]) == CityLabel(keys[l])
  {
    var labels := CityLabels(keys);
    DenseIdsSpec(labels);
    assert labels[k] == CityLabel(keys[k]) && labels[l] == CityLabel(keys[l]);
  }

  /** City ids run from 1 to at most the number of groups. */
  lemma CityIdsRange(keys: seq<Key>, k: nat)
    requires k < |keys|
    ensures 1 <= CityIds(keys)[CityLabel(keys[k])] <= |keys|
  {
    var labels := CityLabels(keys);
    assert labels[k] == CityLabel(keys[k]);
    var j := PositionInUnique(labels, labels[k]);
  }

  /** `ref_city_data` */
  function CityRows(keys: seq<Key>): (r: seq<(int, CityRow)>)
    ensures |r| == |keys|
  {
    var ids := CityIds(keys);
    seq(|keys|, k requires 0 <= k < |keys| => (ids[CityLabel(keys[k])], CityRow(keys[k].0, keys[k].1, "USA")))
  }

  /** Each group's city row: its id, its city, its state and the country 'USA'. */
  lemma CityRowsSpec(keys: seq<Key>, k: nat)
    requires k < |keys|
    ensures CityRows(keys)[k].1 == CityRow(keys[k].0, keys[k].1, "USA")
    ensures CityRows(keys)[k].0 == CityIds(keys)[CityLabel(keys[k])]
  {
  }

  const NanToInt: string := "cannot convert float NaN to integer"

  /**
   * `bg_demo_data`: per group its city id, `int` of the population sum and
   * of the mean income, and a poverty rate of 0.0. `int` of a NaN mean raises.
   */
  function DemographicsRows(h: Housing, keys: seq<Key>, toReal: string -> real): (r: Result<seq<(int, DemographicsRow)>, Error>)
    requires WellFormed(h)
  {
    var ids := CityIds(keys);
    if exists k :: 0 <= k < |keys| && GroupMeanIncome(h, toReal, keys[k]).None? then Err(ValueError(NanToInt))
    else
      Ok(seq(|keys|, k requires 0 <= k < |keys| =>
        (ids[CityLabel(keys[k])],
         DemographicsRow(Trunc(GroupPopulation(h, toReal, keys[k])), Trunc(GroupMeanIncome(h, toReal, keys[k]).value), 0.0))))
  }

  /** The demographics fail exactly when some group has no income at all, and then with a ValueError. */
  lemma DemographicsRowsFail(h: Housing, keys: seq<Key>, toReal: string -> real)
    requires WellFormed(h)
    ensures var r := DemographicsRows(h, keys, toReal);
            (r.Err? <==> exists key :: key in keys && GroupValues(h, h.incomes, toReal, key, |h.cities|) == [])
            && (r.Err? ==> r.error == ValueError(NanToInt))
  {
    if exists key :: key in keys && GroupValues(h, h.incomes, toReal, key, |h.cities|) == [] {
      var key :| key in keys && GroupValues(h, h.incomes, toReal, key, |h.cities|) == [];
      var k :| 0 <= k < |keys| && keys[k] == key;
      assert GroupMeanIncome(h, toReal, keys[k]).None?;
    }
  }

  /** Each group's demographics row: its city id, truncated population total and mean income, poverty rate 0.0. */
  lemma DemographicsRowsSpec(h: Housing, keys: seq<Key>, toReal: string -> real, k: nat)
    requires WellFormed(h) && DemographicsRows(h, keys, toReal).Ok? && k < |keys|
    ensures var r := DemographicsRows(h, keys, toReal).value;
            var incomes := GroupValues(h, h.incomes, toReal, keys[k], |h.cities|);
            && |r| == |keys| && incomes != []
            && r[k].0 == CityIds(keys)[CityLabel(keys[k])]
            && r[k].1 == DemographicsRow(Trunc(GroupPopulation(h, toReal, keys[k])), Trunc(Sum(incomes) / (|incomes| as real)), 0.0)
  {
  }

  /** How the import ends and the batches it sends to `ref_city` and `bg_city_demographics`. */
  datatype HousingPlan = HousingPlan(outcome: Outcome, cityRows: seq<(int, CityRow)>, demographicsRows: seq<(int, DemographicsRow)>)

  /**
   * A file without the four columns is skipped without error; otherwise the
   * city rows are sent first (raising `refusal` when the connection refuses
   * statements), then the demographics rows, whose construction raises on a
   * group with no income.
   */
  function PlanHousing(refusal: Option<Error>, f: Frame, toReal: string -> real): (p: HousingPlan)
    ensures !HasRequiredColumns(StripColumns(f).columns) ==> p == HousingPlan(Pass, [], [])
    ensures HasRequiredColumns(StripColumns(f).columns) && refusal.Some? ==> p == HousingPlan(Fail(refusal.value), [], [])
    ensures p.outcome.Fail? ==> p.demographicsRows == []
  {
    if !HasRequiredColumns(StripColumns(f).columns) then HousingPlan(Pass, [], [])
    else if refusal.Some? then HousingPlan(Fail(refusal.value), [], [])
    else
      var h := ReadHousing(f);
      var keys := GroupKeys(h);
      match DemographicsRows(h, keys, toReal)
      case Err(e) => HousingPlan(Fail(e), CityRows(keys), [])
      case Ok(rows) => HousingPlan(Pass, CityRows(keys), rows)
  }

  /** What `import_housing_data` does to the contents a connection sees: only the two city tables change. */
  function HousingRun(db: Db, refusal: Option<Error>, f: Frame, toReal: string -> real): (r: Step)
    ensures r.db == db.(cities := r.db.cities, demographics := r.db.demographics)
    ensures r.db.cities.Keys >= db.cities.Keys && r.db.demographics.Keys >= db.demographics.Keys
    ensures forall id :: id in db.cities ==> r.db.cities[id] == db.cities[id]
    ensures forall id :: id in db.demographics ==> r.db.demographics[id] == db.demographics[id]
    ensures !HasRequiredColumns(StripColumns(f).columns) || refusal.Some? ==> r.db == db
  {
    var p := PlanHousing(refusal, f, toReal);
    Step(p.outcome, db.(cities := InsertOrIgnore(db.cities, p.cityRows),
                        demographics := InsertOrIgnore(db.demographics, p.demographicsRows)))
  }

  /**
   * Running the import again over contents that hold what the first run
   * wrote changes nothing and ends the same way.
   */
  lemma HousingRunStable(db: Db, refusal: Option<Error>, f: Frame, toReal: string -> real, again: Db)
    requires var once := HousingRun(db, refusal, f, toReal).db;
             again.cities == once.cities && again.demographics == once.demographics
    ensures HousingRun(again, refusal, f, toReal) == Step(HousingRun(db, refusal, f, toReal).outcome, again)
  {
    var p := PlanHousing(refusal, f, toReal);
    InsertOrIgnoreIdempotent(db.cities, p.cityRows);
    InsertOrIgnoreIdempotent(db.demographics, p.demographicsRows);
  }

  /**
   * After a successful run over a table without the group's city id, the
   * stored demographics row is that of the first group with the same label.
   */
  lemma HousingRunStores(db: Db, f: Frame, toReal: string -> real, k: nat)
    requires HasRequiredColumns(StripColumns(f).columns)
    requires HousingRun(db, None, f, toReal).outcome == Pass
    requires k < |GroupKeys(ReadHousing(f))|
    requires var keys := GroupKeys(ReadHousing(f));
             CityIds(keys)[CityLabel(keys[k])] !in db.demographics
             && forall l :: 0 <= l < k ==> CityLabel(keys[l]) != CityLabel(keys[k])
    ensures var h := ReadHousing(f);
            var keys := GroupKeys(h);
            var id := CityIds(keys)[CityLabel(keys[k])];
            var incomes := GroupValues(h, h.incomes, toReal, keys[k], |h.cities|);
            && id in HousingRun(db, None, f, toReal).db.demographics
            && incomes != []
            && HousingRun(db, None, f, toReal).db.demographics[id]
                 == DemographicsRow(Trunc(GroupPopulation(h, toReal, keys[k])), Trunc(Sum(incomes) / (|incomes| as real)), 0.0)
  {
    var h := ReadHousing(f);
    var keys := GroupKeys(h);
    HousingRunPasses(db, f, toReal);
    var rows := DemographicsRows(h, keys, toReal).value;
    DemographicsRowsSpec(h, keys, toReal, k);
    forall l | 0 <= l < k ensures rows[l].0 != rows[k].0 {
      DemographicsRowsSpec(h, keys, toReal, l);
      CityIdsShared(keys, l, k);
    }
    assert FirstWithKey(rows, k);
  }

  /** A run that passes has built every demographics row and inserted them all. */
  lemma HousingRunPasses(db: Db, f: Frame, toReal: string -> real)
    requires HasRequiredColumns(StripColumns(f).columns)
    requires HousingRun(db, None, f, toReal).outcome == Pass
    ensures var h := ReadHousing(f);
            var rows := DemographicsRows(h, GroupKeys(h), toReal);
            && rows.Ok?
            && HousingRun(db, None, f, toReal).db.demographics == InsertOrIgnore(db.demographics, rows.value)
  {
  }

  /**
   * `import_housing_data(db)`: a file that could not be loaded is skipped;
   * otherwise the connection ends up as `HousingRun` describes.
   */
  method ImportHousingData(db: DatabaseManager, src: Option<Frame>, toReal: string -> real) returns (r: Outcome)
    requires db.Valid()
    modifies db
    ensures db.Valid() && db.open == old(db.open) && db.tables == old(db.tables) && db.lastInsertRowId == old(db.lastInsertRowId)
    ensures src.None? ==> r == Pass && db.pending == old(db.pending)
    ensures src.Some? ==> Step(r, db.pending) == HousingRun(old(db.pending), old(db.Refusal()), src.value, toReal)
  {
    if src.None? {
      return Pass;
    }
    if !HasRequiredColumns(StripColumns(src.value).columns) {
      return Pass;
    }
    var h := ReadHousing(src.value);
    var keys := GroupKeys(h);
    r := WriteHousing(db, CityRows(keys), DemographicsRows(h, keys, toReal));
  }

  /** The two batch inserts; the demographics rows are built (or fail) between them. */
  method WriteHousing(db: DatabaseManager, cityRows: seq<(int, CityRow)>,
                      demographics: Result<seq<(int, DemographicsRow)>, Error>) returns (r: Outcome)
    requires db.Valid()
    modifies db
    ensures db.Valid() && db.open == old(db.open) && db.tables == old(db.tables) && db.lastInsertRowId == old(db.lastInsertRowId)
    ensures old(db.Refusal()).Some? ==> r == Fail(old(db.Refusal()).value) && db.pending == old(db.pending)
    ensures old(db.Refusal()).None? ==>
              var cities := old(db.pending).(cities := InsertOrIgnore(old(db.pending).cities, cityRows));
              match demographics
              case Err(e) => r == Fail(e) && db.pending == cities
              case Ok(rows) => r == Pass && db.pending == cities.(demographics := InsertOrIgnore(cities.demographics, rows))
  {
    ghost var before := db.pending;
    ghost var refusal := db.Refusal();
    r := db.ExecuteMany(InsertCities(cityRows));
    if r.Fail? {
      return;
    }
    assert refusal.None? && db.Refusal().None?;
    ghost var cities := before.(cities := InsertOrIgnore(before.cities, cityRows));
    assert db.pending == RunBatch(before, InsertCities(cityRows)) == cities;
    if demographics.Err? {
      return Fail(demographics.error);
    }
    r := db.ExecuteMany(InsertDemographics(demographics.value));
    assert db.pending == RunBatch(cities, InsertDemographics(demographics.value));
  }
}
