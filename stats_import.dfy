/**
 * `import_nba_stats`: the advanced-statistics file becomes seasons, player
 * bios, stat types and one fact per usable cell.
 */
module StatsImport {
  import opened Common
  import opened Ids
  import opened Tables
  import opened Frames
  import opened Database
  import opened DbManager

  /**
   * The season id of a season label: the whole label as an integer, or else
   * the integer before its first '-'. A missing label reads as the text "nan".
   */
  function SeasonId(name: Cell): (r: Result<int, Error>)
    ensures name.None? ==> r == Err(ValueError("nan"))
  {
    match name
    case None => Err(ValueError("nan"))
    case Some(s) =>
      match ParseInt(s)
      case Some(n) => Ok(n)
      case None =>
        var prefix := Before(s, '-');
        match ParseInt(prefix)
        case Some(n) => Ok(n)
        case None => Err(ValueError(prefix))
  }

  /** A label that is an integer is its own season id. */
  lemma SeasonIdOfInteger(n: int)
    ensures SeasonId(Some(IntToString(n))) == Ok(n)
  {
    ParseIntOfIntToString(n);
  }

  /** A range label such as "2015-16" has the id of its first year. */
  lemma SeasonIdOfRange(year: nat, suffix: string)
    ensures SeasonId(Some(NatToString(year) + "-" + suffix)) == Ok(year)
  {
    var y := NatToString(year);
    var s := y + "-" + suffix;
    RangeIsNotInteger(year, suffix);
    BeforeOfPrefix(y, "-" + suffix, '-');
    assert s == y + ("-" + suffix);
    ParseIntOfIntToString(year);
  }

  /**
   * A label such as "2015_16" is an integer to `int()`, underscore dropped,
   * so its id is 201516 rather than its first year.
   */
  lemma SeasonIdOfGrouped(x: string, y: string)
    requires x != [] && AllDigits(x) && y != [] && AllDigits(y)
    ensures SeasonId(Some(x + "_" + y)) == Ok(DigitsValue(x + y))
  {
    ParseIntOfGrouped(x, y);
  }

  /** A label like "2015-16" is not an integer as a whole. */
  lemma RangeIsNotInteger(year: nat, suffix: string)
    ensures ParseInt(NatToString(year) + "-" + suffix).None?
  {
    var y := NatToString(year);
    var s := y + "-" + suffix;
    assert s[|y|] == '-' && !IsSpace(s[0]);
    assert TrimLeft(s) == s;
    var t := Strip(s);
    assert t == TrimRight(s);
    assert !IsSpace(s[|y|]);
    assert |t| > |y|;
    assert t[|y|] == '-';
    assert t[0] == y[0] && IsDigit(t[0]);
    ParseIntOfNonDigit(s, |y|);
  }

  /** The text before `c` in `a + b`, when `a` has no `c` and `b` starts with it. */
  lemma {:induction false} BeforeOfPrefix(a: string, b: string, c: char)
    requires c !in a && b != [] && b[0] == c
    ensures Before(a + b, c) == a
  {
    if a != [] {
      assert (a + b)[1..] == a[1..] + b;
      BeforeOfPrefix(a[1..], b, c);
    }
  }

  /** The season row a label gives, or the error its id raises. */
  function SeasonRowOf(name: Cell): Result<(int, SeasonRow), Error>
  {
    match SeasonId(name)
    case Err(e) => Err(e)
    case Ok(id) => Ok((id, SeasonRow(name.value, 0)))
  }

  /** The row of each label in order, or the error of the first label whose row fails. */
  function RowsInOrder<T>(labels: seq<Cell>, rowOf: Cell -> Result<T, Error>): (r: Result<seq<T>, Error>)
    ensures r.Ok? ==> |r.value| == |labels|
    decreases |labels|
  {
    if labels == [] then Ok([])
    else
      var n := |labels| - 1;
      match RowsInOrder(labels[..n], rowOf)
      case Err(e) => Err(e)
      case Ok(front) =>
        match rowOf(labels[n])
        case Err(e) => Err(e)
        case Ok(row) => Ok(front + [row])
  }

  /**
   * Walking the labels in order succeeds exactly when every label has a row,
   * and then yields those rows in order; otherwise it fails with the error of
   * the first label that has none.
   */
  lemma {:induction false} RowsInOrderSpec<T>(labels: seq<Cell>, rowOf: Cell -> Result<T, Error>)
    ensures RowsInOrder(labels, rowOf).Ok? <==> forall i :: 0 <= i < |labels| ==> rowOf(labels[i]).Ok?
    ensures RowsInOrder(labels, rowOf).Ok? ==>
              forall i :: 0 <= i < |labels| ==> RowsInOrder(labels, rowOf).value[i] == rowOf(labels[i]).value
    ensures RowsInOrder(labels, rowOf).Err? ==>
              exists i :: 0 <= i < |labels| && rowOf(labels[i]) == Err(RowsInOrder(labels, rowOf).error)
                          && forall j :: 0 <= j < i ==> rowOf(labels[j]).Ok?
    decreases |labels|
  {
    if labels != [] {
      var n := |labels| - 1;
      var front := labels[..n];
      RowsInOrderSpec(front, rowOf);
      assert forall i :: 0 <= i < n ==> front[i] == labels[i];
      if RowsInOrder(front, rowOf).Err? {
        var i :| 0 <= i < n && rowOf(front[i]) == Err(RowsInOrder(front, rowOf).error)
                 && forall j :: 0 <= j < i ==> rowOf(front[j]).Ok?;
        assert rowOf(labels[i]) == Err(RowsInOrder(labels, rowOf).error);
      } else if rowOf(labels[n]).Err? {
        assert rowOf(labels[n]) == Err(RowsInOrder(labels, rowOf).error);
      } else {
        var rows, frontRows := RowsInOrder(labels, rowOf).value, RowsInOrder(front, rowOf).value;
        assert rows == frontRows + [rowOf(labels[n]).value];
        forall i | 0 <= i < n ensures rows[i] == rowOf(labels[i]).value {
          assert rows[i] == frontRows[i];
        }
      }
    }
  }

  /** Once a prefix of the labels fails, the whole walk fails the same way. */
  lemma {:induction false} RowsInOrderOfFailedPrefix<T>(labels: seq<Cell>, k: nat, rowOf: Cell -> Result<T, Error>)
    requires k <= |labels| && RowsInOrder(labels[..k], rowOf).Err?
    ensures RowsInOrder(labels, rowOf) == RowsInOrder(labels[..k], rowOf)
    decreases |labels|
  {
    if k < |labels| {
      var n := |labels| - 1;
      assert labels[..n][..k] == labels[..k];
      RowsInOrderOfFailedPrefix(labels[..n], k, rowOf);
    } else {
      assert labels[..k] == labels;
    }
  }

  /** The `(season_id, season_year)` pairs of the season loop. */
  function SeasonRows(labels: seq<Cell>): (r: Result<seq<(int, SeasonRow)>, Error>)
    ensures r.Ok? ==> |r.value| == |labels|
  {
    RowsInOrder(labels, SeasonRowOf)
  }

  /**
   * The season loop succeeds exactly when every label has an id, and then
   * pairs each label with its id; otherwise it fails with the first error.
   */
  lemma SeasonRowsSpec(labels: seq<Cell>, i: nat)
    requires i < |labels|
    ensures SeasonRows(labels).Ok? ==> SeasonId(labels[i]).Ok? && labels[i].Some?
                                       && SeasonRows(labels).value[i] == (SeasonId(labels[i]).value, SeasonRow(labels[i].value, 0))
    ensures SeasonId(labels[i]).Err? ==> SeasonRows(labels).Err?
  {
    RowsInOrderSpec(labels, SeasonRowOf);
    assert SeasonRows(labels).Ok? ==> SeasonRowOf(labels[i]).Ok?;
  }

  /**
   * `season_id_map`: each label mapped to the id of its row (labels are
   * distinct where the import uses it; a repeated label keeps its last row).
   */
  function SeasonIdMap(labels: seq<Cell>, rows: seq<(int, SeasonRow)>): (r: map<Cell, int>)
    requires |rows| == |labels|
    ensures forall i :: 0 <= i < |labels| ==> labels[i] in r
    decreases |labels|
  {
    if labels == [] then map[]
    else
      var n := |labels| - 1;
      var front := SeasonIdMap(labels[..n], rows[..n]);
      assert forall i :: 0 <= i < n ==> labels[..n][i] == labels[i];
      front[labels[n] := rows[n].0]
  }

  /** Every key of `season_id_map` is a label, mapped to the id of one of its rows. */
  lemma {:induction false} SeasonIdMapValues(labels: seq<Cell>, rows: seq<(int, SeasonRow)>, l: Cell)
    requires |rows| == |labels| && l in SeasonIdMap(labels, rows)
    ensures exists i :: 0 <= i < |labels| && labels[i] == l && SeasonIdMap(labels, rows)[l] == rows[i].0
    decreases |labels|
  {
    var n := |labels| - 1;
    if l != labels[n] {
      SeasonIdMapValues(labels[..n], rows[..n], l);
      var i :| 0 <= i < n && labels[..n][i] == l && SeasonIdMap(labels[..n], rows[..n])[l] == rows[..n][i].0;
      assert labels[i] == l;
    }
  }

  /** Every label of a successful season loop maps to its own season id. */
  lemma SeasonIdMapIds(labels: seq<Cell>)
    requires SeasonRows(labels).Ok?
    ensures forall i :: 0 <= i < |labels| ==>
              SeasonId(labels[i]) == Ok(SeasonIdMap(labels, SeasonRows(labels).value)[labels[i]])
  {
    var m := SeasonIdMap(labels, SeasonRows(labels).value);
    forall i | 0 <= i < |labels| ensures SeasonId(labels[i]) == Ok(m[labels[i]]) {
      SeasonIdMapValues(labels, SeasonRows(labels).value, labels[i]);
      var j :| 0 <= j < |labels| && labels[j] == labels[i] && m[labels[i]] == SeasonRows(labels).value[j].0;
      SeasonRowsSpec(labels, j);
    }
  }

  /** What the season loop leaves behind: `season_data` and `season_id_map`, or the first error. */
  function SeasonTables(labels: seq<Cell>, rowOf: Cell -> Result<(int, SeasonRow), Error>)
    : Result<(seq<(int, SeasonRow)>, map<Cell, int>), Error>
  {
    match RowsInOrder(labels, rowOf)
    case Err(e) => Err(e)
    case Ok(rows) => Ok((rows, SeasonIdMap(labels, rows)))
  }

  /** One more label: its row is appended and its id recorded, or its error ends the walk. */
  lemma SeasonTablesStep(labels: seq<Cell>, i: nat, rowOf: Cell -> Result<(int, SeasonRow), Error>)
    requires i < |labels| && SeasonTables(labels[..i], rowOf).Ok?
    ensures var before := SeasonTables(labels[..i], rowOf).value;
            SeasonTables(labels[..i + 1], rowOf)
            == match rowOf(labels[i])
               case Err(e) => Err(e)
               case Ok(row) => Ok((before.0 + [row], before.1[labels[i] := row.0]))
  {
    assert labels[..i + 1][..i] == labels[..i];
    var rows := RowsInOrder(labels[..i], rowOf).value;
    if rowOf(labels[i]).Ok? {
      var rows' := rows + [rowOf(labels[i]).value];
      assert rows'[..i] == rows;
    }
  }

  /** Once a prefix of the labels fails, the whole loop fails the same way. */
  lemma SeasonTablesOfFailedPrefix(labels: seq<Cell>, k: nat, rowOf: Cell -> Result<(int, SeasonRow), Error>)
    requires k <= |labels| && SeasonTables(labels[..k], rowOf).Err?
    ensures SeasonTables(labels, rowOf) == SeasonTables(labels[..k], rowOf)
  {
    RowsInOrderOfFailedPrefix(labels, k, rowOf);
  }

  /**
   * The season loop: fills `season_data` and `season_id_map` label by label,
   * and stops at the first label that has no id. `rowOf` reads one label's
   * row; the import passes `SeasonRowOf`, and the loop's proof does not
   * depend on how an id is parsed.
   */
  method MapSeasons(labels: seq<Cell>, rowOf: Cell -> Result<(int, SeasonRow), Error>)
    returns (r: Result<(seq<(int, SeasonRow)>, map<Cell, int>), Error>)
    ensures r == SeasonTables(labels, rowOf)
  {
    var seasonData: seq<(int, SeasonRow)> := [];
    var seasonIdMap: map<Cell, int> := map[];
    var i := 0;
    while i < |labels|
      invariant 0 <= i <= |labels|
      invariant SeasonTables(labels[..i], rowOf) == Ok((seasonData, seasonIdMap))
    {
      var name := labels[i];
      SeasonTablesStep(labels, i, rowOf);
      match rowOf(name)
      case Err(e) =>
        SeasonTablesOfFailedPrefix(labels, i + 1, rowOf);
        return Err(e);
      case Ok(row) =>
        seasonIdMap := seasonIdMap[name := row.0];
        seasonData := seasonData + [row];
      i := i + 1;
    }
    assert labels[..i] == labels;
    r := Ok((seasonData, seasonIdMap));
  }

  /** `row['pos'] if pd.notna(row['pos']) else 'N/A'` */
  function PositionOrDefault(pos: Cell): string
  {
    if pos.Some? then pos.value else "N/A"
  }

  /**
   * The `stat_player_bio` rows: the first row of each player, with its age
   * (possibly missing) as birth date, its position or 'N/A', and salary 0.
   */
  function BioRows(players: seq<Cell>, ages: seq<Cell>, positions: seq<Cell>): (r: seq<(int, PlayerRow)>)
    requires |ages| == |players| && |positions| == |players|
    ensures |r| == |Unique(players)|
    ensures forall k :: 0 <= k < |r| ==> r[k].0 == k + 1
  {
    var ids := DenseIds(players);
    var fi := FirstIndices(players, |players|);
    seq(|fi|, k requires 0 <= k < |fi| =>
      var i := fi[k];
      (ids[players[i]], PlayerRow(players[i], ages[i], PositionOrDefault(positions[i]), 0)))
  }

  /**
   * After the bio rows are written, every player of the file has the row built
   * from its first occurrence, under its dense id; a re-run overwrites it with the same row.
   */
  lemma BioRowsWritten(t: map<int, PlayerRow>, players: seq<Cell>, ages: seq<Cell>, positions: seq<Cell>, i: nat)
    requires |ages| == |players| && |positions| == |players| && i < |players|
    ensures var written := InsertOrReplace(t, BioRows(players, ages, positions));
            var first := FirstIndex(players, players[i]);
            && DenseIds(players)[players[i]] in written
            && written[DenseIds(players)[players[i]]]
               == PlayerRow(players[i], ages[first], PositionOrDefault(positions[first]), 0)
  {
    var rows := BioRows(players, ages, positions);
    var k := PositionInUnique(players, players[i]);
    assert LastWithKey(rows, k);
  }

  /** The columns `import_nba_stats` never treats as statistics. */
  const IgnoredColumns: seq<string> := ["player_id", "season", "player", "lg", "team", "age", "pos", "g", "gs", "mp", "player_id"]

  /** `[col for col in df.columns if col not in ignore_cols]` */
  function StatColumns(columns: seq<string>): (r: seq<string>)
    ensures forall k :: 0 <= k < |r| ==> r[k] in columns && r[k] !in IgnoredColumns
    ensures forall j :: 0 <= j < |columns| && columns[j] !in IgnoredColumns ==> columns[j] in r
    ensures |r| <= |columns|
  {
    if columns == [] then []
    else if columns[0] in IgnoredColumns then StatColumns(columns[1..])
    else [columns[0]] + StatColumns(columns[1..])
  }

  /** No name occurs twice. */
  predicate Distinct(names: seq<string>)
  {
    forall i, j :: 0 <= i < j < |names| ==> names[i] != names[j]
  }

  /**
   * What `if pd.notna(value)` raises when `value` is a Series: the cell of a
   * row under a repeated column name is a Series of all its cells.
   */
  const AmbiguousTruth: string := "The truth value of a Series is ambiguous. Use a.empty, a.bool(), a.item(), a.any() or a.all()."

  /**
   * Whether the bio rows meet a Series: `row['age']` or `row['pos']` of some
   * row, when the name is repeated.
   */
  predicate BioCellsRepeated(g: Frame)
  {
    g.rows != [] && (Repeated(g.columns, "age") || Repeated(g.columns, "pos"))
  }

  /**
   * Whether the fact loop meets a Series: `row.get(stat)` for a stat name
   * that two columns share, in the first row.
   */
  predicate StatCellsRepeated(g: Frame)
  {
    g.rows != [] && !Distinct(StatColumns(g.columns))
  }

  /** `ref_advanced_stat_type` rows: stat k (from 0) has id k + 1, and its name is also its abbreviation. */
  function StatTypeRows(stats: seq<string>): seq<(int, StatTypeRow)>
  {
    seq(|stats|, k requires 0 <= k < |stats| => (k + 1, StatTypeRow(stats[k], stats[k])))
  }

  /** The fact for a player-season row and stat `k` (id k + 1), when its cell is present and reads as a number. */
  function CellFact(pid: int, sid: int, row: seq<Cell>, columnOf: seq<nat>, toFloat: string -> Option<real>, k: nat)
    : Option<(FactKey, real)>
    requires k < |columnOf|
  {
    match CellAt(row, columnOf[k])
    case None => None
    case Some(text) =>
      match toFloat(text)
      case None => None
      case Some(v) => Some((FactKey(pid, sid, k + 1), v))
  }

  /** The facts of one row for its first `n` stat columns, in stat-id order. */
  function RowFacts(pid: int, sid: int, row: seq<Cell>, columnOf: seq<nat>, toFloat: string -> Option<real>, n: nat)
    : (r: seq<(FactKey, real)>)
    requires n <= |columnOf|
    ensures |r| <= n
  {
    if n == 0 then []
    else
      var front := RowFacts(pid, sid, row, columnOf, toFloat, n - 1);
      match CellFact(pid, sid, row, columnOf, toFloat, n - 1)
      case None => front
      case Some(fact) => front + [fact]
  }

  /** The id that `ids` gives each row's label: `player_id_map[row['player']]`, `season_id_map[row['season']]`. */
  function RowIds(labels: seq<Cell>, ids: map<Cell, int>): (r: seq<int>)
    requires forall i :: 0 <= i < |labels| ==> labels[i] in ids
    ensures |r| == |labels| && forall i :: 0 <= i < |labels| ==> r[i] == ids[labels[i]]
  {
    seq(|labels|, i requires 0 <= i < |labels| => ids[labels[i]])
  }

  /** The parts one after another. */
  function Concat<T>(parts: seq<seq<T>>): seq<T>
  {
    if parts == [] then [] else Concat(parts[..|parts| - 1]) + parts[|parts| - 1]
  }

  /** An element of the concatenation is an element of one of the parts. */
  lemma {:induction false} ConcatMembers<T>(parts: seq<seq<T>>, x: T)
    ensures x in Concat(parts) <==> exists i :: 0 <= i < |parts| && x in parts[i]
  {
    if parts != [] {
      var init := parts[..|parts| - 1];
      ConcatMembers(init, x);
      assert forall i :: 0 <= i < |init| ==> init[i] == parts[i];
    }
  }

  /** The facts of each row, in row order; row i has ids `pids[i]`, `sids[i]`. */
  function FactsByRow(pids: seq<int>, sids: seq<int>, rows: seq<seq<Cell>>, columnOf: seq<nat>,
                      toFloat: string -> Option<real>): (r: seq<seq<(FactKey, real)>>)
    requires |rows| == |pids| == |sids|
    ensures |r| == |rows|
    ensures forall i :: 0 <= i < |rows| ==> r[i] == RowFacts(pids[i], sids[i], rows[i], columnOf, toFloat, |columnOf|)
  {
    seq(|rows|, i requires 0 <= i < |rows| => RowFacts(pids[i], sids[i], rows[i], columnOf, toFloat, |columnOf|))
  }

  /** A fact is in a row's list exactly when it comes from one of that row's stat cells. */
  lemma {:induction false} RowFactsMembers(pid: int, sid: int, row: seq<Cell>, columnOf: seq<nat>,
                                           toFloat: string -> Option<real>, n: nat, x: (FactKey, real))
    requires n <= |columnOf|
    ensures x in RowFacts(pid, sid, row, columnOf, toFloat, n)
            <==> exists k :: 0 <= k < n && CellFact(pid, sid, row, columnOf, toFloat, k) == Some(x)
  {
    if n > 0 {
      RowFactsMembers(pid, sid, row, columnOf, toFloat, n - 1, x);
    }
  }

  /**
   * `fact_advanced_data` holds a fact exactly when some row and some stat
   * column give it: a present cell that reads as a number.
   */
  lemma FactsMembers(pids: seq<int>, sids: seq<int>, rows: seq<seq<Cell>>, columnOf: seq<nat>,
                     toFloat: string -> Option<real>, x: (FactKey, real))
    requires |rows| == |pids| == |sids|
    ensures x in Concat(FactsByRow(pids, sids, rows, columnOf, toFloat))
            <==> exists i, k :: 0 <= i < |rows| && 0 <= k < |columnOf|
                   && CellFact(pids[i], sids[i], rows[i], columnOf, toFloat, k) == Some(x)
  {
    var parts := FactsByRow(pids, sids, rows, columnOf, toFloat);
    ConcatMembers(parts, x);
    if x in Concat(parts) {
      var i :| 0 <= i < |parts| && x in parts[i];
      RowFactsMembers(pids[i], sids[i], rows[i], columnOf, toFloat, |columnOf|, x);
    }
    if exists i, k :: 0 <= i < |rows| && 0 <= k < |columnOf|
                      && CellFact(pids[i], sids[i], rows[i], columnOf, toFloat, k) == Some(x) {
      var i, k :| 0 <= i < |rows| && 0 <= k < |columnOf|
                  && CellFact(pids[i], sids[i], rows[i], columnOf, toFloat, k) == Some(x);
      RowFactsMembers(pids[i], sids[i], rows[i], columnOf, toFloat, |columnOf|, x);
      assert x in parts[i];
    }
  }

  /** The fact loop: every row, then every stat column. */
  method CollectFacts(players: seq<Cell>, seasons: seq<Cell>, playerIds: map<Cell, int>, seasonIds: map<Cell, int>,
                      rows: seq<seq<Cell>>, columnOf: seq<nat>, toFloat: string -> Option<real>)
    returns (facts: seq<(FactKey, real)>)
    requires |rows| == |players| == |seasons|
    requires forall i :: 0 <= i < |rows| ==> players[i] in playerIds && seasons[i] in seasonIds
    ensures facts == Concat(FactsByRow(RowIds(players, playerIds), RowIds(seasons, seasonIds), rows, columnOf, toFloat))
  {
    ghost var parts := FactsByRow(RowIds(players, playerIds), RowIds(seasons, seasonIds), rows, columnOf, toFloat);
    facts := [];
    for i := 0 to |rows|
      invariant facts == Concat(parts[..i])
    {
      var rowFacts := CollectRowFacts(playerIds[players[i]], seasonIds[seasons[i]], rows[i], columnOf, toFloat);
      assert parts[..i + 1][..i] == parts[..i];
      facts := facts + rowFacts;
    }
    assert parts[..|rows|] == parts;
  }

  /** The inner loop over the stat columns of one row; a cell that is missing or not a number is skipped. */
  method CollectRowFacts(pid: int, sid: int, row: seq<Cell>, columnOf: seq<nat>, toFloat: string -> Option<real>)
    returns (facts: seq<(FactKey, real)>)
    ensures facts == RowFacts(pid, sid, row, columnOf, toFloat, |columnOf|)
  {
    facts := [];
    for k := 0 to |columnOf|
      invariant facts == RowFacts(pid, sid, row, columnOf, toFloat, k)
    {
      var value := CellAt(row, columnOf[k]);
      if value.Some? {
        var v := toFloat(value.value);
        if v.Some? {
          facts := facts + [(FactKey(pid, sid, k + 1), v.value)];
        }
      }
    }
  }

  /** Where each stat column is read from: the first column with its name. */
  function StatColumnIndices(columns: seq<string>, stats: seq<string>): (r: seq<nat>)
    requires forall k :: 0 <= k < |stats| ==> stats[k] in columns
    ensures |r| == |stats| && forall k :: 0 <= k < |stats| ==> r[k] < |columns| && columns[r[k]] == stats[k]
  {
    seq(|stats|, k requires 0 <= k < |stats| => ColumnIndex(columns, stats[k]).value)
  }

  /** `fact_advanced_data`, given each season label's id. */
  function StatsFacts(f: Frame, players: seq<Cell>, seasons: seq<Cell>, seasonIds: map<Cell, int>,
                      toFloat: string -> Option<real>): seq<(FactKey, real)>
    requires |players| == |f.rows| && |seasons| == |f.rows|
    requires forall i :: 0 <= i < |seasons| ==> seasons[i] in seasonIds
  {
    var stats := StatColumns(f.columns);
    Concat(FactsByRow(RowIds(players, DenseIds(players)), RowIds(seasons, seasonIds), f.rows, StatColumnIndices(f.columns, stats), toFloat))
  }

  /**
   * What `import_nba_stats` writes, as its four batches in the order it
   * sends them (a batch the import does not reach is empty), and how it ends.
   */
  datatype StatsPlan = StatsPlan(
    outcome: Outcome,
    seasonRows: seq<(int, SeasonRow)>,
    bioRows: seq<(int, PlayerRow)>,
    statRows: seq<(int, StatTypeRow)>,
    factRows: seq<(FactKey, real)>)

  /** An import that stops before writing anything. */
  function Halt(e: Error): StatsPlan
  {
    StatsPlan(Fail(e), [], [], [], [])
  }

  /** What the import reads before it writes anything: the stripped frame, its key columns and the seasons. */
  datatype StatsInputs = StatsInputs(
    g: Frame, players: seq<Cell>, seasons: seq<Cell>,
    seasonRows: seq<(int, SeasonRow)>, seasonIds: map<Cell, int>)

  predicate WellFormedInputs(inp: StatsInputs)
  {
    && |inp.players| == |inp.g.rows| && |inp.seasons| == |inp.g.rows|
    && forall i :: 0 <= i < |inp.seasons| ==> inp.seasons[i] in inp.seasonIds
  }

  /**
   * The reading part of `import_nba_stats`: the `player` column, the
   * `season` column, then the season id of every distinct label; the first
   * of these that fails is the import's error.
   */
  function ReadStats(f: Frame): (r: Result<StatsInputs, Error>)
    ensures r.Ok? ==> WellFormedInputs(r.value)
  {
    var g := StripColumns(f);
    match SeriesColumn(g, "player")
    case Err(e) => Err(e)
    case Ok(players) =>
      match SeriesColumn(g, "season")
      case Err(e) => Err(e)
      case Ok(seasons) =>
        match SeasonTables(Unique(seasons), SeasonRowOf)
        case Err(e) => Err(e)
        case Ok((seasonRows, seasonIds)) =>
          assert seasonIds == SeasonIdMap(Unique(seasons), seasonRows);
          assert forall i :: 0 <= i < |seasons| ==> seasons[i] in seasonIds;
          Ok(StatsInputs(g, players, seasons, seasonRows, seasonIds))
  }

  /**
   * The plan of `import_nba_stats` for a file (column names not yet
   * stripped) and a connection whose statements run or are refused with
   * `refusal`. Errors surface in the order the source meets them: reading
   * the file, the season batch, then the `age` and `pos` columns.
   */
  function PlanStats(refusal: Option<Error>, f: Frame, toFloat: string -> Option<real>): (p: StatsPlan)
    ensures refusal.Some? ==> p.outcome.Fail? && p.seasonRows == [] && p.bioRows == [] && p.statRows == [] && p.factRows == []
    ensures refusal.Some? && ReadStats(f).Ok? ==> p.outcome == Fail(refusal.value)
  {
    match ReadStats(f)
    case Err(e) => Halt(e)
    case Ok(inp) =>
      if refusal.Some? then Halt(refusal.value)
      else PlanWrites(inp.g, inp.players, inp.seasons, inp.seasonIds, toFloat).(seasonRows := inp.seasonRows)
  }

  /**
   * The part of the plan after the seasons are written: a missing `age` or
   * `pos` column stops it there, and so does a repeated one when there are
   * rows; otherwise the bios and the stat types follow, and then the facts,
   * unless two stat columns share a name and there are rows.
   */
  function PlanWrites(g: Frame, players: seq<Cell>, seasons: seq<Cell>, seasonIds: map<Cell, int>,
                      toFloat: string -> Option<real>): (p: StatsPlan)
    requires |players| == |g.rows| && |seasons| == |g.rows|
    requires forall i :: 0 <= i < |seasons| ==> seasons[i] in seasonIds
    ensures p.seasonRows == []
  {
    match Column(g, "age")
    case Err(e) => Halt(e)
    case Ok(ages) =>
      match Column(g, "pos")
      case Err(e) => Halt(e)
      case Ok(positions) =>
        if BioCellsRepeated(g) then Halt(ValueError(AmbiguousTruth))
        else if StatCellsRepeated(g) then
          StatsPlan(Fail(ValueError(AmbiguousTruth)), [], BioRows(players, ages, positions),
                    StatTypeRows(StatColumns(g.columns)), [])
        else
          StatsPlan(Pass, [], BioRows(players, ages, positions), StatTypeRows(StatColumns(g.columns)),
                    StatsFacts(g, players, seasons, seasonIds, toFloat))
  }

  /**
   * An import that passes over a file with rows found each of `player`,
   * `season`, `age` and `pos` under one column, and each stat name under one
   * column, so that every stat id reads its own column.
   */
  lemma PassingStatsDistinct(f: Frame, toFloat: string -> Option<real>)
    requires PlanStats(None, f, toFloat).outcome == Pass && f.rows != []
    ensures var g := StripColumns(f);
            && Distinct(StatColumns(g.columns))
            && !Repeated(g.columns, "player") && !Repeated(g.columns, "season")
            && !Repeated(g.columns, "age") && !Repeated(g.columns, "pos")
  {
    var g := StripColumns(f);
    assert ReadStats(f).Ok?;
    var inp := ReadStats(f).value;
    assert inp.g == g && SeriesColumn(g, "player").Ok? && SeriesColumn(g, "season").Ok?;
    var p := PlanWrites(inp.g, inp.players, inp.seasons, inp.seasonIds, toFloat);
    assert p.outcome == Pass;
    assert !BioCellsRepeated(g) && !StatCellsRepeated(g);
  }

  /** The contents after a plan's batches: seasons, stat types and facts OR IGNORE, bios OR REPLACE. */
  function ApplyStats(db: Db, p: StatsPlan): (r: Db)
    ensures r == db.(seasons := r.seasons, players := r.players, statTypes := r.statTypes, facts := r.facts)
    ensures p.seasonRows == [] && p.bioRows == [] && p.statRows == [] && p.factRows == [] ==> r == db
  {
    db.(seasons := InsertOrIgnore(db.seasons, p.seasonRows),
        players := InsertOrReplace(db.players, p.bioRows),
        statTypes := InsertOrIgnore(db.statTypes, p.statRows),
        facts := InsertOrIgnore(db.facts, p.factRows))
  }

  /**
   * What `import_nba_stats` does to the contents a connection sees: only the
   * four tables it writes change, and when its statements are refused
   * nothing does.
   */
  function StatsRun(db: Db, refusal: Option<Error>, f: Frame, toFloat: string -> Option<real>): (r: Step)
    ensures r.db == db.(seasons := r.db.seasons, players := r.db.players, statTypes := r.db.statTypes, facts := r.db.facts)
    ensures refusal.Some? ==> r.db == db && r.outcome.Fail?
  {
    var p := PlanStats(refusal, f, toFloat);
    Step(p.outcome, ApplyStats(db, p))
  }

  /**
   * Running the import again over contents that already hold what the first
   * run wrote changes nothing and ends the same way.
   */
  lemma StatsRunStable(db: Db, refusal: Option<Error>, f: Frame, toFloat: string -> Option<real>, again: Db)
    requires var s := StatsRun(db, refusal, f, toFloat).db;
             again.seasons == s.seasons && again.players == s.players
             && again.statTypes == s.statTypes && again.facts == s.facts
    ensures StatsRun(again, refusal, f, toFloat) == Step(StatsRun(db, refusal, f, toFloat).outcome, again)
  {
    var p := PlanStats(refusal, f, toFloat);
    InsertOrIgnoreIdempotent(db.seasons, p.seasonRows);
    InsertOrReplaceIdempotent(db.players, p.bioRows);
    InsertOrIgnoreIdempotent(db.statTypes, p.statRows);
    InsertOrIgnoreIdempotent(db.facts, p.factRows);
  }

  /**
   * `import_nba_stats(db)`: a file that could not be loaded is skipped;
   * otherwise the connection ends up as `StatsRun` describes.
   */
  method ImportNbaStats(db: DatabaseManager, src: Option<Frame>, toFloat: string -> Option<real>) returns (r: Outcome)
    requires db.Valid()
    modifies db
    ensures db.Valid() && db.open == old(db.open) && db.tables == old(db.tables) && db.lastInsertRowId == old(db.lastInsertRowId)
    ensures src.None? ==> r == Pass && db.pending == old(db.pending)
    ensures src.Some? ==> Step(r, db.pending) == StatsRun(old(db.pending), old(db.Refusal()), src.value, toFloat)
  {
    if src.None? {
      return Pass;
    }
    r := ImportStatsFrame(db, src.value, toFloat);
  }

  /** `import_nba_stats` once the file is loaded: the connection ends up as the plan says. */
  method ImportStatsFrame(db: DatabaseManager, src: Frame, toFloat: string -> Option<real>) returns (r: Outcome)
    requires db.Valid()
    modifies db
    ensures db.Valid() && db.open == old(db.open) && db.tables == old(db.tables) && db.lastInsertRowId == old(db.lastInsertRowId)
    ensures r == PlanStats(old(db.Refusal()), src, toFloat).outcome
    ensures db.pending == ApplyStats(old(db.pending), PlanStats(old(db.Refusal()), src, toFloat))
  {
    var inputs := ReadStatsFrame(src);
    if inputs.Err? {
      return Fail(inputs.error);
    }
    var inp := inputs.value;
    r := WriteStats(db, inp.g, inp.players, inp.seasons, DenseIds(inp.players), inp.seasonRows, inp.seasonIds, toFloat);
  }

  /** The reading part of the import, with the season loop, as `ReadStats` describes. */
  method ReadStatsFrame(src: Frame) returns (r: Result<StatsInputs, Error>)
    ensures r == ReadStats(src)
  {
    var f := StripColumns(src);
    var players := SeriesColumn(f, "player");
    if players.Err? {
      return Err(players.error);
    }
    var seasons := SeriesColumn(f, "season");
    if seasons.Err? {
      return Err(seasons.error);
    }
    var mapped := MapSeasons(Unique(seasons.value), SeasonRowOf);
    if mapped.Err? {
      return Err(mapped.error);
    }
    r := Ok(StatsInputs(f, players.value, seasons.value, mapped.value.0, mapped.value.1));
  }

  /**
   * From the season batch on: the batch needs the cursor and the tables; the bios, stat
   * types and facts follow as `PlanWrites` describes.
   */
  method WriteStats(db: DatabaseManager, f: Frame, players: seq<Cell>, seasons: seq<Cell>, playerIds: map<Cell, int>,
                    seasonData: seq<(int, SeasonRow)>, seasonIdMap: map<Cell, int>, toFloat: string -> Option<real>)
    returns (r: Outcome)
    requires db.Valid()
    requires |players| == |f.rows| && |seasons| == |f.rows|
    requires forall i :: 0 <= i < |seasons| ==> seasons[i] in seasonIdMap
    requires playerIds == DenseIds(players)
    modifies db
    ensures db.Valid() && db.open == old(db.open) && db.tables == old(db.tables) && db.lastInsertRowId == old(db.lastInsertRowId)
    ensures var p := if old(db.Refusal()).None? then PlanWrites(f, players, seasons, seasonIdMap, toFloat).(seasonRows := seasonData)
                     else Halt(old(db.Refusal()).value);
            r == p.outcome && db.pending == ApplyStats(old(db.pending), p)
  {
    ghost var start := db.pending;
    r := db.ExecuteMany(InsertSeasons(seasonData));
    if r.Fail? {
      return;
    }
    assert db.pending == start.(seasons := InsertOrIgnore(start.seasons, seasonData));
    r := WriteBiosAndFacts(db, f, players, seasons, playerIds, seasonIdMap, toFloat);
  }

  /** The rest of `import_nba_stats` once the seasons are written, as `PlanWrites` describes. */
  method WriteBiosAndFacts(db: DatabaseManager, f: Frame, players: seq<Cell>, seasons: seq<Cell>,
                           playerIds: map<Cell, int>, seasonIdMap: map<Cell, int>, toFloat: string -> Option<real>)
    returns (r: Outcome)
    requires db.Valid() && db.Refusal().None?
    requires |players| == |f.rows| && |seasons| == |f.rows|
    requires forall i :: 0 <= i < |seasons| ==> seasons[i] in seasonIdMap
    requires playerIds == DenseIds(players)
    modifies db
    ensures db.Valid() && db.Refusal().None? && db.lastInsertRowId == old(db.lastInsertRowId)
    ensures var p := PlanWrites(f, players, seasons, seasonIdMap, toFloat);
            r == p.outcome && db.pending == ApplyStats(old(db.pending), p)
  {
    var ages := Column(f, "age");
    if ages.Err? {
      return Fail(ages.error);
    }
    var positions := Column(f, "pos");
    if positions.Err? {
      return Fail(positions.error);
    }
    if BioCellsRepeated(f) {
      return Fail(ValueError(AmbiguousTruth));
    }
    ghost var start := db.pending;
    var bio := BioRows(players, ages.value, positions.value);
    r := db.ExecuteMany(ReplacePlayers(bio));
    assert db.pending == start.(players := InsertOrReplace(start.players, bio));
    r := WriteStatTypesAndFacts(db, f, players, seasons, playerIds, seasonIdMap, toFloat);
  }

  /**
   * The stat-type batch, then the fact loop and its batch; the loop raises
   * in the first row when two stat columns share a name.
   */
  method WriteStatTypesAndFacts(db: DatabaseManager, f: Frame, players: seq<Cell>, seasons: seq<Cell>,
                                playerIds: map<Cell, int>, seasonIdMap: map<Cell, int>, toFloat: string -> Option<real>)
    returns (r: Outcome)
    requires db.Valid() && db.Refusal().None?
    requires |players| == |f.rows| && |seasons| == |f.rows|
    requires forall i :: 0 <= i < |seasons| ==> seasons[i] in seasonIdMap
    requires playerIds == DenseIds(players)
    modifies db
    ensures db.Valid() && db.Refusal().None? && db.lastInsertRowId == old(db.lastInsertRowId)
    ensures var types := old(db.pending).(
              statTypes := InsertOrIgnore(old(db.pending).statTypes, StatTypeRows(StatColumns(f.columns))));
            if StatCellsRepeated(f) then r == Fail(ValueError(AmbiguousTruth)) && db.pending == types
            else r == Pass && db.pending == types.(
                   facts := InsertOrIgnore(types.facts, StatsFacts(f, players, seasons, seasonIdMap, toFloat)))
  {
    ghost var start := db.pending;
    var stats := StatColumns(f.columns);
    r := db.ExecuteMany(InsertStatTypes(StatTypeRows(stats)));
    assert db.pending == start.(statTypes := InsertOrIgnore(start.statTypes, StatTypeRows(stats)));
    if f.rows != [] && !Distinct(stats) {
      return Fail(ValueError(AmbiguousTruth));
    }
    var facts := CollectFacts(players, seasons, playerIds, seasonIdMap, f.rows,
                              StatColumnIndices(f.columns, stats), toFloat);
    assert facts == StatsFacts(f, players, seasons, seasonIdMap, toFloat);
    ghost var beforeFacts := db.pending;
    r := db.ExecuteMany(InsertFacts(facts));
    RunBatchFacts(beforeFacts, facts);
  }

  lemma RunBatchFacts(db: Db, rows: seq<(FactKey, real)>)
    ensures RunBatch(db, InsertFacts(rows)) == db.(facts := InsertOrIgnore(db.facts, rows))
  {
  }
}
