/**
 * `import_nba_injuries`: the injury file's rows that name a known player on a
 * readable date become `bg_injury_report` rows, keyed by their position in
 * the file.
 */
module InjuryImport {
  import opened Common
  import opened Tables
  import opened Frames
  import opened Database
  import opened DbManager

  /** `df.rename(columns={'Date': 'injury_date', 'Team': 'team_name', 'Relinquished': 'full_name', 'Notes': 'notes'})` */
  function RenameColumn(c: string): string
  {
    if c == "Date" then "injury_date"
    else if c == "Team" then "team_name"
    else if c == "Relinquished" then "full_name"
    else if c == "Notes" then "notes"
    else c
  }

  /** A row that is still in the frame after both `dropna` calls, with its 0-based position in the file. */
  datatype Report = Report(index: nat, name: string, date: CalendarDate, notes: Cell)

  /** Row `i` has a name and a date, and the date parses. */
  predicate Survives(names: seq<Cell>, dates: seq<Cell>, parseDate: string -> Option<CalendarDate>, i: nat)
  {
    i < |names| && i < |dates| && names[i].Some? && dates[i].Some? && parseDate(dates[i].value).Some?
  }

  /**
   * The frame after `dropna(subset=['full_name', 'injury_date'])`, the date
   * conversion, the second `dropna` and `str.strip()` of the names; the
   * index is not renumbered.
   */
  function Reports(names: seq<Cell>, dates: seq<Cell>, notes: seq<Cell>, parseDate: string -> Option<CalendarDate>)
    : (r: seq<Report>)
    requires |dates| == |names| && |notes| == |names|
    ensures forall k :: 0 <= k < |r| ==>
              var i := r[k].index;
              && Survives(names, dates, parseDate, i)
              && r[k] == Report(i, Strip(names[i].value), parseDate(dates[i].value).value, notes[i])
    ensures forall k, l :: 0 <= k < l < |r| ==> r[k].index < r[l].index
    ensures forall i :: 0 <= i < |names| && Survives(names, dates, parseDate, i) ==>
              exists k :: 0 <= k < |r| && r[k].index == i
  {
    var keep := (i: nat) => Survives(names, dates, parseDate, i);
    var kept := IndicesWhere(|names|, keep);
    var r := seq(|kept|, k requires 0 <= k < |kept| =>
      var i := kept[k];
      Report(i, Strip(names[i].value), parseDate(dates[i].value).value, notes[i]));
    forall i | 0 <= i < |names| && Survives(names, dates, parseDate, i)
      ensures exists k :: 0 <= k < |r| && r[k].index == i
    {
      assert keep(i);
      var k := PositionOf(kept, i);
      assert r[k].index == i;
    }
    r
  }

  /** The name a bio row is looked up by: `name.strip()`. */
  function LookupName(row: Row): string
    requires row.NameAndId? && row.fullName.Some?
  {
    Strip(row.fullName.value)
  }

  /**
   * `{name.strip(): pid for name, pid in existing_players}`: a later row
   * overwrites an earlier one with the same name; a NULL name cannot be
   * stripped and raises.
   */
  function NameIndex(rows: seq<Row>): (r: Result<map<string, int>, Error>)
    requires forall i :: 0 <= i < |rows| ==> rows[i].NameAndId?
    ensures r.Err? ==> r.error == AttributeError
  {
    if rows == [] then Ok(map[])
    else
      match NameIndex(rows[..|rows| - 1])
      case Err(e) => Err(e)
      case Ok(m) =>
        var last := rows[|rows| - 1];
        if last.fullName.None? then Err(AttributeError)
        else Ok(m[LookupName(last) := last.playerId])
  }

  /** The index exists exactly when every fetched name is present. */
  lemma {:induction false} NameIndexOk(rows: seq<Row>)
    requires forall i :: 0 <= i < |rows| ==> rows[i].NameAndId?
    ensures NameIndex(rows).Ok? <==> forall i :: 0 <= i < |rows| ==> rows[i].fullName.Some?
  {
    if rows != [] {
      var init := rows[..|rows| - 1];
      NameIndexOk(init);
      assert forall i :: 0 <= i < |init| ==> init[i] == rows[i];
    }
  }

  /** Every fetched name is a key of the index. */
  lemma {:induction false} NameIndexKeys(rows: seq<Row>, i: nat)
    requires forall i :: 0 <= i < |rows| ==> rows[i].NameAndId?
    requires NameIndex(rows).Ok? && i < |rows|
    ensures rows[i].fullName.Some? && LookupName(rows[i]) in NameIndex(rows).value
  {
    var init := rows[..|rows| - 1];
    if i < |init| {
      NameIndexKeys(init, i);
      assert init[i] == rows[i];
    }
  }

  /** Every key of the index comes from a fetched row: the last one with that name. */
  lemma {:induction false} NameIndexLastRow(rows: seq<Row>, n: string) returns (i: nat)
    requires forall i :: 0 <= i < |rows| ==> rows[i].NameAndId?
    requires NameIndex(rows).Ok? && n in NameIndex(rows).value
    ensures i < |rows| && rows[i].fullName.Some? && LookupName(rows[i]) == n
    ensures NameIndex(rows).value[n] == rows[i].playerId
    ensures forall j :: i < j < |rows| ==> rows[j].fullName.Some? && LookupName(rows[j]) != n
  {
    var init := rows[..|rows| - 1];
    var last := rows[|rows| - 1];
    assert NameIndex(init).Ok? && last.fullName.Some?;
    var m := NameIndex(init).value;
    assert NameIndex(rows).value == m[LookupName(last) := last.playerId];
    if LookupName(last) == n {
      i := |rows| - 1;
    } else {
      assert n in m;
      i := NameIndexLastRow(init, n);
      assert rows[i] == init[i];
      LaterRowsOtherName(rows, init, i, n);
    }
  }

  /** Rows after `i` of all but the last, and the last, carry other names: so do all rows after `i`. */
  lemma LaterRowsOtherName(rows: seq<Row>, init: seq<Row>, i: nat, n: string)
    requires forall j :: 0 <= j < |rows| ==> rows[j].NameAndId?
    requires i < |rows| - 1 && init == rows[..|rows| - 1]
    requires forall j :: i < j < |init| ==> init[j].fullName.Some? && LookupName(init[j]) != n
    requires rows[|rows| - 1].fullName.Some? && LookupName(rows[|rows| - 1]) != n
    ensures forall j :: i < j < |rows| ==> rows[j].fullName.Some? && LookupName(rows[j]) != n
  {
    forall j | i < j < |rows| - 1 ensures rows[j].fullName.Some? && LookupName(rows[j]) != n {
      assert rows[j] == init[j];
    }
  }

  /** A bio row's name, stripped, as the index looks it up; none for a NULL name. */
  predicate HasName(players: map<int, PlayerRow>, id: int, n: string)
  {
    id in players && players[id].fullName.Some? && Strip(players[id].fullName.value) == n
  }

  /** Every named player's name is a key of the index built from the bio table. */
  lemma NamedPlayerIndexed(players: map<int, PlayerRow>, id: int, n: string)
    requires NameIndex(PlayerNameRows(players)).Ok? && HasName(players, id, n)
    ensures n in NameIndex(PlayerNameRows(players)).value
  {
    var i := PlayerNameRowsComplete(players, id);
    NameIndexKeys(PlayerNameRows(players), i);
  }

  /**
   * Over the bio table, a name that several players share resolves to the
   * one fetched last: the largest id, under the scan order `ScanOrder` assumes.
   */
  lemma IndexedNameOfPlayer(players: map<int, PlayerRow>, n: string)
    requires NameIndex(PlayerNameRows(players)).Ok? && n in NameIndex(PlayerNameRows(players)).value
    ensures var id := NameIndex(PlayerNameRows(players)).value[n];
            HasName(players, id, n) && forall other :: HasName(players, other, n) ==> other <= id
  {
    var i := NameIndexLastRow(PlayerNameRows(players), n);
    forall other | HasName(players, other, n) ensures other <= NameIndex(PlayerNameRows(players)).value[n] {
      LaterRowLargerId(players, n, i, other);
    }
  }

  /** A player with the name sits no later than the last row with the name, so its id is no larger. */
  lemma LaterRowLargerId(players: map<int, PlayerRow>, n: string, i: nat, other: int)
    requires i < |PlayerNameRows(players)| && HasName(players, other, n)
    requires forall j :: i < j < |PlayerNameRows(players)| ==>
               PlayerNameRows(players)[j].fullName.Some? && LookupName(PlayerNameRows(players)[j]) != n
    ensures other <= PlayerNameRows(players)[i].playerId
  {
    var rows := PlayerNameRows(players);
    var j := PlayerNameRowsComplete(players, other);
    assert LookupName(rows[j]) == n;
    assert j <= i;
  }

  /** The names the index knows are exactly the stripped names of the bio table. */
  lemma NameIndexOfPlayers(players: map<int, PlayerRow>, n: string)
    requires NameIndex(PlayerNameRows(players)).Ok?
    ensures n in NameIndex(PlayerNameRows(players)).value <==> exists id :: HasName(players, id, n)
  {
    if exists id :: HasName(players, id, n) {
      var id :| HasName(players, id, n);
      NamedPlayerIndexed(players, id, n);
    }
    if n in NameIndex(PlayerNameRows(players)).value {
      IndexedNameOfPlayer(players, n);
    }
  }

  const Citation: string := "Kaggle NBA Injuries Dataset"

  /** `row['notes'][:50] if pd.notna(row['notes']) else 'Unknown'` */
  function BodyPart(notes: Cell): string
  {
    if notes.Some? then Take(notes.value, 50) else "Unknown"
  }

  /** `row['notes'] if pd.notna(row['notes']) else ''` */
  function Severity(notes: Cell): string
  {
    if notes.Some? then notes.value else ""
  }

  /** The positions of the reports whose name is in the index, in increasing order. */
  function Matched(reports: seq<Report>, index: map<string, int>): (r: seq<nat>)
    ensures forall j :: 0 <= j < |r| ==> r[j] < |reports| && reports[r[j]].name in index
    ensures forall j, l :: 0 <= j < l < |r| ==> r[j] < r[l]
    ensures forall k :: 0 <= k < |reports| && reports[k].name in index ==> k in r
  {
    var keep := (k: nat) => k < |reports| && reports[k].name in index;
    var r := IndicesWhere(|reports|, keep);
    assert forall k :: 0 <= k < |reports| && reports[k].name in index ==> keep(k);
    r
  }

  /**
   * The row a matched report becomes, keyed by its file position + 1: its
   * player's id, its date as `YYYY-MM-DD`, no return date, its notes cut to
   * 50 characters (or 'Unknown') as body part, its full notes (or '') as
   * severity, and the dataset as citation.
   */
  function InjuryRowOf(rep: Report, index: map<string, int>): (int, InjuryRow)
    requires rep.name in index
  {
    (rep.index + 1, InjuryRow(index[rep.name], FormatDate(rep.date), None, BodyPart(rep.notes), Severity(rep.notes), Citation))
  }

  /**
   * `injury_data`: one row per report whose name is in the index. Reading
   * `row['notes']` raises when the column is absent, which only happens once
   * there is a row to read.
   */
  function InjuryRows(reports: seq<Report>, index: map<string, int>, hasNotes: bool)
    : (r: Result<seq<(int, InjuryRow)>, Error>)
  {
    var sel := Matched(reports, index);
    if sel != [] && !hasNotes then Err(KeyError("notes"))
    else Ok(seq(|sel|, j requires 0 <= j < |sel| => InjuryRowOf(reports[sel[j]], index)))
  }

  /** The only failure is a missing notes column when some report matches. */
  lemma InjuryRowsFails(reports: seq<Report>, index: map<string, int>, hasNotes: bool)
    ensures InjuryRows(reports, index, hasNotes).Err? <==>
              !hasNotes && exists k :: 0 <= k < |reports| && reports[k].name in index
    ensures InjuryRows(reports, index, hasNotes).Err? ==> InjuryRows(reports, index, hasNotes).error == KeyError("notes")
  {
    var sel := Matched(reports, index);
    if sel != [] {
      assert 0 <= sel[0] < |reports| && reports[sel[0]].name in index;
    }
    if exists k :: 0 <= k < |reports| && reports[k].name in index {
      var k :| 0 <= k < |reports| && reports[k].name in index;
      assert k in sel;
    }
  }

  /** Every row written comes from a matched report. */
  lemma InjuryRowsSound(reports: seq<Report>, index: map<string, int>, hasNotes: bool)
    requires InjuryRows(reports, index, hasNotes).Ok?
    ensures forall row :: row in InjuryRows(reports, index, hasNotes).value ==>
              exists k :: 0 <= k < |reports| && reports[k].name in index && row == InjuryRowOf(reports[k], index)
  {
    var sel := Matched(reports, index);
    var rows := InjuryRows(reports, index, hasNotes).value;
    forall row | row in rows
      ensures exists k :: 0 <= k < |reports| && reports[k].name in index && row == InjuryRowOf(reports[k], index)
    {
      var j :| 0 <= j < |rows| && rows[j] == row;
      var k := sel[j];
      assert row == InjuryRowOf(reports[k], index);
    }
  }

  /** Every matched report is written. */
  lemma InjuryRowsComplete(reports: seq<Report>, index: map<string, int>, hasNotes: bool)
    requires InjuryRows(reports, index, hasNotes).Ok?
    ensures forall k :: 0 <= k < |reports| && reports[k].name in index ==>
              InjuryRowOf(reports[k], index) in InjuryRows(reports, index, hasNotes).value
  {
    var sel := Matched(reports, index);
    var rows := InjuryRows(reports, index, hasNotes).value;
    forall k | 0 <= k < |reports| && reports[k].name in index
      ensures InjuryRowOf(reports[k], index) in rows
    {
      assert k in sel;
      var j :| 0 <= j < |sel| && sel[j] == k;
      assert rows[j] == InjuryRowOf(reports[k], index);
    }
  }

  /** The rows keep the file's order, so their keys strictly increase and no two collide. */
  lemma InjuryRowsOrdered(reports: seq<Report>, index: map<string, int>, hasNotes: bool)
    requires forall k, l :: 0 <= k < l < |reports| ==> reports[k].index < reports[l].index
    requires InjuryRows(reports, index, hasNotes).Ok?
    ensures var rows := InjuryRows(reports, index, hasNotes).value;
            forall j, l :: 0 <= j < l < |rows| ==> rows[j].0 < rows[l].0
  {
    var sel := Matched(reports, index);
    var rows := InjuryRows(reports, index, hasNotes).value;
    forall j, l | 0 <= j < l < |rows| ensures rows[j].0 < rows[l].0 {
      assert sel[j] < sel[l];
      assert rows[j].0 == reports[sel[j]].index + 1;
      assert rows[l].0 == reports[sel[l]].index + 1;
    }
  }

  /** What the import reads from the file: its surviving reports, and whether it has a notes column. */
  function ReadInjuries(f: Frame, parseDate: string -> Option<CalendarDate>): (r: Result<(seq<Report>, bool), Error>)
    ensures r.Ok? ==> forall k, l :: 0 <= k < l < |r.value.0| ==> r.value.0[k].index < r.value.0[l].index
  {
    var g := RenameColumns(StripColumns(f), RenameColumn);
    match Column(g, "full_name")
    case Err(e) => Err(e)
    case Ok(names) =>
      match Column(g, "injury_date")
      case Err(e) => Err(e)
      case Ok(dates) =>
        var notes := Column(g, "notes");
        var noteCells := if notes.Ok? then notes.value else seq(|g.rows|, i => None);
        Ok((Reports(names, dates, noteCells, parseDate), notes.Ok?))
  }

  /** How the import ends and the batch it sends to `bg_injury_report`, given the bio rows it fetches. */
  datatype InjuryPlan = InjuryPlan(outcome: Outcome, rows: seq<(int, InjuryRow)>)

  /** The plan for a file and a connection whose statements run or are refused with `refusal`. */
  function PlanInjuries(refusal: Option<Error>, f: Frame, parseDate: string -> Option<CalendarDate>, players: map<int, PlayerRow>)
    : (p: InjuryPlan)
    ensures p.outcome.Fail? ==> p.rows == []
    ensures refusal.Some? ==> p.outcome.Fail?
  {
    match ReadInjuries(f, parseDate)
    case Err(e) => InjuryPlan(Fail(e), [])
    case Ok((reports, hasNotes)) => PlanMatches(refusal, reports, hasNotes, players)
  }

  /** The part of the plan after the file is read: fetch the bio rows, index them, match the reports. */
  function PlanMatches(refusal: Option<Error>, reports: seq<Report>, hasNotes: bool, players: map<int, PlayerRow>)
    : (p: InjuryPlan)
    ensures p.outcome.Fail? ==> p.rows == []
    ensures refusal.Some? ==> p.outcome == Fail(refusal.value)
  {
    if refusal.Some? then InjuryPlan(Fail(refusal.value), [])
    else
      match NameIndex(PlayerNameRows(players))
      case Err(e) => InjuryPlan(Fail(e), [])
      case Ok(index) =>
        match InjuryRows(reports, index, hasNotes)
        case Err(e) => InjuryPlan(Fail(e), [])
        case Ok(rows) => InjuryPlan(Pass, rows)
  }

  /** What `import_nba_injuries` does to the contents a connection sees: only the injury table changes. */
  function InjuriesRun(db: Db, refusal: Option<Error>, f: Frame, parseDate: string -> Option<CalendarDate>): (r: Step)
    ensures r.db == db.(injuries := r.db.injuries)
    ensures r.db.injuries.Keys >= db.injuries.Keys
    ensures forall id :: id in db.injuries ==> r.db.injuries[id] == db.injuries[id]
    ensures r.outcome.Fail? ==> r.db == db
  {
    var p := PlanInjuries(refusal, f, parseDate, db.players);
    Step(p.outcome, db.(injuries := InsertOrIgnore(db.injuries, p.rows)))
  }

  /**
   * Running the import again over contents that hold what the first run
   * wrote, with the same bios, changes nothing and ends the same way.
   */
  lemma InjuriesRunStable(db: Db, refusal: Option<Error>, f: Frame, parseDate: string -> Option<CalendarDate>, again: Db)
    requires again.players == db.players && again.injuries == InjuriesRun(db, refusal, f, parseDate).db.injuries
    ensures InjuriesRun(again, refusal, f, parseDate) == Step(InjuriesRun(db, refusal, f, parseDate).outcome, again)
  {
    var p := PlanInjuries(refusal, f, parseDate, db.players);
    InsertOrIgnoreIdempotent(db.injuries, p.rows);
  }

  /**
   * `import_nba_injuries(db)`: a file that could not be loaded is skipped;
   * otherwise the connection ends up as `InjuriesRun` describes.
   */
  method ImportNbaInjuries(db: DatabaseManager, src: Option<Frame>, parseDate: string -> Option<CalendarDate>)
    returns (r: Outcome)
    requires db.Valid()
    modifies db
    ensures db.Valid() && db.open == old(db.open) && db.tables == old(db.tables) && db.lastInsertRowId == old(db.lastInsertRowId)
    ensures src.None? ==> r == Pass && db.pending == old(db.pending)
    ensures src.Some? ==> Step(r, db.pending) == InjuriesRun(old(db.pending), old(db.Refusal()), src.value, parseDate)
  {
    if src.None? {
      return Pass;
    }
    var read := ReadInjuries(src.value, parseDate);
    if read.Err? {
      return Fail(read.error);
    }
    r := WriteInjuries(db, read.value.0, read.value.1);
  }

  /** Everything after the file is read: the bio query, the name index and the batch insert. */
  method WriteInjuries(db: DatabaseManager, reports: seq<Report>, hasNotes: bool) returns (r: Outcome)
    requires db.Valid()
    modifies db
    ensures db.Valid() && db.open == old(db.open) && db.tables == old(db.tables) && db.lastInsertRowId == old(db.lastInsertRowId)
    ensures var p := PlanMatches(old(db.Refusal()), reports, hasNotes, old(db.pending).players);
            r == p.outcome && db.pending == old(db.pending).(injuries := InsertOrIgnore(old(db.pending).injuries, p.rows))
  {
    ghost var plan := PlanMatches(db.Refusal(), reports, hasNotes, db.pending.players);
    var fetched := db.FetchAll(PlayerNames);
    if fetched.Err? {
      return Fail(fetched.error);
    }
    assert fetched.value == PlayerNameRows(db.pending.players);
    var index := NameIndex(fetched.value);
    if index.Err? {
      assert plan == InjuryPlan(Fail(index.error), []);
      return Fail(index.error);
    }
    var rows := InjuryRows(reports, index.value, hasNotes);
    if rows.Err? {
      assert plan == InjuryPlan(Fail(rows.error), []);
      return Fail(rows.error);
    }
    assert plan == InjuryPlan(Pass, rows.value);
    r := db.ExecuteMany(InsertInjuries(rows.value));
  }
}
