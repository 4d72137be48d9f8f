/**
 * The application's SQLite database as values: one map per table, keyed by
 * primary key, the statements the application issues and what each one does,
 * and the three queries whose rows the application reads back.
 */
module Database {
  import opened Common
  import opened Tables

  /** ref_season: season_year is the label as read, is_current is always 0. */
  datatype SeasonRow = SeasonRow(seasonYear: string, isCurrent: int)

  /** stat_player_bio. The importer stores the `age` cell in birth_date. */
  datatype PlayerRow = PlayerRow(fullName: Cell, birthDate: Cell, position: string, salaryUsd: int)

  /** ref_advanced_stat_type */
  datatype StatTypeRow = StatTypeRow(statName: string, statAbbreviation: string)

  /** The composite key of fact_player_advanced_stats. */
  datatype FactKey = FactKey(playerId: int, seasonId: int, statId: int)

  /** bg_injury_report */
  datatype InjuryRow = InjuryRow(
    playerId: int, injuryDate: string, returnDate: Option<string>,
    bodyPart: string, severity: string, sourceCitation: string)

  /** ref_city */
  datatype CityRow = CityRow(cityName: string, stateProvince: string, country: string)

  /** bg_city_demographics */
  datatype DemographicsRow = DemographicsRow(population: int, medianHouseholdIncome: int, povertyRate: real)

  /** core_user_account */
  datatype Account = Account(email: string, passwordHash: string)

  /** core_user_profile, keyed by the account's user_id. */
  datatype Profile = Profile(displayName: string)

  /** mart_user_predictions */
  datatype Prediction = Prediction(
    userId: int, playerId: int, predictionType: string, predictionValue: string, predictionDate: string)

  datatype Db = Db(
    seasons: map<int, SeasonRow>,
    players: map<int, PlayerRow>,
    statTypes: map<int, StatTypeRow>,
    facts: map<FactKey, real>,
    injuries: map<int, InjuryRow>,
    cities: map<int, CityRow>,
    demographics: map<int, DemographicsRow>,
    accounts: map<int, Account>,
    profiles: map<int, Profile>,
    predictions: map<int, Prediction>)

  /** How an import step ended, and the contents the connection sees afterwards. */
  datatype Step = Step(outcome: Outcome, db: Db)

  /** The database right after the schema script has created every table. */
  function EmptyDb(): Db
  {
    Db(map[], map[], map[], map[], map[], map[], map[], map[], map[], map[])
  }

  /**
   * The consistency the schema's constraints keep: account emails are unique
   * and every account has exactly one profile.
   */
  ghost predicate Valid(db: Db)
  {
    && (forall a, b :: a in db.accounts && b in db.accounts && db.accounts[a].email == db.accounts[b].email ==> a == b)
    && db.profiles.Keys == db.accounts.Keys
  }

  /** The statements the application executes. */
  datatype Stmt =
    | InsertSeasons(seasonRows: seq<(int, SeasonRow)>)                  // INSERT OR IGNORE INTO ref_season
    | ReplacePlayers(playerRows: seq<(int, PlayerRow)>)                 // INSERT OR REPLACE INTO stat_player_bio
    | InsertStatTypes(statRows: seq<(int, StatTypeRow)>)                // INSERT OR IGNORE INTO ref_advanced_stat_type
    | InsertFacts(factRows: seq<(FactKey, real)>)                       // INSERT OR IGNORE INTO fact_player_advanced_stats
    | InsertInjuries(injuryRows: seq<(int, InjuryRow)>)                 // INSERT OR IGNORE INTO bg_injury_report
    | InsertCities(cityRows: seq<(int, CityRow)>)                       // INSERT OR IGNORE INTO ref_city
    | InsertDemographics(demographicsRows: seq<(int, DemographicsRow)>) // INSERT OR IGNORE INTO bg_city_demographics
    | InsertAccount(email: string, passwordHash: string)                // INSERT INTO core_user_account
    | InsertProfile(userId: int, displayName: string)                   // INSERT INTO core_user_profile
    | InsertPrediction(prediction: Prediction)                          // INSERT INTO mart_user_predictions

  predicate EmailTaken(db: Db, email: string)
  {
    exists id :: id in db.accounts && db.accounts[id].email == email
  }

  /** The statements that go through `executemany`, a batch of rows at a time. */
  predicate IsBatch(s: Stmt)
  {
    !(s.InsertAccount? || s.InsertProfile? || s.InsertPrediction?)
  }

  /** What a batch insert does to its table; batch inserts never fail. */
  function RunBatch(db: Db, s: Stmt): Db
    requires IsBatch(s)
  {
    match s
    case InsertSeasons(rows) => db.(seasons := InsertOrIgnore(db.seasons, rows))
    case ReplacePlayers(rows) => db.(players := InsertOrReplace(db.players, rows))
    case InsertStatTypes(rows) => db.(statTypes := InsertOrIgnore(db.statTypes, rows))
    case InsertFacts(rows) => db.(facts := InsertOrIgnore(db.facts, rows))
    case InsertInjuries(rows) => db.(injuries := InsertOrIgnore(db.injuries, rows))
    case InsertCities(rows) => db.(cities := InsertOrIgnore(db.cities, rows))
    case InsertDemographics(rows) => db.(demographics := InsertOrIgnore(db.demographics, rows))
  }

  /**
   * What a single-row INSERT does, with the rowid it reports: it fails with
   * an integrity error on a duplicate email, a duplicate key or a foreign key
   * that points nowhere (foreign keys are switched on for every connection).
   */
  function RunSingle(db: Db, s: Stmt): Result<(Db, int), Error>
    requires !IsBatch(s)
  {
    match s
    case InsertAccount(email, hash) =>
      if EmailTaken(db, email) then Err(IntegrityError)
      else
        var id := NextRowId(db.accounts.Keys);
        Ok((db.(accounts := db.accounts[id := Account(email, hash)]), id))
    case InsertProfile(userId, name) =>
      if userId !in db.accounts || userId in db.profiles then Err(IntegrityError)
      else Ok((db.(profiles := db.profiles[userId := Profile(name)]), userId))
    case InsertPrediction(p) =>
      if p.userId !in db.accounts || p.playerId !in db.players then Err(IntegrityError)
      else
        var id := NextRowId(db.predictions.Keys);
        Ok((db.(predictions := db.predictions[id := p]), id))
  }

  /** The queries whose rows the application reads. */
  datatype Query =
    | PlayerNames                    // SELECT full_name, player_id FROM stat_player_bio
    | AccountByEmail(email: string)  // SELECT user_id, password_hash FROM core_user_account WHERE email = ?
    | PlayerLike(fragment: string)   // SELECT player_id FROM stat_player_bio WHERE full_name LIKE '%fragment%'

  datatype Row =
    | NameAndId(fullName: Cell, playerId: int)
    | IdAndHash(userId: int, passwordHash: string)
    | PlayerId(playerId: int)

  /** The rows a query returns, in the order SQLite scans the table. */
  function Select(db: Db, q: Query): seq<Row>
  {
    match q
    case PlayerNames => PlayerNameRows(db.players)
    case AccountByEmail(email) => AccountRows(db, email)
    case PlayerLike(fragment) => PlayerRowsLike(db, fragment)
  }

  /** The rows of `AccountByEmail(email)`. */
  function AccountRows(db: Db, email: string): seq<Row>
  {
    AccountsWithEmail(db.accounts, ScanOrder(db.accounts.Keys), email)
  }

  /** The rows of `PlayerLike(fragment)`. */
  function PlayerRowsLike(db: Db, fragment: string): seq<Row>
  {
    PlayersLike(db.players, ScanOrder(db.players.Keys), fragment)
  }

  /** Every player's name and id, in the assumed scan order `ScanOrder`: increasing id. */
  function PlayerNameRows(players: map<int, PlayerRow>): (r: seq<Row>)
    ensures forall i :: 0 <= i < |r| ==> r[i].NameAndId? && r[i].playerId in players
                                         && r[i].fullName == players[r[i].playerId].fullName
    ensures forall i, j :: 0 <= i < j < |r| ==> r[i].playerId < r[j].playerId
  {
    var order := ScanOrder(players.Keys);
    seq(|order|, i requires 0 <= i < |order| => NameAndId(players[order[i]].fullName, order[i]))
  }

  /** Every player has a row. */
  lemma PlayerNameRowsComplete(players: map<int, PlayerRow>, id: int) returns (i: nat)
    requires id in players
    ensures i < |PlayerNameRows(players)| && PlayerNameRows(players)[i].playerId == id
  {
    var order := ScanOrder(players.Keys);
    i :| 0 <= i < |order| && order[i] == id;
  }

  /** The accounts among `ids` whose email is `email`, in the order of `ids`. */
  function AccountsWithEmail(accounts: map<int, Account>, ids: seq<int>, email: string): (r: seq<Row>)
    requires forall i :: 0 <= i < |ids| ==> ids[i] in accounts
    ensures r == [] <==> forall i :: 0 <= i < |ids| ==> accounts[ids[i]].email != email
    ensures forall i :: 0 <= i < |r| ==> r[i].IdAndHash?
  {
    if ids == [] then []
    else
      var rest := AccountsWithEmail(accounts, ids[1..], email);
      assert forall i :: 0 < i < |ids| ==> ids[i] == ids[1..][i - 1];
      if accounts[ids[0]].email == email then [IdAndHash(ids[0], accounts[ids[0]].passwordHash)] + rest
      else rest
  }

  /** The first row is the first account of `ids` with the email. */
  lemma {:induction false} AccountsWithEmailFirst(accounts: map<int, Account>, ids: seq<int>, email: string) returns (i: nat)
    requires forall i :: 0 <= i < |ids| ==> ids[i] in accounts
    requires AccountsWithEmail(accounts, ids, email) != []
    ensures i < |ids| && accounts[ids[i]].email == email
    ensures AccountsWithEmail(accounts, ids, email)[0] == IdAndHash(ids[i], accounts[ids[i]].passwordHash)
  {
    i := 0;
    if accounts[ids[0]].email != email {
      var k := AccountsWithEmailFirst(accounts, ids[1..], email);
      i := k + 1;
    }
  }

  /** ASCII upper-case letters folded to lower case, as LIKE compares them. */
  function Lower(s: string): (r: string)
    ensures |r| == |s|
  {
    if s == [] then [] else
      var c := s[0];
      [if 'A' <= c <= 'Z' then (c as int + 32) as char else c] + Lower(s[1..])
  }

  /** `part` occurs in `text` starting at position `i`. */
  predicate OccursAt(text: string, part: string, i: int)
  {
    0 <= i <= |text| - |part| && text[i..i + |part|] == part
  }

  /** `part` occurs in `text`: at its start, or somewhere in the rest. */
  predicate Contains(text: string, part: string)
    decreases |text|
  {
    (|part| <= |text| && text[..|part|] == part) || (text != [] && Contains(text[1..], part))
  }

  /** `Contains` holds exactly when the part occurs at some position of the text. */
  lemma ContainsOccurs(text: string, part: string)
    ensures Contains(text, part) <==> exists i :: OccursAt(text, part, i)
  {
    if Contains(text, part) {
      var i := ContainsWhere(text, part);
    }
    forall i | OccursAt(text, part, i) ensures Contains(text, part) {
      OccursContains(text, part, i);
    }
  }

  /** Where a contained part occurs. */
  lemma {:induction false} ContainsWhere(text: string, part: string) returns (i: nat)
    requires Contains(text, part)
    ensures OccursAt(text, part, i)
    decreases |text|
  {
    if |part| <= |text| && text[..|part|] == part {
      i := 0;
    } else {
      var j := ContainsWhere(text[1..], part);
      i := j + 1;
      assert text[i..i + |part|] == text[1..][j..j + |part|];
    }
  }

  /** A part that occurs somewhere is contained. */
  lemma {:induction false} OccursContains(text: string, part: string, i: int)
    requires OccursAt(text, part, i)
    ensures Contains(text, part)
    decreases i
  {
    if i > 0 {
      assert text[1..][i - 1..i - 1 + |part|] == text[i..i + |part|];
      OccursContains(text[1..], part, i - 1);
    }
  }

  /** `name LIKE '%fragment%'`: the fragment occurs in the name, ignoring ASCII case. */
  predicate NameMatches(name: Cell, fragment: string)
  {
    name.Some? && Contains(Lower(name.value), Lower(fragment))
  }

  /** The players among `ids` whose name matches, in the order of `ids`. */
  function PlayersLike(players: map<int, PlayerRow>, ids: seq<int>, fragment: string): (r: seq<Row>)
    requires forall i :: 0 <= i < |ids| ==> ids[i] in players
    ensures |r| <= |ids|
    ensures forall i :: 0 <= i < |r| ==> r[i].PlayerId? && r[i].playerId in players
  {
    if ids == [] then []
    else
      var head := if NameMatches(players[ids[0]].fullName, fragment) then [PlayerId(ids[0])] else [];
      head + PlayersLike(players, ids[1..], fragment)
  }

  /**
   * No row exactly when no player matches; otherwise the first row is the
   * first matching player of `ids`.
   */
  lemma {:induction false} PlayersLikeFirst(players: map<int, PlayerRow>, ids: seq<int>, fragment: string) returns (i: nat)
    requires forall i :: 0 <= i < |ids| ==> ids[i] in players
    ensures PlayersLike(players, ids, fragment) == [] <==>
              forall i :: 0 <= i < |ids| ==> !NameMatches(players[ids[i]].fullName, fragment)
    ensures PlayersLike(players, ids, fragment) != [] ==>
              && i < |ids| && NameMatches(players[ids[i]].fullName, fragment)
              && PlayersLike(players, ids, fragment)[0] == PlayerId(ids[i])
              && forall j :: 0 <= j < i ==> !NameMatches(players[ids[j]].fullName, fragment)
  {
    i := 0;
    if ids != [] {
      var rest := ids[1..];
      var k := PlayersLikeFirst(players, rest, fragment);
      assert forall i :: 0 < i < |ids| ==> ids[i] == rest[i - 1];
      if !NameMatches(players[ids[0]].fullName, fragment) && PlayersLike(players, rest, fragment) != [] {
        i := k + 1;
        assert ids[i] == rest[k];
      }
    }
  }
}
