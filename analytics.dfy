/**
 * The three analytical views the GUI offers. Each opens a connection, runs
 * one read-only query and returns its rows with a fixed header; whatever goes
 * wrong, the caller gets no rows and the same header. What the queries
 * compute (ranking, grouping, number formatting) is SQLite's work and is a
 * parameter here: `view` is the query's result on the connection's contents.
 */
module Analytics {
  import opened Common
  import opened Database
  import opened DbManager

  /** A query result as the formatter receives it: rows of items. */
  type Rows = seq<seq<string>>

  function TopStatHeader(stat: string): seq<string>
  {
    ["Player Name", stat + " Value", "Rank"]
  }

  /** The default argument of `get_top_advanced_stat`. */
  const DefaultStat: string := "orb_percent"

  /** Whether a view's query reaches the tables: the connection opens onto a file that has them. */
  predicate Readable(present: bool, hasSchema: bool, canOpen: bool)
  {
    canOpen && present && hasSchema
  }

  const InjuredHeader: seq<string> := ["Player Name", "Total Injuries", "Injury Rank"]

  const DemographicsHeader: seq<string> := ["City", "State", "Median Household Income", "Population"]

  /**
   * `with DatabaseManager(...) as db: return db.fetchall(query), header`,
   * with every exception turned into `([], header)`; in a file without the
   * tables the query raises. Reading changes nothing committed; connecting
   * creates the database file, without tables, when it is absent.
   */
  method RunView(disk: Disk, canOpen: bool, view: Db -> Result<Rows, Error>, header: seq<string>)
    returns (rows: Rows, columns: seq<string>)
    modifies disk
    ensures columns == header
    ensures Readable(old(disk.present), old(disk.hasSchema), canOpen) && view(old(disk.db)).Ok? ==>
              rows == view(old(disk.db)).value
    ensures !Readable(old(disk.present), old(disk.hasSchema), canOpen) || view(old(disk.db)).Err? ==> rows == []
    ensures old(disk.present) ==> disk.db == old(disk.db) && disk.hasSchema == old(disk.hasSchema)
    ensures disk.present == (old(disk.present) || canOpen)
  {
    var db := new DatabaseManager(disk);
    var entered := db.Enter(canOpen);
    if entered.Fail? {
      return [], header;
    }
    var result := db.FetchView(view);
    if result.Err? {
      db.Exit(true);
      return [], header;
    }
    db.Exit(false);
    rows, columns := result.value, header;
  }

  /**
   * `get_top_advanced_stat(stat_abbr)`: the query takes the stat abbreviation
   * as its parameter; a caller that passes none gets `DefaultStat`.
   */
  method TopAdvancedStat(disk: Disk, canOpen: bool, stat: string, view: string -> Db -> Result<Rows, Error>)
    returns (rows: Rows, columns: seq<string>)
    modifies disk
    ensures columns == ["Player Name", stat + " Value", "Rank"]
    ensures Readable(old(disk.present), old(disk.hasSchema), canOpen) && view(stat)(old(disk.db)).Ok? ==>
              rows == view(stat)(old(disk.db)).value
    ensures !Readable(old(disk.present), old(disk.hasSchema), canOpen) || view(stat)(old(disk.db)).Err? ==> rows == []
    ensures old(disk.present) ==> disk.db == old(disk.db)
  {
    rows, columns := RunView(disk, canOpen, view(stat), TopStatHeader(stat));
  }

  /** `get_most_injured_players()` */
  method MostInjuredPlayers(disk: Disk, canOpen: bool, view: Db -> Result<Rows, Error>)
    returns (rows: Rows, columns: seq<string>)
    modifies disk
    ensures columns == ["Player Name", "Total Injuries", "Injury Rank"]
    ensures Readable(old(disk.present), old(disk.hasSchema), canOpen) && view(old(disk.db)).Ok? ==>
              rows == view(old(disk.db)).value
    ensures !Readable(old(disk.present), old(disk.hasSchema), canOpen) || view(old(disk.db)).Err? ==> rows == []
    ensures old(disk.present) ==> disk.db == old(disk.db)
  {
    rows, columns := RunView(disk, canOpen, view, InjuredHeader);
  }

  /** `get_team_demographics_summary()` */
  method DemographicsSummary(disk: Disk, canOpen: bool, view: Db -> Result<Rows, Error>)
    returns (rows: Rows, columns: seq<string>)
    modifies disk
    ensures columns == ["City", "State", "Median Household Income", "Population"]
    ensures Readable(old(disk.present), old(disk.hasSchema), canOpen) && view(old(disk.db)).Ok? ==>
              rows == view(old(disk.db)).value
    ensures !Readable(old(disk.present), old(disk.hasSchema), canOpen) || view(old(disk.db)).Err? ==> rows == []
    ensures old(disk.present) ==> disk.db == old(disk.db)
  {
    rows, columns := RunView(disk, canOpen, view, DemographicsHeader);
  }
}
