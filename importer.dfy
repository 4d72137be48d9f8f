/**
 * `run_importer`: the three imports run in one `with` block over one
 * connection, so they commit together or, when any of them raises, not at all.
 */
module Importer {
  import opened Common
  import opened Frames
  import opened Database
  import opened DbManager
  import StatsImport
  import InjuryImport
  import HousingImport

  /** The three CSV files as loaded; `None` is a file that could not be loaded. */
  datatype Sources = Sources(stats: Option<Frame>, injuries: Option<Frame>, housing: Option<Frame>)

  /** What pandas makes of cell text: stat values, injury dates, housing figures. */
  datatype Conversions = Conversions(
    toFloat: string -> Option<real>,
    parseDate: string -> Option<CalendarDate>,
    toReal: string -> real)

  function StatsStep(db: Db, refusal: Option<Error>, src: Option<Frame>, conv: Conversions): (r: Step)
    ensures r.db == db.(seasons := r.db.seasons, players := r.db.players, statTypes := r.db.statTypes, facts := r.db.facts)
  {
    if src.None? then Step(Pass, db) else StatsImport.StatsRun(db, refusal, src.value, conv.toFloat)
  }

  function InjuriesStep(db: Db, refusal: Option<Error>, src: Option<Frame>, conv: Conversions): (r: Step)
    ensures r.db == db.(injuries := r.db.injuries)
  {
    if src.None? then Step(Pass, db) else InjuryImport.InjuriesRun(db, refusal, src.value, conv.parseDate)
  }

  function HousingStep(db: Db, refusal: Option<Error>, src: Option<Frame>, conv: Conversions): (r: Step)
    ensures r.db == db.(cities := r.db.cities, demographics := r.db.demographics)
  {
    if src.None? then Step(Pass, db) else HousingImport.HousingRun(db, refusal, src.value, conv.toReal)
  }

  /**
   * The three imports in order over an open connection whose statements run
   * or are refused with `refusal`; the first that raises ends the block.
   */
  function ImportAll(db: Db, refusal: Option<Error>, src: Sources, conv: Conversions): Step
  {
    var s := StatsStep(db, refusal, src.stats, conv);
    if s.outcome.Fail? then s
    else
      var i := InjuriesStep(s.db, refusal, src.injuries, conv);
      if i.outcome.Fail? then i
      else HousingStep(i.db, refusal, src.housing, conv)
  }

  /** What the file holds after the block: everything on success, nothing new on failure. */
  function Committed(db: Db, refusal: Option<Error>, src: Sources, conv: Conversions): Db
  {
    var all := ImportAll(db, refusal, src, conv);
    if all.outcome.Pass? then all.db else db
  }

  /**
   * In a file without the tables nothing is imported, and a stats file that
   * was loaded makes the whole import raise.
   */
  lemma RefusedImportChangesNothing(db: Db, e: Error, src: Sources, conv: Conversions)
    ensures ImportAll(db, Some(e), src, conv).db == db
    ensures Committed(db, Some(e), src, conv) == db
    ensures src.stats.Some? ==> ImportAll(db, Some(e), src, conv).outcome.Fail?
  {
  }

  /** The importer never touches user accounts, profiles or predictions. */
  lemma ImportKeepsUserData(db: Db, refusal: Option<Error>, src: Sources, conv: Conversions)
    ensures var r := Committed(db, refusal, src, conv);
            r.accounts == db.accounts && r.profiles == db.profiles && r.predictions == db.predictions
  {
  }

  lemma StatsStepStable(db: Db, refusal: Option<Error>, src: Option<Frame>, conv: Conversions, again: Db)
    requires var once := StatsStep(db, refusal, src, conv).db;
             again.seasons == once.seasons && again.players == once.players
             && again.statTypes == once.statTypes && again.facts == once.facts
    ensures StatsStep(again, refusal, src, conv) == Step(StatsStep(db, refusal, src, conv).outcome, again)
  {
    if src.Some? {
      StatsImport.StatsRunStable(db, refusal, src.value, conv.toFloat, again);
    }
  }

  lemma InjuriesStepStable(db: Db, refusal: Option<Error>, src: Option<Frame>, conv: Conversions, again: Db)
    requires again.players == db.players && again.injuries == InjuriesStep(db, refusal, src, conv).db.injuries
    ensures InjuriesStep(again, refusal, src, conv) == Step(InjuriesStep(db, refusal, src, conv).outcome, again)
  {
    if src.Some? {
      InjuryImport.InjuriesRunStable(db, refusal, src.value, conv.parseDate, again);
    }
  }

  lemma HousingStepStable(db: Db, refusal: Option<Error>, src: Option<Frame>, conv: Conversions, again: Db)
    requires var once := HousingStep(db, refusal, src, conv).db;
             again.cities == once.cities && again.demographics == once.demographics
    ensures HousingStep(again, refusal, src, conv) == Step(HousingStep(db, refusal, src, conv).outcome, again)
  {
    if src.Some? {
      HousingImport.HousingRunStable(db, refusal, src.value, conv.toReal, again);
    }
  }

  /** Importing the same files a second time leaves the file as the first import left it. */
  lemma ImportAllStable(db: Db, refusal: Option<Error>, src: Sources, conv: Conversions)
    ensures Committed(Committed(db, refusal, src, conv), refusal, src, conv) == Committed(db, refusal, src, conv)
    ensures ImportAll(Committed(db, refusal, src, conv), refusal, src, conv).outcome == ImportAll(db, refusal, src, conv).outcome
  {
    var all := ImportAll(db, refusal, src, conv);
    if all.outcome.Pass? {
      var again := all.db;
      var s := StatsStep(db, refusal, src.stats, conv);
      var i := InjuriesStep(s.db, refusal, src.injuries, conv);
      StatsStepStable(db, refusal, src.stats, conv, again);
      InjuriesStepStable(s.db, refusal, src.injuries, conv, again);
      HousingStepStable(i.db, refusal, src.housing, conv, again);
    }
  }

  /**
   * `run_importer()`: without the datasets directory it only creates it;
   * otherwise it opens a connection (which may fail, and which creates a
   * file without tables when there is none: `setup_database` is not
   * called), runs the imports and commits them all or rolls them all back.
   */
  method RunImporter(disk: Disk, dirExists: bool, canOpen: bool, src: Sources, conv: Conversions) returns (r: Outcome)
    modifies disk
    ensures !dirExists ==> r == Pass && unchanged(disk)
    ensures dirExists && !canOpen ==> r == Fail(OperationalError) && unchanged(disk)
    ensures dirExists && canOpen ==>
              var start := ConnectedDb(old(disk.present), old(disk.db));
              var refusal := TablesRefusal(old(disk.present) && old(disk.hasSchema));
              && disk.present && disk.hasSchema == (old(disk.present) && old(disk.hasSchema))
              && r == ImportAll(start, refusal, src, conv).outcome
              && disk.db == Committed(start, refusal, src, conv)
  {
    if !dirExists {
      return Pass;
    }
    var db := new DatabaseManager(disk);
    r := db.Enter(canOpen);
    if r.Fail? {
      return;
    }
    r := RunImports(db, src, conv);
    db.Exit(r.Fail?);
  }

  /** The body of the `with` block. */
  method RunImports(db: DatabaseManager, src: Sources, conv: Conversions) returns (r: Outcome)
    requires db.Valid() && db.open
    modifies db
    ensures db.Valid() && db.open && db.tables == old(db.tables)
    ensures Step(r, db.pending) == ImportAll(old(db.pending), old(db.Refusal()), src, conv)
  {
    r := StatsImport.ImportNbaStats(db, src.stats, conv.toFloat);
    if r.Fail? {
      return;
    }
    r := InjuryImport.ImportNbaInjuries(db, src.injuries, conv.parseDate);
    if r.Fail? {
      return;
    }
    r := HousingImport.ImportHousingData(db, src.housing, conv.toReal);
  }
}
