/**
 * The user features: registration, login and prediction submission, each
 * over its own connection to the database file, and the logged-in user the
 * application keeps between calls (`CURRENT_USER_ID`).
 */
module Accounts {
  import opened Common
  import opened Tables
  import opened Database
  import opened DbManager

  /** What a feature reports back, as the pair `(success, message)` the source returns. */
  datatype Message =
    | EmptyCredentials
    | Registered(email: string, userId: int)
    | AlreadyRegistered
    | RegistrationError(error: Error)
    | LoggedIn(userId: int)
    | InvalidCredentials
    | LoginError(error: Error)
    | NotLoggedIn
    | PlayerNotFound(playerName: string)
    | PredictionSubmitted(predictionType: string, playerName: string)
    | PredictionError(error: Error)

  /** Whether a message reports success: the first element of the returned pair. */
  predicate Succeeded(m: Message)
  {
    m.Registered? || m.LoggedIn? || m.PredictionSubmitted?
  }

  /**
   * The message text; `describe` renders an exception the way `str(e)` does.
   */
  function Text(m: Message, describe: Error -> string): string
  {
    match m
    case EmptyCredentials => "Email and password cannot be empty."
    case Registered(email, id) => "Registration successful for " + email + ". User ID: " + IntToString(id)
    case AlreadyRegistered => "Registration failed: This email is already registered."
    case RegistrationError(e) => "Registration failed due to an internal error: " + describe(e)
    case LoggedIn(id) => "Login successful. Welcome, User ID " + IntToString(id) + "."
    case InvalidCredentials => "Login failed: Invalid email or password."
    case LoginError(e) => "Login failed: " + describe(e)
    case NotLoggedIn => "Error: You must be logged in to submit a prediction."
    case PlayerNotFound(name) => "Error: Player '" + name + "' not found in the database."
    case PredictionSubmitted(t, name) => "Prediction '" + t + "' for " + name + " submitted successfully!"
    case PredictionError(e) => "Prediction submission failed: " + describe(e)
  }

  /** How a failed registration is reported: a constraint violation means the email is taken. */
  function RegisterFailure(e: Error): (m: Message)
    ensures !Succeeded(m)
  {
    if e == IntegrityError then AlreadyRegistered else RegistrationError(e)
  }

  /** `email.split('@')[0]` */
  function DisplayName(email: string): string
  {
    Before(email, '@')
  }

  /**
   * The statements of a registration: the account, then its profile under
   * the rowid the account received; the first that fails ends it.
   */
  function RegisterOn(db: Db, email: string, passwordHash: string): (r: Result<(Db, int), Error>)
  {
    match RunSingle(db, InsertAccount(email, passwordHash))
    case Err(e) => Err(e)
    case Ok((withAccount, id)) =>
      match RunSingle(withAccount, InsertProfile(id, DisplayName(email)))
      case Err(e) => Err(e)
      case Ok((withProfile, _)) => Ok((withProfile, id))
  }

  /** A taken email is refused with an integrity error, whatever the password. */
  lemma RegisterTakenEmail(db: Db, email: string, passwordHash: string)
    requires EmailTaken(db, email)
    ensures RegisterOn(db, email, passwordHash) == Err(IntegrityError)
  {
  }

  /**
   * On a consistent database a new email always registers: exactly one
   * account and its profile are added, under a fresh id, and nothing else changes.
   */
  lemma RegisterNewEmail(db: Db, email: string, passwordHash: string)
    requires Valid(db) && !EmailTaken(db, email)
    ensures RegisterOn(db, email, passwordHash).Ok?
    ensures var (after, id) := RegisterOn(db, email, passwordHash).value;
            && id !in db.accounts
            && after == db.(accounts := db.accounts[id := Account(email, passwordHash)],
                            profiles := db.profiles[id := Profile(DisplayName(email))])
  {
    var id := NextRowId(db.accounts.Keys);
    var withAccount := db.(accounts := db.accounts[id := Account(email, passwordHash)]);
    assert RunSingle(db, InsertAccount(email, passwordHash)) == Ok((withAccount, id));
    ProfileInserted(withAccount, id, DisplayName(email));
  }

  /** A profile for an account that has none goes in under the account's id. */
  lemma ProfileInserted(db: Db, id: int, name: string)
    requires id in db.accounts && id !in db.profiles
    ensures RunSingle(db, InsertProfile(id, name)) == Ok((db.(profiles := db.profiles[id := Profile(name)]), id))
  {
  }

  /** Registration keeps emails unique and gives every account exactly one profile. */
  lemma RegisterKeepsValid(db: Db, email: string, passwordHash: string)
    requires Valid(db) && !EmailTaken(db, email)
    ensures Valid(RegisterOn(db, email, passwordHash).value.0)
  {
    RegisterNewEmail(db, email, passwordHash);
    AddAccountKeepsValid(db, NextRowId(db.accounts.Keys), Account(email, passwordHash), Profile(DisplayName(email)));
  }

  /** An account with an unused email, added with its profile under an unused id, keeps the database consistent. */
  lemma AddAccountKeepsValid(db: Db, id: int, account: Account, profile: Profile)
    requires Valid(db) && id !in db.accounts && !EmailTaken(db, account.email)
    ensures Valid(db.(accounts := db.accounts[id := account], profiles := db.profiles[id := profile]))
  {
    var after := db.(accounts := db.accounts[id := account], profiles := db.profiles[id := profile]);
    forall a, b | a in after.accounts && b in after.accounts && after.accounts[a].email == after.accounts[b].email
      ensures a == b
    {
      assert a != id ==> a in db.accounts && db.accounts[a].email != account.email;
      assert b != id ==> b in db.accounts && db.accounts[b].email != account.email;
    }
  }

  /**
   * The account a login finds: the first account with the email, if its
   * stored hash is the hash of the password given.
   */
  function LoginOn(db: Db, email: string, passwordHash: string): (r: Option<int>)
  {
    var rows := AccountRows(db, email);
    if rows != [] && rows[0].passwordHash == passwordHash then Some(rows[0].userId) else None
  }

  /**
   * The account query finds a row exactly when the email is taken, and its
   * first row is an account with that email.
   */
  lemma AccountFound(db: Db, email: string) returns (id: int)
    ensures AccountRows(db, email) == [] <==> !EmailTaken(db, email)
    ensures AccountRows(db, email) != [] ==>
              && id in db.accounts && db.accounts[id].email == email
              && AccountRows(db, email)[0] == IdAndHash(id, db.accounts[id].passwordHash)
  {
    id := 0;
    var order := ScanOrder(db.accounts.Keys);
    if AccountsWithEmail(db.accounts, order, email) != [] {
      var i := AccountsWithEmailFirst(db.accounts, order, email);
      id := order[i];
    } else {
      forall k | k in db.accounts ensures db.accounts[k].email != email {
        var i := ScanIndex(db.accounts.Keys, k);
      }
    }
  }

  /** On a consistent database, login succeeds as `id` exactly when `id` is the account with that email and hash. */
  lemma LoginOnSpec(db: Db, email: string, passwordHash: string, id: int)
    requires Valid(db)
    ensures LoginOn(db, email, passwordHash) == Some(id) <==>
              id in db.accounts && db.accounts[id] == Account(email, passwordHash)
  {
    var found := LoginFinds(db, email, passwordHash);
    if id in db.accounts && db.accounts[id].email == email {
      SameEmail(db, found, id);
    }
  }

  /**
   * Login with an unknown email fails; with a known one it checks the hash
   * of the first account the query finds with that email.
   */
  lemma LoginFinds(db: Db, email: string, passwordHash: string) returns (id: int)
    ensures !EmailTaken(db, email) ==> LoginOn(db, email, passwordHash) == None
    ensures EmailTaken(db, email) ==>
              && id in db.accounts && db.accounts[id].email == email
              && LoginOn(db, email, passwordHash) ==
                   if db.accounts[id].passwordHash == passwordHash then Some(id) else None
  {
    id := AccountFound(db, email);
  }

  /** On a consistent database two accounts with the same email are one account. */
  lemma SameEmail(db: Db, a: int, b: int)
    requires Valid(db) && a in db.accounts && b in db.accounts
    requires db.accounts[a].email == db.accounts[b].email
    ensures a == b
  {
  }

  /** An unknown email never logs in. */
  lemma LoginUnknownEmail(db: Db, email: string, passwordHash: string)
    requires !EmailTaken(db, email)
    ensures LoginOn(db, email, passwordHash) == None
  {
    var _ := LoginFinds(db, email, passwordHash);
  }

  /** Registering and then logging in with the same credentials logs in as the new account. */
  lemma LoginAfterRegister(db: Db, email: string, passwordHash: string)
    requires Valid(db) && !EmailTaken(db, email)
    ensures var (after, id) := RegisterOn(db, email, passwordHash).value;
            LoginOn(after, email, passwordHash) == Some(id)
  {
    RegisterNewEmail(db, email, passwordHash);
    RegisterKeepsValid(db, email, passwordHash);
    var (after, id) := RegisterOn(db, email, passwordHash).value;
    LoginOnSpec(after, email, passwordHash, id);
  }

  /** The id in the first row of the player query, if it returns any. */
  function FirstMatch(db: Db, fragment: string): (r: Option<int>)
    ensures r.Some? ==> r.value in db.players
  {
    var rows := PlayerRowsLike(db, fragment);
    if rows == [] then None else Some(rows[0].playerId)
  }

  /** How a prediction submission ends, given a logged-in user. */
  datatype Submission = NoSuchPlayer | Refused(error: Error) | Stored(db: Db, playerId: int)

  /**
   * A logged-in user's prediction about the player the query `found`: none
   * found ends it; otherwise one row dated `today` is inserted, which the
   * foreign keys refuse when the user has no account.
   */
  function SubmitWith(db: Db, userId: int, found: Option<int>, predictionType: string, predictionValue: string, today: string)
    : (r: Submission)
    requires found.Some? ==> found.value in db.players
    ensures r.NoSuchPlayer? <==> found.None?
    ensures r.Refused? <==> found.Some? && userId !in db.accounts
    ensures r.Refused? ==> r.error == IntegrityError
    ensures r.Stored? ==>
              && r.playerId == found.value
              && NextRowId(db.predictions.Keys) !in db.predictions
              && r.db == db.(predictions := db.predictions[NextRowId(db.predictions.Keys) :=
                               Prediction(userId, found.value, predictionType, predictionValue, today)])
  {
    match found
    case None => NoSuchPlayer
    case Some(playerId) =>
      var p := Prediction(userId, playerId, predictionType, predictionValue, today);
      match RunSingle(db, InsertPrediction(p))
      case Err(e) => Refused(e)
      case Ok((after, _)) => Stored(after, playerId)
  }

  /**
   * The player query finds a row exactly when some player's name matches,
   * and its first row is the matching player with the smallest id, under
   * the scan order `ScanOrder` assumes.
   */
  lemma PlayerFound(db: Db, fragment: string) returns (id: int)
    ensures FirstMatch(db, fragment) == None <==>
              forall k :: k in db.players ==> !NameMatches(db.players[k].fullName, fragment)
    ensures FirstMatch(db, fragment).Some? ==>
              && FirstMatch(db, fragment) == Some(id)
              && id in db.players && NameMatches(db.players[id].fullName, fragment)
              && forall k :: k in db.players && k < id ==> !NameMatches(db.players[k].fullName, fragment)
  {
    id := 0;
    NoPlayerLike(db.players, fragment);
    if FirstMatch(db, fragment).Some? {
      id := FirstPlayer(db.players, fragment);
    }
  }

  /** The scan finds nothing exactly when no player matches. */
  lemma NoPlayerLike(players: map<int, PlayerRow>, fragment: string)
    ensures PlayersLike(players, ScanOrder(players.Keys), fragment) == [] <==>
              forall k :: k in players ==> !NameMatches(players[k].fullName, fragment)
  {
    var order := ScanOrder(players.Keys);
    var _ := PlayersLikeFirst(players, order, fragment);
    forall k | k in players && NameMatches(players[k].fullName, fragment)
      ensures exists j :: 0 <= j < |order| && NameMatches(players[order[j]].fullName, fragment)
    {
      var j := ScanIndex(players.Keys, k);
    }
  }

  lemma FirstPlayer(players: map<int, PlayerRow>, fragment: string) returns (id: int)
    requires PlayersLike(players, ScanOrder(players.Keys), fragment) != []
    ensures PlayersLike(players, ScanOrder(players.Keys), fragment)[0] == PlayerId(id)
    ensures id in players && NameMatches(players[id].fullName, fragment)
    ensures forall k :: k in players && k < id ==> !NameMatches(players[k].fullName, fragment)
  {
    var order := ScanOrder(players.Keys);
    var i := PlayersLikeFirst(players, order, fragment);
    id := order[i];
    NoMatchBefore(players, fragment, i);
  }

  /** Before the first matching position of the scan, no player matches. */
  lemma NoMatchBefore(players: map<int, PlayerRow>, fragment: string, i: nat)
    requires i < |ScanOrder(players.Keys)|
    requires forall j :: 0 <= j < i ==> !NameMatches(players[ScanOrder(players.Keys)[j]].fullName, fragment)
    ensures forall k :: k in players && k < ScanOrder(players.Keys)[i] ==> !NameMatches(players[k].fullName, fragment)
  {
    var order := ScanOrder(players.Keys);
    forall k | k in players && k < order[i] ensures !NameMatches(players[k].fullName, fragment) {
      var j := ScanIndex(players.Keys, k);
      IncreasingIndex(order, j, i);
    }
  }

  /** In an increasing sequence, a smaller value sits at an earlier position. */
  lemma IncreasingIndex(xs: seq<int>, a: nat, b: nat)
    requires forall x, y :: 0 <= x < y < |xs| ==> xs[x] < xs[y]
    requires a < |xs| && b < |xs| && xs[a] < xs[b]
    ensures a < b
  {
  }

  /**
   * The application's session: the database file every feature connects
   * to, the password hash (SHA-256, here an opaque deterministic function)
   * and `CURRENT_USER_ID`.
   */
  class Session {
    const disk: Disk
    const hash: string -> string
    var currentUser: Option<int>

    constructor(disk: Disk, hash: string -> string)
      ensures this.disk == disk && this.hash == hash && currentUser == None
    {
      this.disk := disk;
      this.hash := hash;
      currentUser := None;
    }

    /** `get_current_user()` */
    method CurrentUser() returns (u: Option<int>)
      ensures u == currentUser
    {
      u := currentUser;
    }

    /**
     * `register_user(email, password)`: empty credentials are refused without
     * touching the file; otherwise the account and its profile are written in
     * one transaction and committed together, or not at all. In a file
     * without the tables the first insert raises.
     */
    method Register(email: string, password: string, canOpen: bool) returns (ok: bool, msg: Message)
      modifies disk
      ensures ok == Succeeded(msg)
      ensures email == [] || password == [] ==> msg == EmptyCredentials && unchanged(disk)
      ensures email != [] && password != [] && !canOpen ==> msg == RegistrationError(OperationalError) && unchanged(disk)
      ensures email != [] && password != [] && canOpen ==>
                && disk.present && disk.hasSchema == (old(disk.present) && old(disk.hasSchema))
                && (!disk.hasSchema ==> msg == RegistrationError(OperationalError)
                                        && disk.db == ConnectedDb(old(disk.present), old(disk.db)))
      ensures email != [] && password != [] && canOpen && old(disk.present) && old(disk.hasSchema) ==>
                match RegisterOn(old(disk.db), email, hash(password))
                   case Ok((after, id)) => msg == Registered(email, id) && disk.db == after
                   case Err(e) => msg == RegisterFailure(e)
                                  && disk.db == old(disk.db)
    {
      if email == [] || password == [] {
        return false, EmptyCredentials;
      }
      var hashed := hash(password);
      var db := new DatabaseManager(disk);
      var entered := db.Enter(canOpen);
      if entered.Fail? {
        return false, RegistrationError(entered.error);
      }
      var begun := db.Begin();
      var account := db.Execute(InsertAccount(email, hashed));
      if account.Err? {
        db.Exit(true);
        return false, RegisterFailure(account.error);
      }
      assert db.tables;
      var userId := db.FetchLastInsertRowId();
      var profile := db.Execute(InsertProfile(userId.value, DisplayName(email)));
      if profile.Err? {
        db.Exit(true);
        return false, RegisterFailure(profile.error);
      }
      db.Commit();
      db.Exit(false);
      return true, Registered(email, userId.value);
    }

    /**
     * `login_user(email, password)`: the session's user becomes the account
     * found, or none; when the connection cannot be made, or the file has no
     * tables, the query raises and the user is left as it was.
     */
    method Login(email: string, password: string, canOpen: bool) returns (ok: bool, msg: Message)
      modifies this, disk
      ensures ok == Succeeded(msg)
      ensures old(disk.present) ==> disk.db == old(disk.db)
      ensures !canOpen ==> msg == LoginError(OperationalError) && currentUser == old(currentUser) && unchanged(disk)
      ensures canOpen ==>
                && disk.present && disk.hasSchema == (old(disk.present) && old(disk.hasSchema))
                && disk.db == ConnectedDb(old(disk.present), old(disk.db))
      ensures canOpen && !disk.hasSchema ==> msg == LoginError(OperationalError) && currentUser == old(currentUser)
      ensures canOpen && disk.hasSchema ==>
                && currentUser == LoginOn(old(disk.db), email, hash(password))
                && msg == (if currentUser.Some? then LoggedIn(currentUser.value) else InvalidCredentials)
    {
      var hashed := hash(password);
      var db := new DatabaseManager(disk);
      var entered := db.Enter(canOpen);
      if entered.Fail? {
        return false, LoginError(entered.error);
      }
      ghost var start := db.pending;
      assert start == disk.db == ConnectedDb(old(disk.present), old(disk.db));
      var found := db.FetchOne(AccountByEmail(email));
      if found.Err? {
        assert !disk.hasSchema;
        db.Exit(true);
        return false, LoginError(found.error);
      }
      assert disk.hasSchema && db.pending == start;
      assert LoginOn(db.pending, email, hashed)
          == if found.value.Some? && found.value.value.passwordHash == hashed then Some(found.value.value.userId) else None;
      if found.value.Some? && found.value.value.passwordHash == hashed {
        currentUser := Some(found.value.value.userId);
        ok, msg := true, LoggedIn(found.value.value.userId);
      } else {
        currentUser := None;
        ok, msg := false, InvalidCredentials;
      }
      db.Exit(false);
    }

    /**
     * `submit_player_prediction(name, type, value)`: refused without a
     * logged-in user; otherwise the prediction about the first matching player
     * is inserted and committed, or nothing is. In a file without the tables
     * the player query raises.
     */
    method SubmitPrediction(playerName: string, predictionType: string, predictionValue: string, canOpen: bool, today: string)
      returns (ok: bool, msg: Message)
      modifies disk
      ensures ok == Succeeded(msg)
      ensures currentUser.None? ==> msg == NotLoggedIn && unchanged(disk)
      ensures currentUser.Some? && !canOpen ==> msg == PredictionError(OperationalError) && unchanged(disk)
      ensures currentUser.Some? && canOpen ==>
                && disk.present && disk.hasSchema == (old(disk.present) && old(disk.hasSchema))
                && (!disk.hasSchema ==> msg == PredictionError(OperationalError)
                                        && disk.db == ConnectedDb(old(disk.present), old(disk.db)))
      ensures currentUser.Some? && canOpen && old(disk.present) && old(disk.hasSchema) ==>
                match SubmitWith(old(disk.db), currentUser.value, FirstMatch(old(disk.db), Strip(playerName)),
                                 predictionType, predictionValue, today)
                case NoSuchPlayer => msg == PlayerNotFound(playerName) && disk.db == old(disk.db)
                case Refused(e) => msg == PredictionError(e) && disk.db == old(disk.db)
                case Stored(after, _) => msg == PredictionSubmitted(predictionType, playerName) && disk.db == after
    {
      if currentUser.None? {
        return false, NotLoggedIn;
      }
      var db := new DatabaseManager(disk);
      var entered := db.Enter(canOpen);
      if entered.Fail? {
        return false, PredictionError(entered.error);
      }
      ok, msg := Submit(db, currentUser.value, playerName, predictionType, predictionValue, today);
    }
  }

  /**
   * The body of the submission's `with` block: the player query, which
   * raises in a file without the tables, then the insert.
   */
  method Submit(db: DatabaseManager, userId: int, playerName: string, predictionType: string, predictionValue: string,
                today: string)
    returns (ok: bool, msg: Message)
    requires db.Valid() && db.open && !db.inTransaction
    modifies db, db.disk
    ensures ok == Succeeded(msg)
    ensures db.disk.present == old(db.disk.present) && db.disk.hasSchema == old(db.disk.hasSchema)
    ensures !old(db.tables) ==> msg == PredictionError(OperationalError) && db.disk.db == old(db.pending)
    ensures old(db.tables) ==>
              match SubmitWith(old(db.pending), userId, FirstMatch(old(db.pending), Strip(playerName)),
                               predictionType, predictionValue, today)
              case NoSuchPlayer => msg == PlayerNotFound(playerName) && db.disk.db == old(db.pending)
              case Refused(e) => msg == PredictionError(e) && db.disk.db == old(db.pending)
              case Stored(after, _) => msg == PredictionSubmitted(predictionType, playerName) && db.disk.db == after
  {
    ghost var before := db.pending;
    var fragment := Strip(playerName);
    assert Select(before, PlayerLike(fragment)) == PlayerRowsLike(before, fragment);
    var found := db.FetchOne(PlayerLike(fragment));
    if found.Err? {
      db.Exit(true);
      return false, PredictionError(found.error);
    }
    var playerId := if found.value.Some? then Some(found.value.value.playerId) else None;
    assert playerId == FirstMatch(before, fragment);
    ok, msg := Record(db, userId, playerId, playerName, predictionType, predictionValue, today);
  }

  /**
   * The rest of a submission once the connection is open and the player
   * query has run: nothing found ends it with a commit of nothing; otherwise
   * the insert is committed, or rolled back when it fails.
   */
  method Record(db: DatabaseManager, userId: int, found: Option<int>,
                playerName: string, predictionType: string, predictionValue: string, today: string)
    returns (ok: bool, msg: Message)
    requires db.Valid() && db.open && db.tables && !db.inTransaction
    requires found.Some? ==> found.value in db.pending.players
    modifies db, db.disk
    ensures ok == Succeeded(msg)
    ensures db.disk.present == old(db.disk.present) && db.disk.hasSchema == old(db.disk.hasSchema)
    ensures match SubmitWith(old(db.pending), userId, found, predictionType, predictionValue, today)
            case NoSuchPlayer => msg == PlayerNotFound(playerName) && db.disk.db == old(db.pending)
            case Refused(e) => msg == PredictionError(e) && db.disk.db == old(db.pending)
            case Stored(after, _) => msg == PredictionSubmitted(predictionType, playerName) && db.disk.db == after
  {
    if found.None? {
      db.Exit(false);
      return false, PlayerNotFound(playerName);
    }
    var p := Prediction(userId, found.value, predictionType, predictionValue, today);
    var inserted := db.Execute(InsertPrediction(p));
    if inserted.Err? {
      db.Exit(true);
      return false, PredictionError(inserted.error);
    }
    db.Exit(false);
    return true, PredictionSubmitted(predictionType, playerName);
  }
}
