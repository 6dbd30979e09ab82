/** Account and club administration of `AuthManager` (auth.py): `create_user`,
    `create_club`, `is_admin` and `delete_user`. */
module Accounts {
  import opened Wrappers
  import opened Credentials
  import opened AuthStore
  import JsonValues

  datatype Step = Step(db: Db, reply: Reply)

  /** The fresh row `INSERT INTO users (club_id, email, password_hash, salt)` writes. */
  function NewUser(clubId: Option<ClubId>, email: string, h: Hashed): User {
    User(clubId, email, h.hash, h.salt, 0, None, None)
  }

  /** `create_user(email, password, club_id)`. A club member takes over the club's first
      registration placeholder row if there is one; otherwise a new row is inserted.
      `freshSalt` stands for the salt `_hash_password` draws. */
  function CreateUser(db: Db, email: string, password: string, clubId: Option<ClubId>, freshSalt: string): (r: Step)
    ensures r.db.clubs == db.clubs && r.db.resets == db.resets && r.db.nextClubId == db.nextClubId
    // Duplicate email and unknown club are refused without any write.
    ensures FindUserByEmail(db, email).Some? ==> r == Step(db, Reply(false, UserAlreadyExists))
    ensures FindUserByEmail(db, email).None? && clubId.Some? && clubId.value !in db.clubs ==>
              r == Step(db, Reply(false, InvalidClubId))
    ensures r.reply.success <==> FindUserByEmail(db, email).None? && (clubId.None? || clubId.value in db.clubs)
    ensures !r.reply.success ==> r.db == db
    // On success exactly one row now carries the email and the new credentials.
    ensures r.reply.success ==>
              && r.reply.message == UserCreated
              && (exists id :: id in r.db.users && r.db.users[id].email == email
                   && VerifyPassword(password, r.db.users[id].passwordHash, r.db.users[id].salt)
                   && r.db.users[id].clubId == clubId
                   && r.db.users[id].failedAttempts == 0 && r.db.users[id].lockedUntil.None?
                   && forall other :: other in db.users && other != id ==> other in r.db.users && r.db.users[other] == db.users[other])
    // The placeholder it takes over is the club's lowest-id one.
    ensures r.reply.success && clubId.Some? && PlaceholderOf(db, clubId.value).Some? ==>
              var p := PlaceholderOf(db, clubId.value).value;
              && r.db.users.Keys == db.users.Keys && r.db.nextUserId == db.nextUserId
              && r.db.users[p].email == email && r.db.users[p].clubId == clubId
              && VerifyPassword(password, r.db.users[p].passwordHash, r.db.users[p].salt)
              && r.db.users[p].failedAttempts == 0 && r.db.users[p].lockedUntil.None?
    ensures r.reply.success && (clubId.None? || PlaceholderOf(db, clubId.value).None?) ==>
              r.db.users.Keys == db.users.Keys + {db.nextUserId} && r.db.users[db.nextUserId].email == email
              && r.db.nextUserId == db.nextUserId + 1
  {
    if FindUserByEmail(db, email).Some? then Step(db, Reply(false, UserAlreadyExists))
    else if clubId.Some? && clubId.value !in db.clubs then Step(db, Reply(false, InvalidClubId))
    else
      var h := HashPassword(password, None, freshSalt);
      HashVerifyRoundTrip(password, None, freshSalt);
      var placeholder := if clubId.Some? then PlaceholderOf(db, clubId.value) else None;
      match placeholder
      case Some(p) =>
        assert clubId.Some? && PlaceholderOf(db, clubId.value) == Some(p);
        var u := db.users[p];
        assert u.clubId == clubId;
        var u' := u.(email := email, passwordHash := h.hash, salt := h.salt, failedAttempts := 0, lockedUntil := None);
        var users' := db.users[p := u'];
        assert VerifyPassword(password, users'[p].passwordHash, users'[p].salt);
        Step(db.(users := users'), Reply(true, UserCreated))
      case None =>
        var id := db.nextUserId;
        var users' := db.users[id := NewUser(clubId, email, h)];
        assert VerifyPassword(password, users'[id].passwordHash, users'[id].salt);
        Step(db.(users := users', nextUserId := id + 1), Reply(true, UserCreated))
  }

  /** `create_user` keeps the table constraints: it refuses a taken email, and ids stay below the counter. */
  lemma {:induction false} CreateUserKeepsWellFormed(db: Db, email: string, password: string, clubId: Option<ClubId>, freshSalt: string)
    requires WellFormed(db)
    ensures WellFormed(CreateUser(db, email, password, clubId, freshSalt).db)
  {
    var r := CreateUser(db, email, password, clubId, freshSalt);
    if r.reply.success {
      var placeholder := if clubId.Some? then PlaceholderOf(db, clubId.value) else None;
      if placeholder.Some? {
        RewriteRowKeepsWellFormed(db, r.db, placeholder.value, email);
      } else {
        AddRowKeepsWellFormed(db, r.db, email);
      }
    }
  }

  /** Giving one existing row an email no row carries keeps the table constraints. */
  lemma RewriteRowKeepsWellFormed(db: Db, db': Db, p: UserId, email: string)
    requires WellFormed(db) && p in db.users
    requires forall id :: id in db.users ==> db.users[id].email != email
    requires db'.clubs == db.clubs && db'.nextUserId == db.nextUserId && db'.nextClubId == db.nextClubId
    requires db'.users.Keys == db.users.Keys && db'.users[p].email == email
    requires forall a :: a in db.users && a != p ==> db'.users[a] == db.users[a]
    ensures WellFormed(db')
  {
  }

  /** Adding a row under the next id, with an email no row carries, keeps the table constraints. */
  lemma AddRowKeepsWellFormed(db: Db, db': Db, email: string)
    requires WellFormed(db)
    requires forall id :: id in db.users ==> db.users[id].email != email
    requires db'.clubs == db.clubs && db'.nextUserId == db.nextUserId + 1 && db'.nextClubId == db.nextClubId
    requires db'.users.Keys == db.users.Keys + {db.nextUserId} && db'.users[db.nextUserId].email == email
    requires forall a :: a in db.users ==> db'.users[a] == db.users[a]
    ensures WellFormed(db')
  {
  }

  datatype ClubStep = ClubStep(db: Db, reply: Reply, clubId: Option<ClubId>)

  const Languages: set<string> := {"nl", "en"}

  /** `create_club(name, system_prefix, language)`: the new club gets the next auto-increment id. */
  function CreateClub(db: Db, name: string, systemPrefix: string, language: string): (r: ClubStep)
    ensures r.db.users == db.users && r.db.resets == db.resets && r.db.nextUserId == db.nextUserId
    ensures language !in Languages ==> r == ClubStep(db, Reply(false, InvalidLanguage), None)
    ensures language in Languages && (exists c :: c in db.clubs && db.clubs[c].name == name) ==>
              r == ClubStep(db, Reply(false, ClubNameTaken), None)
    ensures r.reply.success <==> language in Languages && forall c :: c in db.clubs ==> db.clubs[c].name != name
    ensures r.reply.success <==> r.clubId.Some?
    ensures r.reply.success ==>
              && r.reply.message == ClubCreated
              && r.clubId == Some(db.nextClubId)
              && r.db.clubs == db.clubs[db.nextClubId := Club(name, systemPrefix, language)]
              && r.db.nextClubId == db.nextClubId + 1
    ensures !r.reply.success ==> r.db == db
  {
    if language !in Languages then ClubStep(db, Reply(false, InvalidLanguage), None)
    else if exists c :: c in db.clubs && db.clubs[c].name == name then ClubStep(db, Reply(false, ClubNameTaken), None)
    else
      var id := db.nextClubId;
      ClubStep(db.(clubs := db.clubs[id := Club(name, systemPrefix, language)], nextClubId := id + 1), Reply(true, ClubCreated), Some(id))
  }

  /** `create_club` keeps club names unique and ids below the counter. */
  lemma {:induction false} CreateClubKeepsWellFormed(db: Db, name: string, systemPrefix: string, language: string)
    requires WellFormed(db)
    ensures WellFormed(CreateClub(db, name, systemPrefix, language).db)
  {
    var r := CreateClub(db, name, systemPrefix, language);
    if r.reply.success {
      assert forall c :: c in db.clubs ==> db.clubs[c].name != name;
      assert db.nextClubId !in db.clubs;
    }
  }

  /** `is_admin(user_info)`: `user_info.get("club_id") is None`, so a dict without the
      key counts as an administrator too. */
  function IsAdmin(userInfo: map<string, JsonValues.Value>): (r: bool)
    ensures r <==> "club_id" !in userInfo || userInfo["club_id"] == JsonValues.Null
  {
    JsonValues.Get(userInfo, "club_id") == JsonValues.Null
  }

  /** `delete_user(user_id)`: removes exactly that row; other tables are not touched. */
  function DeleteUser(db: Db, userId: UserId): (r: Step)
    ensures userId !in db.users ==> r == Step(db, Reply(false, UserNotFound))
    ensures userId in db.users ==> r.reply == Reply(true, UserDeleted)
    ensures r.db.users.Keys == db.users.Keys - {userId}
    ensures forall id :: id in r.db.users ==> r.db.users[id] == db.users[id]
    ensures r.db.(users := db.users) == db
  {
    if userId !in db.users then Step(db, Reply(false, UserNotFound))
    else Step(db.(users := db.users - {userId}), Reply(true, UserDeleted))
  }

  lemma DeleteUserKeepsWellFormed(db: Db, userId: UserId)
    requires WellFormed(db)
    ensures WellFormed(DeleteUser(db, userId).db)
  {
  }
}
