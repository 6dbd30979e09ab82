/** The three tables `AuthManager` (auth.py) reads and writes, as finite maps:
    `users`, `clubs` and `password_resets` (keyed by token string), together with the
    auto-increment counters that number new rows. */
module AuthStore {
  import opened Wrappers
  import opened Strings
  import opened Credentials

  type UserId = nat
  type ClubId = nat
  /** Seconds on one clock; the source's `datetime.now()` and SQL `NOW()` are both `now`. */
  type Time = int

  const Minute: int := 60
  const Hour: int := 60 * Minute

  datatype User = User(
    clubId: Option<ClubId>,      // None: a platform administrator
    email: string,
    passwordHash: PasswordHash,
    salt: string,
    failedAttempts: nat,
    lockedUntil: Option<Time>,
    lastLogin: Option<Time>)

  datatype Club = Club(name: string, systemPrefix: string, language: string)

  /** A row of `password_resets`; reset tokens and registration tokens share it. */
  datatype ResetToken = ResetToken(userId: UserId, expiresAt: Time, usedAt: Option<Time>)

  datatype Db = Db(
    users: map<UserId, User>,
    clubs: map<ClubId, Club>,
    resets: map<string, ResetToken>,
    nextUserId: UserId,
    nextClubId: ClubId)

  /** The public profile `authenticate_user` returns and the session stores. */
  datatype UserInfo = UserInfo(userId: UserId, clubId: Option<ClubId>, email: string, clubName: Option<string>)

  /** The `(success, message)` pairs of `AuthManager`; messages are named by meaning. */
  datatype Message =
    | UserAlreadyExists | InvalidClubId | UserCreated
    | ResetLinkMaybeSent | ResetEmailError
    | InvalidOrExpiredResetToken | ResetTokenExpired | ResetTokenAlreadyUsed | PasswordResetDone
    | InvalidRegistrationToken
    | InvalidLanguage | ClubNameTaken | ClubCreated
    | UserNotFound | UserDeleted

  datatype Reply = Reply(success: bool, message: Message)

  /** Parts of the email of a registration placeholder user (auth.py:391). */
  const SentinelPrefix: string := "registration_token_"
  const SentinelSuffix: string := "@temp.teambee.internal"
  /** Hash and salt written into placeholder rows (auth.py:398). */
  const PlaceholderText: string := "temp"

  /** The pattern `LIKE 'registration_token_%@temp.teambee.internal'`, read as a
      prefix and suffix test as `validate_registration_token` does. */
  predicate IsSentinel(email: string) {
    StartsWith(email, SentinelPrefix) && EndsWith(email, SentinelSuffix)
  }

  /** `f"registration_token_{club_id}_{token}@temp.teambee.internal"`. */
  function SentinelEmail(clubId: ClubId, token: string): (e: string)
    ensures IsSentinel(e)
    ensures e[..|SentinelPrefix|] == SentinelPrefix
  {
    var e := SentinelPrefix + NatToDecimal(clubId) + "_" + token + SentinelSuffix;
    assert e[|e| - |SentinelSuffix|..] == SentinelSuffix;
    e
  }

  /** For one club, the placeholder email determines the token embedded in it. */
  lemma {:induction false} SentinelEmailInjective(clubId: ClubId, a: string, b: string)
    requires SentinelEmail(clubId, a) == SentinelEmail(clubId, b)
    ensures a == b
  {
    var p := SentinelPrefix + NatToDecimal(clubId) + "_";
    var ea, eb := p + a + SentinelSuffix, p + b + SentinelSuffix;
    assert SentinelEmail(clubId, a) == ea && SentinelEmail(clubId, b) == eb;
    assert |a| == |b|;
    assert a == ea[|p|..|p| + |a|];
    assert b == eb[|p|..|p| + |b|];
  }

  /** A token row is usable at `now`: not consumed and `now <= expires_at`. */
  predicate TokenValid(t: ResetToken, now: Time) {
    t.usedAt.None? && now <= t.expiresAt
  }

  lemma HasMinimum(s: set<nat>)
    requires s != {}
    ensures exists m :: m in s && forall x :: x in s ==> m <= x
  {
    var x :| x in s;
    var rest := s - {x};
    assert s == rest + {x};
    if rest == {} {
      MinimumOfAdded(x, rest, x);
    } else {
      HasMinimum(rest);
      var m :| m in rest && forall y :: y in rest ==> m <= y;
      MinimumOfAdded(x, rest, m);
    }
  }

  /** Adding `x` to a set whose least element is `m` (or to the empty set, with `m == x`)
      gives the least element `min(x, m)`. */
  lemma MinimumOfAdded(x: nat, rest: set<nat>, m: nat)
    requires (rest == {} && m == x) || (m in rest && forall y :: y in rest ==> m <= y)
    ensures var least := if x < m then x else m;
            least in rest + {x} && forall y :: y in rest + {x} ==> least <= y
  {
  }

  /** The least element of a non-empty set of ids. */
  function MinOf(s: set<nat>): (m: nat)
    requires s != {}
    ensures m in s && forall x :: x in s ==> m <= x
  {
    HasMinimum(s);
    var m :| m in s && forall x :: x in s ==> m <= x;
    m
  }

  /** The row a `fetch_one` over `users` returns: the lowest id among the matches,
      which is the primary-key order the table is scanned in. */
  function FirstUser(ids: set<UserId>): (r: Option<UserId>)
    ensures r.None? <==> ids == {}
    ensures r.Some? ==> r.value in ids && forall x :: x in ids ==> r.value <= x
  {
    if ids == {} then None else Some(MinOf(ids))
  }

  function UsersWithEmail(db: Db, email: string): set<UserId> {
    set id | id in db.users && db.users[id].email == email
  }

  /** `SELECT ... FROM users WHERE email = :email`. */
  function FindUserByEmail(db: Db, email: string): (r: Option<UserId>)
    ensures r.None? <==> forall id :: id in db.users ==> db.users[id].email != email
    ensures r.Some? ==> r.value in db.users && db.users[r.value].email == email
  {
    var r := FirstUser(UsersWithEmail(db, email));
    assert r.None? ==> forall id :: id in db.users ==> id !in UsersWithEmail(db, email);
    r
  }

  /** Rewriting rows without touching any email leaves every lookup by email unchanged. */
  lemma FindUserByEmailFrame(db: Db, db': Db, email: string)
    requires db'.users.Keys == db.users.Keys
    requires forall id :: id in db.users ==> db'.users[id].email == db.users[id].email
    ensures FindUserByEmail(db', email) == FindUserByEmail(db, email)
  {
    assert UsersWithEmail(db', email) == UsersWithEmail(db, email);
  }

  /** `SELECT user_id FROM users WHERE club_id = :club_id AND email LIKE 'registration_token_%...'`
      (auth.py:114-119): the first placeholder row of a club. */
  function PlaceholderOf(db: Db, clubId: ClubId): (r: Option<UserId>)
    ensures r.None? <==> forall id :: id in db.users ==> !(db.users[id].clubId == Some(clubId) && IsSentinel(db.users[id].email))
    ensures r.Some? ==> r.value in db.users && db.users[r.value].clubId == Some(clubId) && IsSentinel(db.users[r.value].email)
    ensures r.Some? ==> forall id :: id in db.users && db.users[id].clubId == Some(clubId) && IsSentinel(db.users[id].email) ==> r.value <= id
  {
    var ids := set id | id in db.users && db.users[id].clubId == Some(clubId) && IsSentinel(db.users[id].email);
    var r := FirstUser(ids);
    assert forall id :: id in db.users && db.users[id].clubId == Some(clubId) && IsSentinel(db.users[id].email) ==> id in ids;
    r
  }

  /** `c.name` of the `LEFT JOIN clubs`: absent for administrators and missing clubs. */
  function ClubName(db: Db, clubId: Option<ClubId>): (r: Option<string>)
    ensures r.Some? <==> clubId.Some? && clubId.value in db.clubs
  {
    if clubId.Some? && clubId.value in db.clubs then Some(db.clubs[clubId.value].name) else None
  }

  /** The table constraints the operations keep: ids below the auto-increment counters,
      emails unique (the key `ON DUPLICATE KEY UPDATE` relies on), club names unique. */
  ghost predicate WellFormed(db: Db) {
    && db.nextUserId >= 1 && db.nextClubId >= 1
    && (forall id :: id in db.users ==> 1 <= id < db.nextUserId)
    && (forall c :: c in db.clubs ==> 1 <= c < db.nextClubId)
    && (forall a, b :: a in db.users && b in db.users && db.users[a].email == db.users[b].email ==> a == b)
    && (forall a, b :: a in db.clubs && b in db.clubs && db.clubs[a].name == db.clubs[b].name ==> a == b)
  }

  /** Every row with a placeholder email still holds the `'temp'` hash written at auth.py:398,
      which no password verifies against. */
  predicate PlaceholdersUnusable(db: Db) {
    forall id :: id in db.users && IsSentinel(db.users[id].email) ==> db.users[id].passwordHash == Literal(PlaceholderText)
  }

  /** With unique emails, the row found by email is the only one carrying it. */
  lemma FindUserByEmailUnique(db: Db, email: string, id: UserId)
    requires WellFormed(db)
    requires id in db.users && db.users[id].email == email
    ensures FindUserByEmail(db, email) == Some(id)
  {
  }
}
