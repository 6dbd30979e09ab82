/** Registration invitations of `AuthManager` (auth.py): an invitation is a row of
    `password_resets` owned by a placeholder user whose email embeds the club id and the
    token. `create_registration_token`, `validate_registration_token` and
    `complete_registration`. */
module Registration {
  import opened Wrappers
  import opened Strings
  import opened Credentials
  import opened AuthStore
  import opened Accounts
  import Login

  /** The default `expires_hours` of `create_registration_token`. */
  const RegistrationTokenHours: int := 24

  datatype TokenStep = TokenStep(db: Db, token: Option<string>)

  /** The row inserted for a new invitation: unusable `'temp'` credentials. */
  function PlaceholderUser(clubId: ClubId, email: string): User {
    User(Some(clubId), email, Literal(PlaceholderText), PlaceholderText, 0, None, None)
  }

  /** `create_registration_token(club_id, expires_hours)`. `token` stands for the fresh
      output of `secrets.token_urlsafe(32)`. The placeholder row is upserted by email
      (`ON DUPLICATE KEY UPDATE email = :email` leaves an existing row as it is). */
  function CreateRegistrationToken(db: Db, clubId: ClubId, token: string, expiresHours: int, now: Time): (r: TokenStep)
    requires token !in db.resets
    ensures r.db.clubs == db.clubs && r.db.nextClubId == db.nextClubId
    // An unknown club yields no token and no write.
    ensures clubId !in db.clubs ==> r == TokenStep(db, None)
    // Otherwise exactly one new token, unused, owned by a row with the placeholder email.
    ensures clubId in db.clubs ==>
              && r.token == Some(token)
              && token in r.db.resets
              && var t := r.db.resets[token];
              && r.db.resets == db.resets[token := t]
              && t.expiresAt == now + expiresHours * Hour && t.usedAt.None?
              && t.userId in r.db.users && r.db.users[t.userId].email == SentinelEmail(clubId, token)
    // A new placeholder row takes the next id; an existing row with that email is reused untouched.
    ensures clubId in db.clubs && FindUserByEmail(db, SentinelEmail(clubId, token)).None? ==>
              && r.db.users == db.users[db.nextUserId := PlaceholderUser(clubId, SentinelEmail(clubId, token))]
              && r.db.nextUserId == db.nextUserId + 1
              && r.db.resets[token].userId == db.nextUserId
    ensures clubId in db.clubs && FindUserByEmail(db, SentinelEmail(clubId, token)).Some? ==>
              && r.db.users == db.users && r.db.nextUserId == db.nextUserId
              && r.db.resets[token].userId == FindUserByEmail(db, SentinelEmail(clubId, token)).value
  {
    if clubId !in db.clubs then TokenStep(db, None)
    else
      var email := SentinelEmail(clubId, token);
      var expiresAt := now + expiresHours * Hour;
      match FindUserByEmail(db, email)
      case Some(id) =>
        TokenStep(db.(resets := db.resets[token := ResetToken(id, expiresAt, None)]), Some(token))
      case None =>
        var id := db.nextUserId;
        var db1 := db.(users := db.users[id := PlaceholderUser(clubId, email)], nextUserId := id + 1);
        TokenStep(db1.(resets := db1.resets[token := ResetToken(id, expiresAt, None)]), Some(token))
  }

  /** `validate_registration_token(token)`: the club of the token's owner, provided the owner
      carries a placeholder email and the token is unused and not past `expires_at`. */
  function ValidateRegistrationToken(db: Db, token: string, now: Time): (r: Option<ClubId>)
    ensures r.Some? <==>
              && token in db.resets
              && db.resets[token].userId in db.users
              && IsSentinel(db.users[db.resets[token].userId].email)
              && TokenValid(db.resets[token], now)
              && db.users[db.resets[token].userId].clubId.Some?
    ensures r.Some? ==> r == db.users[db.resets[token].userId].clubId
  {
    if token !in db.resets then None
    else
      var t := db.resets[token];
      if t.userId !in db.users then None
      else
        var owner := db.users[t.userId];
        if !IsSentinel(owner.email) then None
        else if now > t.expiresAt then None
        else if t.usedAt.Some? then None
        else owner.clubId
  }

  /** An invitation validates, for its club, from its creation up to and including its
      expiry time, and not afterwards. */
  lemma {:induction false} CreatedTokenValidates(db: Db, clubId: ClubId, token: string, hours: int, now: Time, t: Time)
    requires token !in db.resets && clubId in db.clubs
    requires FindUserByEmail(db, SentinelEmail(clubId, token)).None?
    ensures var db' := CreateRegistrationToken(db, clubId, token, hours, now).db;
            ValidateRegistrationToken(db', token, t) == if t <= now + hours * Hour then Some(clubId) else None
  {
    var db' := CreateRegistrationToken(db, clubId, token, hours, now).db;
    assert db'.users[db'.resets[token].userId] == PlaceholderUser(clubId, SentinelEmail(clubId, token));
  }

  lemma {:induction false} CreateRegistrationTokenKeepsWellFormed(db: Db, clubId: ClubId, token: string, hours: int, now: Time)
    requires WellFormed(db) && token !in db.resets
    ensures WellFormed(CreateRegistrationToken(db, clubId, token, hours, now).db)
  {
    var email := SentinelEmail(clubId, token);
    if clubId in db.clubs && FindUserByEmail(db, email).None? {
      assert forall id :: id in db.users ==> db.users[id].email != email;
    }
  }

  /** The facts every successful completion needs: the token validates for a non-zero
      club (`if not club_id` refuses 0), the email is free and the club exists. */
  predicate CanComplete(db: Db, token: string, email: string, now: Time) {
    var c := ValidateRegistrationToken(db, token, now);
    c.Some? && c.value != 0 && FindUserByEmail(db, email).None? && c.value in db.clubs
  }

  /** `complete_registration(token, email, password)` as auth.py writes it: `create_user`
      takes over the club's LOWEST-id placeholder, whichever invitation it belongs to; then
      the token is marked used and its own owner row is deleted if it is still a placeholder. */
  function CompleteRegistrationAsWritten(db: Db, token: string, email: string, password: string, freshSalt: string, now: Time): (r: Step)
    ensures r.reply.success <==> CanComplete(db, token, email, now)
    ensures !r.reply.success ==> r.db == db
    ensures ValidateRegistrationToken(db, token, now).None? ==> r == Step(db, Reply(false, InvalidRegistrationToken))
    ensures r.reply.success ==>
              var c := ValidateRegistrationToken(db, token, now).value;
              var p := PlaceholderOf(db, c).value;
              && r.reply.message == UserCreated
              && r.db.resets == db.resets[token := db.resets[token].(usedAt := Some(now))]
              && (p != db.resets[token].userId || !IsSentinel(email) ==>
                    && p in r.db.users && r.db.users[p].email == email && r.db.users[p].clubId == Some(c)
                    && VerifyPassword(password, r.db.users[p].passwordHash, r.db.users[p].salt)
                    && r.db.users[p].failedAttempts == 0 && r.db.users[p].lockedUntil.None?)
              && (p != db.resets[token].userId ==> db.resets[token].userId !in r.db.users)
    // Nothing else changes: the clubs, the counters, and every row other than `p` and the
    // token's owner; the owner row is the only one that can disappear, and it does unless
    // it is `p` and took a non-placeholder email.
    ensures r.db.clubs == db.clubs && r.db.nextUserId == db.nextUserId && r.db.nextClubId == db.nextClubId
    ensures r.reply.success ==>
              var c := ValidateRegistrationToken(db, token, now).value;
              var p, owner := PlaceholderOf(db, c).value, db.resets[token].userId;
              && r.db.users.Keys == db.users.Keys - (if p != owner || IsSentinel(email) then {owner} else {})
              && (forall id :: id in db.users && id != p && id != owner ==> r.db.users[id] == db.users[id])
  {
    var c := ValidateRegistrationToken(db, token, now);
    if c.None? || c.value == 0 then Step(db, Reply(false, InvalidRegistrationToken))
    else
      var created := CreateUser(db, email, password, Some(c.value), freshSalt);
      if !created.reply.success then created
      else
        var owner := db.resets[token].userId;
        assert PlaceholderOf(db, c.value).Some?;
        var db1 := created.db.(resets := created.db.resets[token := db.resets[token].(usedAt := Some(now))]);
        var db2 := if owner in db1.users && IsSentinel(db1.users[owner].email)
                   then db1.(users := db1.users - {owner}) else db1;
        Step(db2, created.reply)
  }

  lemma {:induction false} CompleteRegistrationAsWrittenKeepsWellFormed(db: Db, token: string, email: string, password: string, salt: string, now: Time)
    requires WellFormed(db)
    ensures WellFormed(CompleteRegistrationAsWritten(db, token, email, password, salt, now).db)
  {
    var c := ValidateRegistrationToken(db, token, now);
    if c.Some? && c.value != 0 {
      CreateUserKeepsWellFormed(db, email, password, Some(c.value), salt);
    }
  }

  /** `complete_registration` corrected: the new member takes over the placeholder row of
      THIS invitation, so every other invitation and every other row is left as it was. */
  function CompleteRegistration(db: Db, token: string, email: string, password: string, freshSalt: string, now: Time): (r: Step)
    ensures r.reply.success <==> CanComplete(db, token, email, now)
    ensures !r.reply.success ==> r.db == db
    ensures ValidateRegistrationToken(db, token, now).None? ==> r == Step(db, Reply(false, InvalidRegistrationToken))
    ensures r.db.clubs == db.clubs && r.db.nextUserId == db.nextUserId && r.db.nextClubId == db.nextClubId
    ensures r.reply.success ==> token in db.resets && db.resets[token].userId in db.users && r.db.users.Keys == db.users.Keys
    ensures r.reply.success ==>
              var t := db.resets[token];
              var u, v := db.users[t.userId], r.db.users[t.userId];
              && r.reply.message == UserCreated
              && r.db.resets == db.resets[token := t.(usedAt := Some(now))]
              && (forall id :: id in db.users && id != t.userId ==> r.db.users[id] == db.users[id])
              && v.email == email && v.clubId == u.clubId
              && VerifyPassword(password, v.passwordHash, v.salt)
              && v.failedAttempts == 0 && v.lockedUntil.None?
  {
    var c := ValidateRegistrationToken(db, token, now);
    if c.None? || c.value == 0 then Step(db, Reply(false, InvalidRegistrationToken))
    else if FindUserByEmail(db, email).Some? then Step(db, Reply(false, UserAlreadyExists))
    else if c.value !in db.clubs then Step(db, Reply(false, InvalidClubId))
    else
      var t := db.resets[token];
      var h := HashPassword(password, None, freshSalt);
      HashVerifyRoundTrip(password, None, freshSalt);
      var u := db.users[t.userId];
      var users' := db.users[t.userId := u.(email := email, passwordHash := h.hash, salt := h.salt, failedAttempts := 0, lockedUntil := None)];
      Step(db.(users := users', resets := db.resets[token := t.(usedAt := Some(now))]), Reply(true, UserCreated))
  }

  /** An invitation is consumed by its completion: it no longer validates, at any time, and a
      second completion with it fails. */
  lemma CompletionConsumesToken(db: Db, token: string, email: string, password: string, salt: string, now: Time,
                                email2: string, password2: string, salt2: string, later: Time)
    requires CompleteRegistration(db, token, email, password, salt, now).reply.success
    ensures var db' := CompleteRegistration(db, token, email, password, salt, now).db;
            && ValidateRegistrationToken(db', token, later).None?
            && CompleteRegistration(db', token, email2, password2, salt2, later) == Step(db', Reply(false, InvalidRegistrationToken))
  {
  }

  /** Completing one invitation leaves every other token's validation as it was, provided that
      token has a different owner row. */
  lemma OtherInvitationsSurvive(db: Db, token: string, email: string, password: string, salt: string, now: Time,
                                other: string, t: Time)
    requires CompleteRegistration(db, token, email, password, salt, now).reply.success
    requires other != token && other in db.resets && db.resets[other].userId != db.resets[token].userId
    ensures ValidateRegistrationToken(CompleteRegistration(db, token, email, password, salt, now).db, other, t)
              == ValidateRegistrationToken(db, other, t)
  {
  }

  lemma {:induction false} CompleteRegistrationKeepsWellFormed(db: Db, token: string, email: string, password: string, salt: string, now: Time)
    requires WellFormed(db)
    ensures WellFormed(CompleteRegistration(db, token, email, password, salt, now).db)
  {
    var r := CompleteRegistration(db, token, email, password, salt, now);
    if r.reply.success {
      assert forall id :: id in db.users ==> db.users[id].email != email;
    }
  }

  /** The invitation scenario end to end: a fresh invitation validates for its club; completing
      it creates an account that logs in with the chosen password; afterwards the invitation
      no longer validates. */
  lemma {:induction false} InvitationScenario(db: Db, clubId: ClubId, token: string, email: string, password: string,
                                              salt: string, now: Time, policy: Login.Policy)
    requires WellFormed(db)
    requires clubId in db.clubs && token !in db.resets
    requires FindUserByEmail(db, SentinelEmail(clubId, token)).None?
    requires FindUserByEmail(db, email).None? && email != SentinelEmail(clubId, token)
    ensures var db1 := CreateRegistrationToken(db, clubId, token, RegistrationTokenHours, now).db;
            var r := CompleteRegistration(db1, token, email, password, salt, now);
            && ValidateRegistrationToken(db1, token, now) == Some(clubId)
            && r.reply.success
            && ValidateRegistrationToken(r.db, token, now).None?
            && Login.Authenticate(r.db, email, password, now, policy).outcome.LoggedIn?
  {
    var db1 := CreateRegistrationToken(db, clubId, token, RegistrationTokenHours, now).db;
    CreatedTokenValidates(db, clubId, token, RegistrationTokenHours, now, now);
    CreateRegistrationTokenKeepsWellFormed(db, clubId, token, RegistrationTokenHours, now);
    assert FindUserByEmail(db1, email).None?;
    var r := CompleteRegistration(db1, token, email, password, salt, now);
    assert r.reply.success;
    CompleteRegistrationKeepsWellFormed(db1, token, email, password, salt, now);
    var id := db1.resets[token].userId;
    FindUserByEmailUnique(r.db, email, id);
    assert !Login.IsLocked(r.db.users[id], now);
  }
}
