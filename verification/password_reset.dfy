/** The password-reset flow of `AuthManager` (auth.py): `initiate_password_reset` and
    `reset_password`. Reset tokens are single-use and expire one hour after issue. */
module PasswordReset {
  import opened Wrappers
  import opened Credentials
  import opened AuthStore
  import opened Accounts
  import Login

  const ResetTokenLifetime: int := 1 * Hour

  /** `initiate_password_reset(email)`. `token` stands for the fresh output of
      `secrets.token_urlsafe(32)` (so it is not yet in the table) and `mailSent` for the
      result of handing the reset link to the mail collaborator. */
  function InitiatePasswordReset(db: Db, email: string, token: string, now: Time, mailSent: bool): (r: Step)
    requires token !in db.resets
    ensures r.db.(resets := db.resets) == db
    // Unknown email: the generic answer, and no token.
    ensures FindUserByEmail(db, email).None? ==> r == Step(db, Reply(true, ResetLinkMaybeSent))
    // Known email: exactly one new token, owned by that user, unused, valid for one hour.
    ensures FindUserByEmail(db, email).Some? ==>
              && r.db.resets == db.resets[token := ResetToken(FindUserByEmail(db, email).value, now + ResetTokenLifetime, None)]
              && r.reply == (if mailSent then Reply(true, ResetLinkMaybeSent) else Reply(false, ResetEmailError))
  {
    match FindUserByEmail(db, email)
    case None => Step(db, Reply(true, ResetLinkMaybeSent))
    case Some(id) =>
      var db' := db.(resets := db.resets[token := ResetToken(id, now + ResetTokenLifetime, None)]);
      if mailSent then Step(db', Reply(true, ResetLinkMaybeSent)) else Step(db', Reply(false, ResetEmailError))
  }

  /** Anti-enumeration: whether or not the email is registered, a delivered request gets the
      same answer; the table grows by one token exactly when the email is known. */
  lemma AntiEnumeration(db: Db, email: string, token: string, now: Time)
    requires token !in db.resets
    ensures InitiatePasswordReset(db, email, token, now, true).reply == Reply(true, ResetLinkMaybeSent)
    ensures |InitiatePasswordReset(db, email, token, now, true).db.resets|
              == |db.resets| + (if FindUserByEmail(db, email).Some? then 1 else 0)
  {
  }

  /** `reset_password(token, new_password)` as auth.py writes it; `freshSalt` stands for the
      new salt. Any row of `password_resets` is accepted, registration invitations included. */
  function ResetPasswordAsWritten(db: Db, token: string, newPassword: string, freshSalt: string, now: Time): (r: Step)
    ensures r.db.clubs == db.clubs && r.db.nextUserId == db.nextUserId && r.db.nextClubId == db.nextClubId
    // The three refusals, in the order the source tests them; none writes anything.
    ensures token !in db.resets ==> r == Step(db, Reply(false, InvalidOrExpiredResetToken))
    ensures token in db.resets && now > db.resets[token].expiresAt ==> r == Step(db, Reply(false, ResetTokenExpired))
    ensures token in db.resets && now <= db.resets[token].expiresAt && db.resets[token].usedAt.Some? ==>
              r == Step(db, Reply(false, ResetTokenAlreadyUsed))
    ensures r.reply.success <==> token in db.resets && TokenValid(db.resets[token], now)
    // Success: the token is consumed, and its owner (if the row still exists) gets the new
    // credentials with the lockout cleared; no other row changes.
    ensures r.reply.success ==>
              var t := db.resets[token];
              && r.reply.message == PasswordResetDone
              && r.db.resets == db.resets[token := t.(usedAt := Some(now))]
              && r.db.users.Keys == db.users.Keys
              && (forall id :: id in db.users && id != t.userId ==> r.db.users[id] == db.users[id])
              && (t.userId in db.users ==>
                    var u, v := db.users[t.userId], r.db.users[t.userId];
                    && VerifyPassword(newPassword, v.passwordHash, v.salt)
                    && v.failedAttempts == 0 && v.lockedUntil.None?
                    && v.(passwordHash := u.passwordHash, salt := u.salt, failedAttempts := u.failedAttempts, lockedUntil := u.lockedUntil) == u)
  {
    if token !in db.resets then Step(db, Reply(false, InvalidOrExpiredResetToken))
    else
      var t := db.resets[token];
      if now > t.expiresAt then Step(db, Reply(false, ResetTokenExpired))
      else if t.usedAt.Some? then Step(db, Reply(false, ResetTokenAlreadyUsed))
      else
        var h := HashPassword(newPassword, None, freshSalt);
        HashVerifyRoundTrip(newPassword, None, freshSalt);
        var users' := if t.userId in db.users then
                        var u := db.users[t.userId];
                        db.users[t.userId := u.(passwordHash := h.hash, salt := h.salt, failedAttempts := 0, lockedUntil := None)]
                      else db.users;
        Step(db.(users := users', resets := db.resets[token := t.(usedAt := Some(now))]), Reply(true, PasswordResetDone))
  }

  /** The token is a registration invitation: its owner row still carries a placeholder
      email. `password_resets` has no column telling the two kinds of token apart, so the
      owner's email is the only evidence. */
  predicate InvitationToken(db: Db, token: string) {
    token in db.resets && db.resets[token].userId in db.users && IsSentinel(db.users[db.resets[token].userId].email)
  }

  /** `reset_password` corrected: an invitation token is refused as an unknown token would be,
      so a placeholder row never receives a usable password; any other token is handled as
      auth.py handles it. */
  function ResetPassword(db: Db, token: string, newPassword: string, freshSalt: string, now: Time): (r: Step)
    ensures r.db.clubs == db.clubs && r.db.nextUserId == db.nextUserId && r.db.nextClubId == db.nextClubId
    ensures token !in db.resets || InvitationToken(db, token) ==> r == Step(db, Reply(false, InvalidOrExpiredResetToken))
    ensures !InvitationToken(db, token) ==> r == ResetPasswordAsWritten(db, token, newPassword, freshSalt, now)
    ensures r.reply.success <==> token in db.resets && TokenValid(db.resets[token], now) && !InvitationToken(db, token)
    // Success: the token is consumed and only its (non-placeholder) owner gets new credentials.
    ensures r.reply.success ==>
              var t := db.resets[token];
              && r.reply.message == PasswordResetDone
              && r.db.resets == db.resets[token := t.(usedAt := Some(now))]
              && r.db.users.Keys == db.users.Keys
              && (forall id :: id in db.users && id != t.userId ==> r.db.users[id] == db.users[id])
              && (t.userId in db.users ==>
                    var u, v := db.users[t.userId], r.db.users[t.userId];
                    && !IsSentinel(u.email)
                    && VerifyPassword(newPassword, v.passwordHash, v.salt)
                    && v.failedAttempts == 0 && v.lockedUntil.None?
                    && v.(passwordHash := u.passwordHash, salt := u.salt, failedAttempts := u.failedAttempts, lockedUntil := u.lockedUntil) == u)
  {
    if InvitationToken(db, token) then Step(db, Reply(false, InvalidOrExpiredResetToken))
    else ResetPasswordAsWritten(db, token, newPassword, freshSalt, now)
  }

  /** A reset token works once: a second reset with it fails, whenever it is tried. */
  lemma ResetIsSingleUse(db: Db, token: string, p1: string, p2: string, s1: string, s2: string, now: Time, later: Time)
    requires ResetPassword(db, token, p1, s1, now).reply.success
    ensures !ResetPassword(ResetPassword(db, token, p1, s1, now).db, token, p2, s2, later).reply.success
  {
  }

  /** A token issued by `initiate_password_reset` resets the password at any moment up to and
      including one hour later, and not after (and never for a placeholder row). */
  lemma {:induction false} IssuedTokenLifetime(db: Db, email: string, token: string, now: Time, mailSent: bool,
                                               newPassword: string, salt: string, t: Time)
    requires token !in db.resets
    requires FindUserByEmail(db, email).Some?
    ensures var db' := InitiatePasswordReset(db, email, token, now, mailSent).db;
            ResetPassword(db', token, newPassword, salt, t).reply.success <==> t <= now + ResetTokenLifetime && !IsSentinel(email)
  {
    var db' := InitiatePasswordReset(db, email, token, now, mailSent).db;
    assert db'.resets[token] == ResetToken(FindUserByEmail(db, email).value, now + ResetTokenLifetime, None);
  }

  /** After a reset the new password logs in (the lockout is cleared) and any other
      password, the old one included, is refused. */
  lemma {:induction false} ResetThenLogin(db: Db, token: string, email: string, newPassword: string, other: string,
                                          salt: string, now: Time, later: Time, policy: Login.Policy)
    requires WellFormed(db)
    requires ResetPassword(db, token, newPassword, salt, now).reply.success
    requires var id := db.resets[token].userId; id in db.users && db.users[id].email == email
    requires other != newPassword
    ensures var db' := ResetPassword(db, token, newPassword, salt, now).db;
            Login.Authenticate(db', email, newPassword, later, policy).outcome.LoggedIn?
    ensures var db' := ResetPassword(db, token, newPassword, salt, now).db;
            Login.Authenticate(db', email, other, later, policy).outcome == Login.Rejected(Login.InvalidCredentials)
  {
    var id := db.resets[token].userId;
    var db' := ResetPassword(db, token, newPassword, salt, now).db;
    FindUserByEmailUnique(db, email, id);
    FindUserByEmailFrame(db, db', email);
    var v := db'.users[id];
    assert !Login.IsLocked(v, later);
    if VerifyPassword(other, v.passwordHash, v.salt) {
      VerifyOnlyOriginal(newPassword, other, None, salt);
    }
  }

  lemma {:induction false} InitiatePasswordResetKeepsWellFormed(db: Db, email: string, token: string, now: Time, mailSent: bool)
    requires WellFormed(db) && token !in db.resets
    ensures WellFormed(InitiatePasswordReset(db, email, token, now, mailSent).db)
  {
  }

  lemma {:induction false} ResetPasswordAsWrittenKeepsWellFormed(db: Db, token: string, newPassword: string, salt: string, now: Time)
    requires WellFormed(db)
    ensures WellFormed(ResetPasswordAsWritten(db, token, newPassword, salt, now).db)
  {
    var db' := ResetPasswordAsWritten(db, token, newPassword, salt, now).db;
    assert forall id :: id in db.users ==> db'.users[id].email == db.users[id].email;
  }

  lemma {:induction false} ResetPasswordKeepsWellFormed(db: Db, token: string, newPassword: string, salt: string, now: Time)
    requires WellFormed(db)
    ensures WellFormed(ResetPassword(db, token, newPassword, salt, now).db)
  {
    ResetPasswordAsWrittenKeepsWellFormed(db, token, newPassword, salt, now);
  }
}
