/** Two open invitations for one club: completing the later one with auth.py's
    `complete_registration` hands the EARLIER invitation's placeholder row to the new member,
    so the earlier invitation stops validating and its token, still unused and unexpired in
    `password_resets`, now resets the new member's password. The corrected completion leaves
    the earlier invitation intact. */
module RegistrationFinding {
  import opened Wrappers
  import opened Strings
  import opened Credentials
  import opened AuthStore
  import opened Accounts
  import opened Registration
  import PasswordReset
  import Login

  /** The database after two invitations `t1` then `t2` for club `c`. */
  function TwoInvitations(db: Db, c: ClubId, t1: string, t2: string, now: Time): Db
    requires t1 != t2 && t1 !in db.resets && t2 !in db.resets
  {
    var db1 := CreateRegistrationToken(db, c, t1, RegistrationTokenHours, now).db;
    CreateRegistrationToken(db1, c, t2, RegistrationTokenHours, now).db
  }

  /** The conditions under which both invitations get fresh placeholder rows `n` and `n + 1`. */
  predicate Setup(db: Db, c: ClubId, t1: string, t2: string, email: string) {
    && c in db.clubs && t1 != t2 && t1 !in db.resets && t2 !in db.resets
    && PlaceholderOf(db, c).None?
    && FindUserByEmail(db, SentinelEmail(c, t1)).None? && FindUserByEmail(db, SentinelEmail(c, t2)).None?
    && FindUserByEmail(db, email).None? && !IsSentinel(email)
  }

  /** One invitation for a fresh placeholder email: the placeholder takes id `n` and the token
      row points at it. */
  lemma {:induction false} InvitationInserted(db: Db, c: ClubId, t: string, now: Time)
    requires WellFormed(db) && c in db.clubs && t !in db.resets
    requires FindUserByEmail(db, SentinelEmail(c, t)).None?
    ensures var db', n := CreateRegistrationToken(db, c, t, RegistrationTokenHours, now).db, db.nextUserId;
            && WellFormed(db')
            && n !in db.users
            && db'.users == db.users[n := PlaceholderUser(c, SentinelEmail(c, t))]
            && db'.resets == db.resets[t := ResetToken(n, now + RegistrationTokenHours * Hour, None)]
            && db'.clubs == db.clubs && db'.nextUserId == n + 1
  {
    CreateRegistrationTokenKeepsWellFormed(db, c, t, RegistrationTokenHours, now);
  }

  /** Two placeholders added to a club that had none: the lower id is the club's first one. */
  lemma {:induction false} FirstOfTwoPlaceholders(db: Db, db2: Db, c: ClubId, n: UserId, m: UserId, e1: string, e2: string)
    requires PlaceholderOf(db, c).None?
    requires n < m && IsSentinel(e1) && IsSentinel(e2)
    requires db2.users == db.users[n := PlaceholderUser(c, e1)][m := PlaceholderUser(c, e2)]
    ensures PlaceholderOf(db2, c) == Some(n)
  {
    var r := PlaceholderOf(db2, c);
    assert n in db2.users && db2.users[n].clubId == Some(c) && IsSentinel(db2.users[n].email);
  }

  /** Shape of the two-invitation database: placeholders `n` (for `t1`) and `n + 1` (for `t2`),
      both still valid, the older one first in id order. */
  lemma {:induction false} TwoInvitationsShape(db: Db, c: ClubId, t1: string, t2: string, email: string, now: Time)
    requires WellFormed(db) && Setup(db, c, t1, t2, email)
    ensures var db2, n := TwoInvitations(db, c, t1, t2, now), db.nextUserId;
            && WellFormed(db2)
            && db2.users == db.users[n := PlaceholderUser(c, SentinelEmail(c, t1))][n + 1 := PlaceholderUser(c, SentinelEmail(c, t2))]
            && db2.resets[t1] == ResetToken(n, now + RegistrationTokenHours * Hour, None)
            && db2.resets[t2] == ResetToken(n + 1, now + RegistrationTokenHours * Hour, None)
            && ValidateRegistrationToken(db2, t1, now) == Some(c)
            && ValidateRegistrationToken(db2, t2, now) == Some(c)
            && PlaceholderOf(db2, c) == Some(n)
            && FindUserByEmail(db2, email).None?
  {
    var n := db.nextUserId;
    var e1, e2 := SentinelEmail(c, t1), SentinelEmail(c, t2);
    var db1 := CreateRegistrationToken(db, c, t1, RegistrationTokenHours, now).db;
    InvitationInserted(db, c, t1, now);
    if e1 == e2 { SentinelEmailInjective(c, t1, t2); }
    StillUnknownAfterAdding(db, db1, n, PlaceholderUser(c, e1), e2);
    var db2 := CreateRegistrationToken(db1, c, t2, RegistrationTokenHours, now).db;
    InvitationInserted(db1, c, t2, now);
    FirstOfTwoPlaceholders(db, db2, c, n, n + 1, e1, e2);
    PlaceholderTokenValidates(db2, c, t1, n, now);
    PlaceholderTokenValidates(db2, c, t2, n + 1, now);
    EmailUnknownAfterInvitations(db, db2, c, t1, t2, email);
  }

  /** Neither placeholder carries `email`, so it stays unknown after both are added. */
  lemma {:induction false} EmailUnknownAfterInvitations(db: Db, db2: Db, c: ClubId, t1: string, t2: string, email: string)
    requires FindUserByEmail(db, email).None? && !IsSentinel(email)
    requires var n := db.nextUserId;
             db2.users == db.users[n := PlaceholderUser(c, SentinelEmail(c, t1))][n + 1 := PlaceholderUser(c, SentinelEmail(c, t2))]
    ensures FindUserByEmail(db2, email).None?
  {
    var n := db.nextUserId;
    var e1, e2 := SentinelEmail(c, t1), SentinelEmail(c, t2);
    var db1 := db.(users := db.users[n := PlaceholderUser(c, e1)]);
    assert e1 != email && e2 != email;
    StillUnknownAfterAdding(db, db1, n, PlaceholderUser(c, e1), email);
    StillUnknownAfterAdding(db1, db2, n + 1, PlaceholderUser(c, e2), email);
  }

  /** A fresh invitation row pointing at its placeholder validates for the placeholder's club. */
  lemma PlaceholderTokenValidates(db: Db, c: ClubId, t: string, n: UserId, now: Time)
    requires t in db.resets && db.resets[t] == ResetToken(n, now + RegistrationTokenHours * Hour, None)
    requires n in db.users && db.users[n] == PlaceholderUser(c, SentinelEmail(c, t))
    ensures ValidateRegistrationToken(db, t, now) == Some(c)
  {
  }

  /** Adding a row under another email leaves an unknown email unknown. */
  lemma StillUnknownAfterAdding(db: Db, db': Db, n: UserId, u: User, email: string)
    requires FindUserByEmail(db, email).None? && u.email != email
    requires db'.users == db.users[n := u]
    ensures FindUserByEmail(db', email).None?
  {
  }

  /** As written: after the later invitation is completed, the earlier one no longer validates,
      yet its token resets the new member's password, after which that password logs in. */
  lemma {:induction false} AsWrittenCompletionHijacksEarlierInvitation(
    db: Db, c: ClubId, t1: string, t2: string, email: string, password: string, salt: string,
    chosen: string, salt2: string, now: Time, policy: Login.Policy)
    requires WellFormed(db) && Setup(db, c, t1, t2, email)
    ensures var db2 := TwoInvitations(db, c, t1, t2, now);
            var r := CompleteRegistrationAsWritten(db2, t2, email, password, salt, now);
            var reset := PasswordReset.ResetPassword(r.db, t1, chosen, salt2, now);
            && r.reply.success
            && ValidateRegistrationToken(r.db, t1, now).None?
            && reset.reply.success
            && Login.Authenticate(reset.db, email, chosen, now, policy).outcome.LoggedIn?
  {
    var n := db.nextUserId;
    var db2 := TwoInvitations(db, c, t1, t2, now);
    TwoInvitationsShape(db, c, t1, t2, email, now);
    var r := CompleteRegistrationAsWritten(db2, t2, email, password, salt, now);
    assert CanComplete(db2, t2, email, now);
    assert r.db.users[n].email == email;
    assert r.db.resets[t1] == db2.resets[t1];
    CompleteRegistrationAsWrittenKeepsWellFormed(db2, t2, email, password, salt, now);
    var reset := PasswordReset.ResetPassword(r.db, t1, chosen, salt2, now);
    assert reset.reply.success;
    PasswordReset.ResetThenLogin(r.db, t1, email, chosen, chosen + "x", salt2, now, now, policy);
  }

  /** Redeeming a reset token owned by some other row leaves a member able to log in as before. */
  lemma {:induction false} LoginSurvivesUnrelatedReset(db: Db, id: UserId, password: string, token: string,
                                                       chosen: string, salt: string, now: Time, policy: Login.Policy)
    requires WellFormed(db) && id in db.users
    requires token in db.resets && db.resets[token].userId != id
    requires !Login.IsLocked(db.users[id], now)
    requires VerifyPassword(password, db.users[id].passwordHash, db.users[id].salt)
    ensures var db' := PasswordReset.ResetPassword(db, token, chosen, salt, now).db;
            Login.Authenticate(db', db.users[id].email, password, now, policy).outcome.LoggedIn?
  {
    var db' := PasswordReset.ResetPassword(db, token, chosen, salt, now).db;
    PasswordReset.ResetPasswordKeepsWellFormed(db, token, chosen, salt, now);
    assert db'.users[id] == db.users[id];
    FindUserByEmailUnique(db', db.users[id].email, id);
  }

  /** Corrected: completing the later invitation leaves the earlier one valid for its club. */
  lemma {:induction false} CorrectedCompletionKeepsEarlierInvitation(
    db: Db, c: ClubId, t1: string, t2: string, email: string, password: string, salt: string, now: Time)
    requires WellFormed(db) && Setup(db, c, t1, t2, email)
    ensures var db2 := TwoInvitations(db, c, t1, t2, now);
            var r := CompleteRegistration(db2, t2, email, password, salt, now);
            && r.reply.success
            && ValidateRegistrationToken(r.db, t1, now) == Some(c)
  {
    var db2 := TwoInvitations(db, c, t1, t2, now);
    TwoInvitationsShape(db, c, t1, t2, email, now);
    assert CanComplete(db2, t2, email, now);
    OtherInvitationsSurvive(db2, t2, email, password, salt, now, t1, now);
  }

  /** Corrected: redeeming the earlier invitation's token cannot touch the new member's
      credentials; the member's own password still logs in. */
  lemma {:induction false} CorrectedCompletionProtectsNewMember(
    db: Db, c: ClubId, t1: string, t2: string, email: string, password: string, salt: string,
    chosen: string, salt2: string, now: Time, policy: Login.Policy)
    requires WellFormed(db) && Setup(db, c, t1, t2, email)
    ensures var db2 := TwoInvitations(db, c, t1, t2, now);
            var r := CompleteRegistration(db2, t2, email, password, salt, now);
            var reset := PasswordReset.ResetPassword(r.db, t1, chosen, salt2, now);
            Login.Authenticate(reset.db, email, password, now, policy).outcome.LoggedIn?
  {
    var db2 := TwoInvitations(db, c, t1, t2, now);
    TwoInvitationsShape(db, c, t1, t2, email, now);
    assert CanComplete(db2, t2, email, now);
    MemberSurvivesOtherReset(db2, t2, email, password, salt, now, t1, chosen, salt2, policy);
  }

  /** After a corrected completion, redeeming any token owned by another row leaves the new
      member able to log in. */
  lemma {:induction false} MemberSurvivesOtherReset(db: Db, token: string, email: string, password: string, salt: string, now: Time,
                                    other: string, chosen: string, salt2: string, policy: Login.Policy)
    requires WellFormed(db) && CanComplete(db, token, email, now)
    requires other != token && other in db.resets && db.resets[other].userId != db.resets[token].userId
    ensures var r := CompleteRegistration(db, token, email, password, salt, now);
            var reset := PasswordReset.ResetPassword(r.db, other, chosen, salt2, now);
            Login.Authenticate(reset.db, email, password, now, policy).outcome.LoggedIn?
  {
    var id := db.resets[token].userId;
    var r := CompleteRegistration(db, token, email, password, salt, now);
    CompleteRegistrationKeepsWellFormed(db, token, email, password, salt, now);
    CompletedMember(db, token, email, password, salt, now, id);
    LoginSurvivesUnrelatedReset(r.db, id, password, other, chosen, salt2, now, policy);
  }

  /** The completed member's row carries the email and a password that verifies, unlocked. */
  lemma CompletedMember(db: Db, token: string, email: string, password: string, salt: string, now: Time, id: UserId)
    requires CanComplete(db, token, email, now) && db.resets[token].userId == id
    ensures var r := CompleteRegistration(db, token, email, password, salt, now);
            && id in r.db.users && r.db.users[id].email == email
            && !Login.IsLocked(r.db.users[id], now)
            && VerifyPassword(password, r.db.users[id].passwordHash, r.db.users[id].salt)
  {
  }

  /** A concrete instance: club 1 with no members, invitations "T1" then "T2", completion of
      "T2" by a@b.nl. */
  lemma ConcreteHijack()
    ensures var db := Db(map[], map[1 := Club("Club", "CLB", "nl")], map[], 1, 2);
            var db2 := TwoInvitations(db, 1, "T1", "T2", 0);
            var r := CompleteRegistrationAsWritten(db2, "T2", "a@b.nl", "password123", "s1", 0);
            PasswordReset.ResetPassword(r.db, "T1", "chosen-by-T1-holder", "s2", 0).reply.success
  {
    var db := Db(map[], map[1 := Club("Club", "CLB", "nl")], map[], 1, 2);
    assert !IsSentinel("a@b.nl");
    AsWrittenCompletionHijacksEarlierInvitation(db, 1, "T1", "T2", "a@b.nl", "password123", "s1",
                                                "chosen-by-T1-holder", "s2", 0, Login.AuthManagerPolicy);
  }
}
