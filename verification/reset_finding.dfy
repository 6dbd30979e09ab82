/** `reset_password` (auth.py:305-365) accepts any row of `password_resets`, and registration
    invitations are rows of that table. Redeeming an invitation token there gives its
    placeholder row a real password, after which the placeholder email logs in. The corrected
    `PasswordReset.ResetPassword` refuses invitation tokens, and with it no row carrying a
    placeholder email ever logs in. */
module ResetFinding {
  import opened Wrappers
  import opened Credentials
  import opened AuthStore
  import opened Accounts
  import opened Registration
  import PasswordReset
  import Login

  /** As written: a fresh invitation's token, redeemed through `reset_password`, makes the
      placeholder email a working login with the chosen password. */
  lemma {:induction false} InvitationTokenOpensPlaceholder(db: Db, c: ClubId, token: string, chosen: string, salt: string,
                                                           now: Time, policy: Login.Policy)
    requires WellFormed(db) && c in db.clubs && token !in db.resets
    requires FindUserByEmail(db, SentinelEmail(c, token)).None?
    ensures var db1 := CreateRegistrationToken(db, c, token, RegistrationTokenHours, now).db;
            var reset := PasswordReset.ResetPasswordAsWritten(db1, token, chosen, salt, now);
            && reset.reply.success
            && Login.Authenticate(reset.db, SentinelEmail(c, token), chosen, now, policy).outcome.LoggedIn?
  {
    var e := SentinelEmail(c, token);
    var db1 := CreateRegistrationToken(db, c, token, RegistrationTokenHours, now).db;
    CreateRegistrationTokenKeepsWellFormed(db, c, token, RegistrationTokenHours, now);
    var n := db1.resets[token].userId;
    assert n in db1.users && db1.users[n].email == e;
    var reset := PasswordReset.ResetPasswordAsWritten(db1, token, chosen, salt, now);
    PasswordReset.ResetPasswordAsWrittenKeepsWellFormed(db1, token, chosen, salt, now);
    FindUserByEmailUnique(reset.db, e, n);
    assert !Login.IsLocked(reset.db.users[n], now);
  }

  /** A concrete instance: club 1 with no members, invitation "T", reset through "T". */
  lemma ConcretePlaceholderLogin()
    ensures var db := Db(map[], map[1 := Club("Club", "CLB", "nl")], map[], 1, 2);
            var db1 := CreateRegistrationToken(db, 1, "T", RegistrationTokenHours, 0).db;
            var reset := PasswordReset.ResetPasswordAsWritten(db1, "T", "chosen", "s", 0);
            Login.Authenticate(reset.db, SentinelEmail(1, "T"), "chosen", 0, Login.AuthManagerPolicy).outcome.LoggedIn?
  {
    var db := Db(map[], map[1 := Club("Club", "CLB", "nl")], map[], 1, 2);
    InvitationTokenOpensPlaceholder(db, 1, "T", "chosen", "s", 0, Login.AuthManagerPolicy);
  }

  /** Corrected: the same invitation token is refused without any write, and the placeholder
      email still cannot log in with the chosen password. */
  lemma {:induction false} InvitationTokenRefused(db: Db, c: ClubId, token: string, chosen: string, salt: string,
                                                  now: Time, policy: Login.Policy)
    requires WellFormed(db) && c in db.clubs && token !in db.resets
    requires FindUserByEmail(db, SentinelEmail(c, token)).None?
    ensures var db1 := CreateRegistrationToken(db, c, token, RegistrationTokenHours, now).db;
            var reset := PasswordReset.ResetPassword(db1, token, chosen, salt, now);
            && reset == Step(db1, Reply(false, InvalidOrExpiredResetToken))
            && Login.Authenticate(reset.db, SentinelEmail(c, token), chosen, now, policy).outcome.Rejected?
  {
    var e := SentinelEmail(c, token);
    var db1 := CreateRegistrationToken(db, c, token, RegistrationTokenHours, now).db;
    CreateRegistrationTokenKeepsWellFormed(db, c, token, RegistrationTokenHours, now);
    var n := db1.resets[token].userId;
    assert db1.users[n] == PlaceholderUser(c, e);
    assert PasswordReset.InvitationToken(db1, token);
    FindUserByEmailUnique(db1, e, n);
    LiteralNeverVerifies(chosen, PlaceholderText, PlaceholderText);
  }

  /** No placeholder email logs in while every placeholder row holds the `'temp'` hash. */
  lemma {:induction false} SentinelNeverLogsIn(db: Db, email: string, password: string, now: Time, policy: Login.Policy)
    requires PlaceholdersUnusable(db) && IsSentinel(email)
    ensures Login.Authenticate(db, email, password, now, policy).outcome.Rejected?
  {
    var f := FindUserByEmail(db, email);
    if f.Some? {
      var u := db.users[f.value];
      LiteralNeverVerifies(password, PlaceholderText, u.salt);
    }
  }

  /** The empty tables satisfy the invariant. */
  lemma EmptyPlaceholdersUnusable(nextUserId: UserId, nextClubId: ClubId)
    ensures PlaceholdersUnusable(Db(map[], map[], map[], nextUserId, nextClubId))
  {
  }

  /** An invitation inserts a `'temp'` placeholder or leaves an existing row untouched. */
  lemma {:induction false} CreateRegistrationTokenKeepsPlaceholdersUnusable(db: Db, c: ClubId, token: string, hours: int, now: Time)
    requires PlaceholdersUnusable(db) && token !in db.resets
    ensures PlaceholdersUnusable(CreateRegistrationToken(db, c, token, hours, now).db)
  {
    var e := SentinelEmail(c, token);
    var db1 := CreateRegistrationToken(db, c, token, hours, now).db;
    if c in db.clubs && FindUserByEmail(db, e).None? {
      var n := db.nextUserId;
      assert db1.users == db.users[n := PlaceholderUser(c, e)];
    }
  }

  /** The corrected reset keeps the invariant: it never writes a placeholder row. */
  lemma {:induction false} ResetPasswordKeepsPlaceholdersUnusable(db: Db, token: string, newPassword: string, salt: string, now: Time)
    requires PlaceholdersUnusable(db)
    ensures PlaceholdersUnusable(PasswordReset.ResetPassword(db, token, newPassword, salt, now).db)
  {
    var r := PasswordReset.ResetPassword(db, token, newPassword, salt, now);
    if r.reply.success {
      var t := db.resets[token];
      forall id | id in r.db.users && IsSentinel(r.db.users[id].email)
        ensures r.db.users[id].passwordHash == Literal(PlaceholderText)
      {
        if t.userId in db.users {
          assert r.db.users[t.userId].email == db.users[t.userId].email;
        }
        assert id != t.userId;
      }
    }
  }

  /** Logging in changes only counters and timestamps, never an email or a hash. */
  lemma {:induction false} AuthenticateKeepsPlaceholdersUnusable(db: Db, email: string, password: string, now: Time, policy: Login.Policy)
    requires PlaceholdersUnusable(db)
    ensures PlaceholdersUnusable(Login.Authenticate(db, email, password, now, policy).db)
  {
    var db' := Login.Authenticate(db, email, password, now, policy).db;
    assert forall id :: id in db.users ==>
             (db'.users[id].email == db.users[id].email && db'.users[id].passwordHash == db.users[id].passwordHash);
  }

  /** Issuing a reset token, creating a club or deleting a user writes no user row. */
  lemma {:induction false} AdministrationKeepsPlaceholdersUnusable(db: Db, email: string, token: string, now: Time, mailSent: bool,
                                                                   name: string, prefix: string, language: string, id: UserId)
    requires PlaceholdersUnusable(db) && token !in db.resets
    ensures PlaceholdersUnusable(PasswordReset.InitiatePasswordReset(db, email, token, now, mailSent).db)
    ensures PlaceholdersUnusable(CreateClub(db, name, prefix, language).db)
    ensures PlaceholdersUnusable(DeleteUser(db, id).db)
  {
    assert PasswordReset.InitiatePasswordReset(db, email, token, now, mailSent).db.users == db.users;
  }

  /** A new account keeps the invariant, provided its email is not placeholder-shaped:
      `create_user` does not look at the form of the email. */
  lemma {:induction false} CreateUserKeepsPlaceholdersUnusable(db: Db, email: string, password: string, clubId: Option<ClubId>, salt: string)
    requires PlaceholdersUnusable(db) && !IsSentinel(email)
    ensures PlaceholdersUnusable(CreateUser(db, email, password, clubId, salt).db)
  {
    var r := CreateUser(db, email, password, clubId, salt);
    if r.reply.success {
      forall id | id in r.db.users && IsSentinel(r.db.users[id].email)
        ensures r.db.users[id].passwordHash == Literal(PlaceholderText)
      {
        assert id in db.users && r.db.users[id] == db.users[id];
      }
    }
  }

  /** The corrected completion keeps the invariant for a non-placeholder email: only the
      invitation's own row changes, and it takes that email. */
  lemma {:induction false} CompleteRegistrationKeepsPlaceholdersUnusable(db: Db, token: string, email: string, password: string,
                                                                         salt: string, now: Time)
    requires PlaceholdersUnusable(db) && !IsSentinel(email)
    ensures PlaceholdersUnusable(CompleteRegistration(db, token, email, password, salt, now).db)
  {
    var r := CompleteRegistration(db, token, email, password, salt, now);
    if r.reply.success {
      var owner := db.resets[token].userId;
      forall id | id in r.db.users && IsSentinel(r.db.users[id].email)
        ensures r.db.users[id].passwordHash == Literal(PlaceholderText)
      {
        assert r.db.users[owner].email == email;
        assert id != owner;
      }
    }
  }
}
