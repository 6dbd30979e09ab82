/** Login and account lockout: `AuthManager.authenticate_user` (auth.py:178-256). */
module Login {
  import opened Wrappers
  import opened Credentials
  import opened AuthStore

  /** How many consecutive failures lock an account, and for how long. */
  datatype Policy = Policy(maxAttempts: nat, lockSeconds: nat)

  /** The policy hard-coded in auth.py: five failures lock the account for 30 minutes.
      (app/config.py declares `MAX_FAILED_LOGIN_ATTEMPTS = 10`, which auth.py never reads.) */
  const AuthManagerPolicy: Policy := Policy(5, 30 * Minute)

  datatype LoginError = InvalidCredentials | AccountLocked(until: Time)
  datatype LoginOutcome = LoggedIn(info: UserInfo) | Rejected(error: LoginError)
  datatype LoginResult = LoginResult(db: Db, outcome: LoginOutcome)

  /** `locked_until and now < locked_until`: the lock is strict, so it is over at `locked_until`. */
  predicate IsLocked(u: User, now: Time) {
    u.lockedUntil.Some? && now < u.lockedUntil.value
  }

  /** `authenticate_user(email, password)` at time `now`. */
  function Authenticate(db: Db, email: string, password: string, now: Time, policy: Policy): (r: LoginResult)
    // Only the row found by email may change, and nothing outside `users`.
    ensures r.db.(users := db.users) == db && r.db.users.Keys == db.users.Keys
    ensures forall id :: id in db.users && Some(id) != FindUserByEmail(db, email) ==> r.db.users[id] == db.users[id]
    // An unknown email fails with the generic message and writes nothing.
    ensures FindUserByEmail(db, email).None? ==> r == LoginResult(db, Rejected(InvalidCredentials))
    // A locked account fails without looking at the password and writes nothing.
    ensures var f := FindUserByEmail(db, email);
            f.Some? && IsLocked(db.users[f.value], now) ==>
              r == LoginResult(db, Rejected(AccountLocked(db.users[f.value].lockedUntil.value)))
    // A wrong password counts one more failure and locks once the count reaches the threshold.
    ensures var f := FindUserByEmail(db, email);
            f.Some? && !IsLocked(db.users[f.value], now) && !VerifyPassword(password, db.users[f.value].passwordHash, db.users[f.value].salt) ==>
              var u, v := db.users[f.value], r.db.users[f.value];
              && r.outcome == Rejected(InvalidCredentials)
              && v.failedAttempts == u.failedAttempts + 1
              && v.lockedUntil == (if u.failedAttempts + 1 >= policy.maxAttempts then Some(now + policy.lockSeconds) else None)
              && v.(failedAttempts := u.failedAttempts, lockedUntil := u.lockedUntil) == u
    // A correct password clears the failures and the lock, stamps the login, and returns the profile.
    ensures var f := FindUserByEmail(db, email);
            f.Some? && !IsLocked(db.users[f.value], now) && VerifyPassword(password, db.users[f.value].passwordHash, db.users[f.value].salt) ==>
              var u, v := db.users[f.value], r.db.users[f.value];
              && r.outcome == LoggedIn(UserInfo(f.value, u.clubId, u.email, ClubName(db, u.clubId)))
              && v == u.(failedAttempts := 0, lockedUntil := None, lastLogin := Some(now))
  {
    match FindUserByEmail(db, email)
    case None => LoginResult(db, Rejected(InvalidCredentials))
    case Some(id) =>
      var u := db.users[id];
      if IsLocked(u, now) then
        LoginResult(db, Rejected(AccountLocked(u.lockedUntil.value)))
      else if !VerifyPassword(password, u.passwordHash, u.salt) then
        var attempts := u.failedAttempts + 1;
        var lock := if attempts >= policy.maxAttempts then Some(now + policy.lockSeconds) else None;
        LoginResult(db.(users := db.users[id := u.(failedAttempts := attempts, lockedUntil := lock)]), Rejected(InvalidCredentials))
      else
        var info := UserInfo(id, u.clubId, u.email, ClubName(db, u.clubId));
        LoginResult(db.(users := db.users[id := u.(failedAttempts := 0, lockedUntil := None, lastLogin := Some(now))]), LoggedIn(info))
  }

  /** `k` consecutive login attempts with the same email and password at time `now`. */
  function AttemptRepeatedly(db: Db, email: string, password: string, now: Time, policy: Policy, k: nat): (r: Db)
    ensures r.users.Keys == db.users.Keys
    ensures forall id :: id in db.users ==> r.users[id].email == db.users[id].email
    decreases k
  {
    if k == 0 then db
    else Authenticate(AttemptRepeatedly(db, email, password, now, policy, k - 1), email, password, now, policy).db
  }

  /** Lockout threshold: from `f` recorded failures, `k >= 1` further wrong passwords leave
      `f + k` failures; the account stays unlocked while `f + k` is below the threshold and
      is locked for exactly `lockSeconds` by the attempt that reaches it. */
  lemma {:induction false} LockoutThreshold(db: Db, email: string, wrong: string, now: Time, policy: Policy, k: nat)
    requires FindUserByEmail(db, email).Some?
    requires var u := db.users[FindUserByEmail(db, email).value];
             !IsLocked(u, now) && !VerifyPassword(wrong, u.passwordHash, u.salt)
             && 1 <= k && u.failedAttempts + k <= policy.maxAttempts
    ensures var id := FindUserByEmail(db, email).value;
            var u, v := db.users[id], AttemptRepeatedly(db, email, wrong, now, policy, k).users[id];
            && v.failedAttempts == u.failedAttempts + k
            && v.lockedUntil == (if u.failedAttempts + k == policy.maxAttempts then Some(now + policy.lockSeconds) else None)
            && v.(failedAttempts := u.failedAttempts, lockedUntil := u.lockedUntil) == u
    decreases k
  {
    var id := FindUserByEmail(db, email).value;
    var u := db.users[id];
    var prev := AttemptRepeatedly(db, email, wrong, now, policy, k - 1);
    if k > 1 {
      LockoutThreshold(db, email, wrong, now, policy, k - 1);
      assert prev.users[id] == u.(failedAttempts := u.failedAttempts + k - 1, lockedUntil := None);
    }
    FindUserByEmailFrame(db, prev, email);
    WrongPasswordStep(prev, email, id, wrong, now, policy);
  }

  /** One wrong password on an open account: one more failure, and the lock once the count
      reaches the threshold; nothing else in the row changes. */
  lemma WrongPasswordStep(db: Db, email: string, id: UserId, wrong: string, now: Time, policy: Policy)
    requires FindUserByEmail(db, email) == Some(id)
    requires var u := db.users[id]; !IsLocked(u, now) && !VerifyPassword(wrong, u.passwordHash, u.salt)
    ensures var u, v := db.users[id], Authenticate(db, email, wrong, now, policy).db.users[id];
            v == u.(failedAttempts := u.failedAttempts + 1,
                    lockedUntil := if u.failedAttempts + 1 >= policy.maxAttempts then Some(now + policy.lockSeconds) else None)
  {
  }

  /** While the lock lasts every attempt is refused, even with the right password; from
      `locked_until` on the right password logs in again. */
  lemma {:induction false} LockWindow(db: Db, email: string, password: string, now: Time, policy: Policy)
    requires FindUserByEmail(db, email).Some?
    requires db.users[FindUserByEmail(db, email).value].lockedUntil.Some?
    ensures var u := db.users[FindUserByEmail(db, email).value];
            var r := Authenticate(db, email, password, now, policy);
            && (now < u.lockedUntil.value ==> r.outcome == Rejected(AccountLocked(u.lockedUntil.value)))
            && (now >= u.lockedUntil.value && VerifyPassword(password, u.passwordHash, u.salt) ==> r.outcome.LoggedIn?)
  {
  }

  /** From a fresh account, `j = maxAttempts - 1` wrong passwords leave it open and one more
      locks it: the right password is then refused until the lock runs out. */
  lemma {:induction false} LockedAtThreshold(db: Db, email: string, wrong: string, right: string, now: Time, t: Time,
                                             policy: Policy, j: nat)
    requires FindUserByEmail(db, email).Some?
    requires var u := db.users[FindUserByEmail(db, email).value];
             u.failedAttempts == 0 && !IsLocked(u, now) && !VerifyPassword(wrong, u.passwordHash, u.salt)
    requires j >= 1 && policy.maxAttempts == j + 1 && now <= t < now + policy.lockSeconds
    ensures var id := FindUserByEmail(db, email).value;
            !IsLocked(AttemptRepeatedly(db, email, wrong, now, policy, j).users[id], now)
    ensures Authenticate(AttemptRepeatedly(db, email, wrong, now, policy, j + 1), email, right, t, policy).outcome
              == Rejected(AccountLocked(now + policy.lockSeconds))
  {
    OneShortOfThreshold(db, email, wrong, now, policy, j);
    LockedByThreshold(db, email, wrong, right, now, t, policy, j);
    OneMoreAttempt(db, email, wrong, now, policy, j);
  }

  /** The `maxAttempts`-th wrong password on a fresh account locks it against the right one. */
  lemma {:induction false} LockedByThreshold(db: Db, email: string, wrong: string, right: string, now: Time, t: Time,
                                             policy: Policy, j: nat)
    requires FindUserByEmail(db, email).Some?
    requires var u := db.users[FindUserByEmail(db, email).value];
             u.failedAttempts == 0 && !IsLocked(u, now) && !VerifyPassword(wrong, u.passwordHash, u.salt)
    requires j >= 1 && policy.maxAttempts == j + 1 && now <= t < now + policy.lockSeconds
    ensures var prev := AttemptRepeatedly(db, email, wrong, now, policy, j);
            Authenticate(Authenticate(prev, email, wrong, now, policy).db, email, right, t, policy).outcome
              == Rejected(AccountLocked(now + policy.lockSeconds))
  {
    OneShortOfThreshold(db, email, wrong, now, policy, j);
    LastAttemptRefuses(AttemptRepeatedly(db, email, wrong, now, policy, j), email, FindUserByEmail(db, email).value,
                       wrong, right, now, t, policy);
  }

  /** `j + 1` attempts are `j` attempts followed by one more. */
  lemma OneMoreAttempt(db: Db, email: string, password: string, now: Time, policy: Policy, j: nat)
    ensures AttemptRepeatedly(db, email, password, now, policy, j + 1)
              == Authenticate(AttemptRepeatedly(db, email, password, now, policy, j), email, password, now, policy).db
  {
  }

  /** After `j = maxAttempts - 1` wrong passwords a fresh account is still found by its email,
      open, and one failure short of the threshold. */
  lemma {:induction false} OneShortOfThreshold(db: Db, email: string, wrong: string, now: Time, policy: Policy, j: nat)
    requires FindUserByEmail(db, email).Some?
    requires var u := db.users[FindUserByEmail(db, email).value];
             u.failedAttempts == 0 && !IsLocked(u, now) && !VerifyPassword(wrong, u.passwordHash, u.salt)
    requires j >= 1 && policy.maxAttempts == j + 1
    ensures var id, prev := FindUserByEmail(db, email).value, AttemptRepeatedly(db, email, wrong, now, policy, j);
            && FindUserByEmail(prev, email) == Some(id)
            && prev.users[id].lockedUntil.None? && prev.users[id].failedAttempts + 1 == policy.maxAttempts
            && !VerifyPassword(wrong, prev.users[id].passwordHash, prev.users[id].salt)
  {
    var id := FindUserByEmail(db, email).value;
    var u := db.users[id];
    var prev := AttemptRepeatedly(db, email, wrong, now, policy, j);
    assert u.failedAttempts + j < policy.maxAttempts;
    LockoutThreshold(db, email, wrong, now, policy, j);
    assert prev.users[id] == u.(failedAttempts := j, lockedUntil := None);
    FindUserByEmailFrame(db, prev, email);
  }

  /** One failure short of the threshold, a wrong password locks the account until
      `now + lockSeconds`; the row is still the one found by its email. */
  lemma LastAttemptLocks(db: Db, email: string, id: UserId, wrong: string, now: Time, policy: Policy)
    requires FindUserByEmail(db, email) == Some(id)
    requires var u := db.users[id];
             u.lockedUntil.None? && u.failedAttempts + 1 == policy.maxAttempts && !VerifyPassword(wrong, u.passwordHash, u.salt)
    ensures var db1 := Authenticate(db, email, wrong, now, policy).db;
            FindUserByEmail(db1, email) == Some(id) && db1.users[id].lockedUntil == Some(now + policy.lockSeconds)
  {
    var db1 := Authenticate(db, email, wrong, now, policy).db;
    WrongPasswordStep(db, email, id, wrong, now, policy);
    FindUserByEmailFrame(db, db1, email);
  }

  /** One failure short of the threshold, a wrong password locks the account and the right
      one is then refused while the lock lasts. */
  lemma LastAttemptRefuses(db: Db, email: string, id: UserId, wrong: string, right: string, now: Time, t: Time, policy: Policy)
    requires FindUserByEmail(db, email) == Some(id)
    requires var u := db.users[id];
             u.lockedUntil.None? && u.failedAttempts + 1 == policy.maxAttempts && !VerifyPassword(wrong, u.passwordHash, u.salt)
    requires now <= t < now + policy.lockSeconds
    ensures Authenticate(Authenticate(db, email, wrong, now, policy).db, email, right, t, policy).outcome
              == Rejected(AccountLocked(now + policy.lockSeconds))
  {
    LastAttemptLocks(db, email, id, wrong, now, policy);
    LockedRowRefuses(Authenticate(db, email, wrong, now, policy).db, email, id, right, t, policy, now + policy.lockSeconds);
  }

  /** A row found by email and locked past `t` refuses any password at `t`. */
  lemma LockedRowRefuses(db: Db, email: string, id: UserId, password: string, t: Time, policy: Policy, until: Time)
    requires FindUserByEmail(db, email) == Some(id)
    requires db.users[id].lockedUntil == Some(until) && t < until
    ensures Authenticate(db, email, password, t, policy) == LoginResult(db, Rejected(AccountLocked(until)))
  {
  }

  /** With the AuthManager policy, four wrong passwords leave a fresh account open and
      the fifth locks it for 30 minutes, during which even the right password is refused. */
  lemma {:induction false} FiveStrikes(db: Db, email: string, wrong: string, right: string, now: Time, t: Time)
    requires FindUserByEmail(db, email).Some?
    requires var u := db.users[FindUserByEmail(db, email).value];
             u.failedAttempts == 0 && !IsLocked(u, now) && !VerifyPassword(wrong, u.passwordHash, u.salt)
    requires now <= t < now + 30 * Minute
    ensures var id := FindUserByEmail(db, email).value;
            !IsLocked(AttemptRepeatedly(db, email, wrong, now, AuthManagerPolicy, 4).users[id], now)
    ensures Authenticate(AttemptRepeatedly(db, email, wrong, now, AuthManagerPolicy, 5), email, right, t, AuthManagerPolicy).outcome
              == Rejected(AccountLocked(now + 30 * Minute))
  {
    LockedAtThreshold(db, email, wrong, right, now, t, AuthManagerPolicy, 4);
  }

  /** Anti-enumeration: an unknown email and a wrong password give the same answer. */
  lemma {:induction false} SameRejectionForUnknownEmailAndWrongPassword(db: Db, unknown: string, email: string, wrong: string, now: Time, policy: Policy)
    requires FindUserByEmail(db, unknown).None?
    requires FindUserByEmail(db, email).Some?
    requires var u := db.users[FindUserByEmail(db, email).value];
             !IsLocked(u, now) && !VerifyPassword(wrong, u.passwordHash, u.salt)
    ensures Authenticate(db, unknown, wrong, now, policy).outcome == Authenticate(db, email, wrong, now, policy).outcome
  {
  }

  /** A registration placeholder (hash `'temp'`) can never log in. */
  lemma {:induction false} PlaceholderCannotLogIn(db: Db, email: string, password: string, now: Time, policy: Policy)
    requires FindUserByEmail(db, email).Some?
    requires db.users[FindUserByEmail(db, email).value].passwordHash == Literal(PlaceholderText)
    ensures Authenticate(db, email, password, now, policy).outcome.Rejected?
  {
    var u := db.users[FindUserByEmail(db, email).value];
    LiteralNeverVerifies(password, PlaceholderText, u.salt);
  }

  /** Logging in keeps the table constraints. */
  lemma {:induction false} AuthenticateKeepsWellFormed(db: Db, email: string, password: string, now: Time, policy: Policy)
    requires WellFormed(db)
    ensures WellFormed(Authenticate(db, email, password, now, policy).db)
  {
    var db' := Authenticate(db, email, password, now, policy).db;
    assert forall id :: id in db.users ==> db'.users[id].email == db.users[id].email;
  }
}
