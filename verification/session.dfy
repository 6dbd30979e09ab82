/** `SessionService` (app/services/session_service.py): the signed-cookie session as a
    key/value map, with the four keys that make a user logged in. */
module Session {
  import opened Wrappers
  import opened AuthStore
  import opened JsonValues
  import Accounts

  type Store = map<string, Value>

  /** The keys `login_user` writes and `logout_user` pops. */
  const UserKeys: set<string> := {"user_id", "club_id", "email", "club_name"}

  /** What `get_current_user` needs to read a logged-in session without a `KeyError`. */
  predicate Readable(s: Store) {
    "user_id" in s ==> "email" in s
  }

  /** The dict `authenticate_user` returns, as the JSON scalars the session stores. */
  function InfoDict(info: UserInfo): (d: Store)
    ensures d.Keys == UserKeys
  {
    map["user_id" := Int(info.userId),
        "club_id" := if info.clubId.Some? then Int(info.clubId.value) else Null,
        "email" := Str(info.email),
        "club_name" := if info.clubName.Some? then Str(info.clubName.value) else Null]
  }

  /** `login_user(request, user_info)`: `user_id`, `club_id` and `email` are required keys of
      `user_info`, `club_name` is read with `.get`. Every other session key is kept. */
  function LoginUser(s: Store, info: Store): (r: Store)
    requires "user_id" in info && "club_id" in info && "email" in info
    ensures r.Keys == s.Keys + UserKeys
    ensures forall k :: k in s && k !in UserKeys ==> r[k] == s[k]
    ensures r["user_id"] == info["user_id"] && r["club_id"] == info["club_id"]
    ensures r["email"] == info["email"] && r["club_name"] == Get(info, "club_name")
  {
    s["user_id" := info["user_id"]]["club_id" := info["club_id"]]["email" := info["email"]]["club_name" := Get(info, "club_name")]
  }

  /** `logout_user(request)`: pops the four user keys, present or not. */
  function LogoutUser(s: Store): (r: Store)
    ensures r.Keys == s.Keys - UserKeys
    ensures forall k :: k in r ==> r[k] == s[k]
  {
    s - UserKeys
  }

  /** `is_authenticated(request)`. */
  predicate IsAuthenticated(s: Store) {
    "user_id" in s
  }

  /** `get_current_user(request)`: the four user fields of a logged-in session, `club_id`
      and `club_name` read with `.get`. */
  function GetCurrentUser(s: Store): (r: Option<Store>)
    requires Readable(s)
    ensures r.None? <==> !IsAuthenticated(s)
    ensures r.Some? ==>
              && r.value.Keys == UserKeys
              && r.value["user_id"] == s["user_id"] && r.value["email"] == s["email"]
              && r.value["club_id"] == Get(s, "club_id") && r.value["club_name"] == Get(s, "club_name")
  {
    if "user_id" in s then
      Some(map["user_id" := s["user_id"], "club_id" := Get(s, "club_id"),
               "email" := s["email"], "club_name" := Get(s, "club_name")])
    else None
  }

  /** `require_admin(request, auth_service)`. `authAvailable` says whether an auth service
      was passed; the check itself is `is_admin` on the session's user. */
  function RequireAdmin(s: Store, authAvailable: bool): (r: bool)
    requires Readable(s)
    ensures !IsAuthenticated(s) || !authAvailable ==> !r
    ensures IsAuthenticated(s) && authAvailable ==> (r <==> Get(s, "club_id") == Null)
  {
    if !IsAuthenticated(s) then false
    else
      var info := GetCurrentUser(s);
      if info.None? || !authAvailable then false
      else Accounts.IsAdmin(info.value)
  }

  /** Round trip: after `login_user(info)`, `get_current_user` gives back exactly the four
      user fields of `info`. */
  lemma LoginThenCurrentUser(s: Store, info: Store)
    requires "user_id" in info && "club_id" in info && "email" in info
    ensures var s' := LoginUser(s, info);
            && Readable(s')
            && GetCurrentUser(s') == Some(map k | k in UserKeys :: Get(info, k))
  {
    var s' := LoginUser(s, info);
    var m := map k | k in UserKeys :: Get(info, k);
    assert GetCurrentUser(s').value == m;
  }

  /** Logging in keeps the session readable, and so does logging out. */
  lemma {:induction false} LoginLogoutKeepReadable(s: Store, info: Store)
    requires Readable(s)
    requires "user_id" in info && "club_id" in info && "email" in info
    ensures Readable(LoginUser(s, info)) && Readable(LogoutUser(s))
  {
    assert "email" in LoginUser(s, info);
  }

  /** After `logout_user` nobody is logged in, and logging out is idempotent. */
  lemma LogoutEndsSession(s: Store)
    ensures !IsAuthenticated(LogoutUser(s))
    ensures GetCurrentUser(LogoutUser(s)).None?
    ensures LogoutUser(LogoutUser(s)) == LogoutUser(s)
  {
  }

  /** Logging in and then out leaves exactly the session's other keys, as they were before
      the login (e.g. a pending `success_message`). */
  lemma LoginThenLogout(s: Store, info: Store)
    requires "user_id" in info && "club_id" in info && "email" in info
    ensures LogoutUser(LoginUser(s, info)) == LogoutUser(s)
  {
    var a, b := LogoutUser(LoginUser(s, info)), LogoutUser(s);
    assert a.Keys == b.Keys;
  }

  /** A session filled from a successful `authenticate_user` passes `require_admin` (with an
      auth service) exactly when the user belongs to no club. */
  lemma AdminIffNoClub(s: Store, info: UserInfo)
    ensures var s' := LoginUser(s, InfoDict(info));
            Readable(s') && (RequireAdmin(s', true) <==> info.clubId.None?)
  {
  }
}
